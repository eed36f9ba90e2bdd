/** What is published once a deal is solved, and how many deals one run
    solves: Java's integer division and remainder, the caption line, the name
    of the upload file and the length of a batch. */
module Captions {

  function Abs(x: int): nat {
    if x < 0 then -x else x
  }

  /** Java's `/` on int: the quotient truncated toward zero. */
  function JavaDiv(a: int, b: int): int
    requires b != 0
  {
    if (a >= 0) == (b > 0) then Abs(a) / Abs(b) else -(Abs(a) / Abs(b))
  }

  /** Java's `%` on int: the remainder takes the sign of the dividend. */
  function JavaRem(a: int, b: int): int
    requires b != 0
  {
    if a >= 0 then a % Abs(b) else -((-a) % Abs(b))
  }

  /** Java's quotient and remainder recombine to the dividend; the remainder
      is smaller than the divisor and, when not zero, has the dividend's sign. */
  lemma JavaDivRem(a: int, b: int)
    requires b != 0
    ensures a == b * JavaDiv(a, b) + JavaRem(a, b)
    ensures Abs(JavaRem(a, b)) < Abs(b)
    ensures JavaRem(a, b) != 0 ==> (JavaRem(a, b) > 0 <==> a > 0)
  {
    JavaRemSign(a, b);
    var m := Abs(b);
    var q := Abs(a) / m;
    var r := Abs(a) % m;
    assert Abs(a) == m * q + r;
    if b > 0 {
      assert b * q == m * q;
    } else {
      assert b * q == -(m * q);
      assert b * (-q) == m * q;
    }
  }

  /** The remainder is smaller than the divisor and, when not zero, has the
      dividend's sign. */
  lemma JavaRemSign(a: int, b: int)
    requires b != 0
    ensures Abs(JavaRem(a, b)) < Abs(b)
    ensures JavaRem(a, b) != 0 ==> (JavaRem(a, b) > 0 <==> a > 0)
  {
    if a == 0 {
      assert JavaRem(a, b) == 0;
    }
  }

  /** A non-zero multiple of a positive number is at least that number away from zero. */
  lemma {:induction false} MulAway(m: int, k: int)
    requires m > 0 && k != 0
    ensures m * k >= m || m * k <= -m
    decreases Abs(k)
  {
    if k > 1 {
      MulAway(m, k - 1);
      assert m * k == m * (k - 1) + m;
    }
    if k < -1 {
      MulAway(m, k + 1);
      assert m * k == m * (k + 1) - m;
    }
  }

  /** Euclidean quotient and remainder are unique. */
  lemma ModUnique(x: int, m: int, q: int, r: int)
    requires m > 0 && 0 <= r < m && x == m * q + r
    ensures x % m == r && x / m == q
  {
    var q0, r0 := x / m, x % m;
    assert x == m * q0 + r0;
    assert m * (q0 - q) == r - r0;
    if q0 != q {
      MulAway(m, q0 - q);
    }
  }

  /** Java's remainder vanishes exactly when the number is a multiple of the divisor. */
  lemma JavaRemZero(a: int, b: int)
    requires b != 0
    ensures JavaRem(a, b) == 0 <==> a % Abs(b) == 0
  {
    var m := Abs(b);
    if a < 0 {
      var q, r := (-a) / m, (-a) % m;
      assert -a == m * q + r;
      if r == 0 {
        ModUnique(a, m, -q, 0);
      } else {
        assert a == m * (-q - 1) + (m - r);
        ModUnique(a, m, -q - 1, m - r);
      }
    }
  }

  /** The remainder of the successor. */
  lemma ModSucc(x: int, m: int)
    requires m > 0
    ensures (x + 1) % m == if x % m == m - 1 then 0 else x % m + 1
  {
    var q, r := x / m, x % m;
    assert x == m * q + r;
    if r == m - 1 {
      ModUnique(x + 1, m, q + 1, 0);
    } else {
      ModUnique(x + 1, m, q, r + 1);
    }
  }

  /** How many deals one run solves when it starts at deal g: the loop ends
      after the deal whose successor is a multiple of the block size b, so a
      run of b deals, or fewer when g is not at the start of a block. */
  function BatchLength(g: int, b: int): (n: nat)
    requires b != 0
    ensures n == Abs(b) - g % Abs(b) && 1 <= n <= Abs(b)
    ensures JavaRem(g + n, b) == 0
    ensures forall j | g < j < g + n :: JavaRem(j, b) != 0
    decreases Abs(b) - g % Abs(b)
  {
    JavaRemZero(g + 1, b);
    ModSucc(g, Abs(b));
    if JavaRem(g + 1, b) == 0 then 1
    else
      1 + BatchLength(g + 1, b)
  }

  /** The last caption field: the target engine. */
  datatype Tag = Xp | W7 | All

  /** xp when solving for the legacy engine; otherwise w7 when the solution
      uses a move group the legacy engine would refuse, all when it uses none. */
  function CaptionTag(winxp: bool, winxpwarn: bool): Tag {
    if winxp then Xp else if winxpwarn then W7 else All
  }

  /** The caption of a solution: deal number, depth reached, node budget in
      thousands and target engine. */
  datatype Caption = Caption(gameno: int, depth: nat, kiloNodes: int, tag: Tag)

  function MakeCaption(gameno: int, depth: nat, maxnodes: int, tag: Tag): (c: Caption)
    ensures c.gameno == gameno && c.depth == depth && c.tag == tag
    ensures maxnodes >= 0 ==> 1000 * c.kiloNodes <= maxnodes < 1000 * c.kiloNodes + 1000
  {
    JavaDivRem(maxnodes, 1000);
    Caption(gameno, depth, JavaDiv(maxnodes, 1000), tag)
  }

  /** The file a solution is appended to: one shared file when solving a
      single deal, otherwise one file per block of 500 deal numbers. */
  datatype UploadFile = Shared | Numbered(block: int)

  function UploadFileFor(gameno: int, blocksolve: int): (f: UploadFile)
    ensures f == Shared <==> blocksolve == 1
    ensures f.Numbered? && gameno >= 0 ==> 500 * f.block <= gameno < 500 * f.block + 500
    ensures f.Numbered? && gameno < 0 ==> 500 * f.block - 500 < gameno <= 500 * f.block
  {
    JavaDivRem(gameno, 500);
    if blocksolve == 1 then Shared else Numbered(JavaDiv(gameno, 500))
  }
}
