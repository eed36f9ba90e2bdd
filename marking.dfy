/** The first half of a depth cycle: beam pruning of the frontier and marking
    of the live ancestors of every entry kept. */
module Marking {
  import opened PositionTable

  /** A frontier entry is dropped only when it is worse than the mid threshold
      on both of the first two score components; the rest are ignored. */
  predicate Survives(score: Score, mid: Score) {
    !(score[0] > mid[0] && score[1] > mid[1])
  }

  /** The frontier entries kept by pruning, in frontier order. */
  function Kept<K(==), N>(pos: map<K, Value<N>>, frontier: seq<K>, mid: Score): (s: seq<K>)
    requires forall k | k in frontier :: k in pos
    ensures forall k | k in s :: k in frontier
    decreases |frontier|
  {
    if frontier == [] then []
    else
      var last := frontier[|frontier| - 1];
      Kept(pos, frontier[..|frontier| - 1], mid) + (if Survives(pos[last].score, mid) then [last] else [])
  }

  /** A key is kept exactly when it is on the frontier and competitive on at
      least one of the first two score components; the kept list is never
      longer than the frontier. */
  lemma {:induction false} KeptIff<K, N>(pos: map<K, Value<N>>, frontier: seq<K>, mid: Score, k: K)
    requires forall j | j in frontier :: j in pos
    ensures k in Kept(pos, frontier, mid) <==>
      k in frontier && (pos[k].score[0] <= mid[0] || pos[k].score[1] <= mid[1])
    ensures |Kept(pos, frontier, mid)| <= |frontier|
    decreases |frontier|
  {
    if frontier != [] {
      var init := frontier[..|frontier| - 1];
      assert frontier == init + [frontier[|frontier| - 1]];
      KeptIff(pos, init, mid, k);
    }
  }

  /** The entries that the marking walk from k sets to level d: k and its
      ancestors, up to the first one already at level d (which is left alone)
      or up to and including a root. */
  function Chain<K(==), N>(pos: map<K, Value<N>>, parentOf: (K, N) -> K, d: int, k: K): (c: set<K>)
    requires ParentClosed(pos, parentOf) && k in pos
    ensures forall j | j in c :: j in pos && pos[j].level != d && pos[j].depth <= pos[k].depth
    ensures k in c <==> pos[k].level != d
    decreases pos[k].depth
  {
    if pos[k].level == d then {}
    else if pos[k].depth == 0 then {k}
    else {k} + Chain(pos, parentOf, d, Parent(pos, parentOf, k))
  }

  /** The table with the level of every key of ks set to d. */
  function Mark<K(==), N>(pos: map<K, Value<N>>, ks: set<K>, d: int): (r: map<K, Value<N>>)
  {
    map j | j in pos :: if j in ks then pos[j].(level := d) else pos[j]
  }

  /** Only levels change when marking, so the backward links stay intact. */
  lemma MarkParentClosed<K, N>(pos: map<K, Value<N>>, parentOf: (K, N) -> K, ks: set<K>, d: int)
    requires ParentClosed(pos, parentOf)
    ensures ParentClosed(Mark(pos, ks, d), parentOf)
  {
    var r := Mark(pos, ks, d);
    forall k | k in r && r[k].depth > 0
      ensures r[k].node.Some? && Parent(r, parentOf, k) in r
      ensures r[Parent(r, parentOf, k)].depth + 1 == r[k].depth
    {
      assert Parent(r, parentOf, k) == Parent(pos, parentOf, k);
    }
  }

  /** The table after marking the chains of ks one after the other, in order. */
  function MarkAll<K(==), N>(pos: map<K, Value<N>>, parentOf: (K, N) -> K, ks: seq<K>, d: int): (r: map<K, Value<N>>)
    requires ParentClosed(pos, parentOf) && forall k | k in ks :: k in pos
    ensures ParentClosed(r, parentOf) && r.Keys == pos.Keys
    ensures forall j | j in pos :: r[j] == pos[j].(level := r[j].level)
    ensures forall j | j in pos :: r[j].level == pos[j].level || r[j].level == d
    decreases |ks|
  {
    if ks == [] then pos
    else
      var prev := MarkAll(pos, parentOf, ks[..|ks| - 1], d);
      var chain := Chain(prev, parentOf, d, ks[|ks| - 1]);
      MarkParentClosed(prev, parentOf, chain, d);
      Mark(prev, chain, d)
  }

  /** Marking the chains of ks and then of k. */
  lemma MarkAllSnoc<K, N>(pos: map<K, Value<N>>, parentOf: (K, N) -> K, ks: seq<K>, k: K, d: int)
    requires ParentClosed(pos, parentOf) && (forall j | j in ks :: j in pos) && k in pos
    ensures MarkAll(pos, parentOf, ks + [k], d)
      == Mark(MarkAll(pos, parentOf, ks, d), Chain(MarkAll(pos, parentOf, ks, d), parentOf, d, k), d)
  {
    assert (ks + [k])[..|ks|] == ks;
  }

  /** Pruning the frontier up to and including its i-th key. */
  lemma KeptSnoc<K, N>(pos: map<K, Value<N>>, frontier: seq<K>, mid: Score, i: nat)
    requires (forall j | j in frontier :: j in pos) && i < |frontier|
    ensures forall j | j in frontier[..i] :: j in pos
    ensures Kept(pos, frontier[..i + 1], mid)
      == Kept(pos, frontier[..i], mid) + (if Survives(pos[frontier[i]].score, mid) then [frontier[i]] else [])
  {
    assert frontier[..i + 1][..i] == frontier[..i];
  }

  /** Marking the chain of k leaves k marked and keeps the marks closed under
      parents: a live entry never has a dead parent. */
  lemma {:induction false} MarkChainCloses<K, N>(pos: map<K, Value<N>>, parentOf: (K, N) -> K, d: int, k: K)
    requires ParentClosed(pos, parentOf) && MarkClosed(pos, parentOf, d) && k in pos
    ensures MarkClosed(Mark(pos, Chain(pos, parentOf, d, k), d), parentOf, d)
    ensures Mark(pos, Chain(pos, parentOf, d, k), d)[k].level == d
    decreases pos[k].depth
  {
    var c := Chain(pos, parentOf, d, k);
    var r := Mark(pos, c, d);
    if pos[k].level == d {
      assert r == pos;
    } else if pos[k].depth == 0 {
      forall j | j in r && r[j].level == d && r[j].depth > 0 && r[j].node.Some?
        ensures Parent(r, parentOf, j) in r && r[Parent(r, parentOf, j)].level == d
      {
        assert j != k && pos[j].level == d;
        assert Parent(r, parentOf, j) == Parent(pos, parentOf, j);
      }
    } else {
      var p := Parent(pos, parentOf, k);
      MarkChainCloses(pos, parentOf, d, p);
      var c1 := Chain(pos, parentOf, d, p);
      var r1 := Mark(pos, c1, d);
      assert c == {k} + c1;
      forall j | j in r && r[j].level == d && r[j].depth > 0 && r[j].node.Some?
        ensures Parent(r, parentOf, j) in r && r[Parent(r, parentOf, j)].level == d
      {
        assert Parent(r, parentOf, j) == Parent(pos, parentOf, j) == Parent(r1, parentOf, j);
        if j != k {
          assert r1[j].level == d;
        }
      }
    }
  }

  /** After marking the chains of ks, every key of ks is marked and the marks
      are still closed under parents. */
  lemma {:induction false} MarkAllCloses<K, N>(pos: map<K, Value<N>>, parentOf: (K, N) -> K, ks: seq<K>, d: int)
    requires ParentClosed(pos, parentOf) && MarkClosed(pos, parentOf, d)
    requires forall k | k in ks :: k in pos
    ensures MarkClosed(MarkAll(pos, parentOf, ks, d), parentOf, d)
    ensures forall k | k in ks :: MarkAll(pos, parentOf, ks, d)[k].level == d
    decreases |ks|
  {
    if ks != [] {
      var init := ks[..|ks| - 1];
      var last := ks[|ks| - 1];
      assert ks == init + [last];
      MarkAllCloses(pos, parentOf, init, d);
      var prev := MarkAll(pos, parentOf, init, d);
      MarkChainCloses(prev, parentOf, d, last);
      var r := MarkAll(pos, parentOf, ks, d);
      forall k | k in ks
        ensures r[k].level == d
      {
        if k != last {
          assert k in init && prev[k].level == d;
        }
      }
    }
  }

  /** Marking chains from ks and then sweeping keeps every key of ks and,
      with it, every one of its ancestors in the table before marking, back
      to a root: the walk up from it is the same before and after. */
  lemma KeptAncestorsSurvive<K, N>(pos: map<K, Value<N>>, parentOf: (K, N) -> K, ks: seq<K>, d: int, k: K)
    requires ParentClosed(pos, parentOf) && MarkClosed(pos, parentOf, d)
    requires forall j | j in ks :: j in pos
    requires k in ks
    ensures ParentClosed(Sweep(MarkAll(pos, parentOf, ks, d), d), parentOf)
    ensures k in Sweep(MarkAll(pos, parentOf, ks, d), d)
    ensures Ancestors(Sweep(MarkAll(pos, parentOf, ks, d), d), parentOf, k) == Ancestors(pos, parentOf, k)
    ensures forall i | 0 <= i < |Ancestors(pos, parentOf, k)| ::
      Ancestors(pos, parentOf, k)[i] in Sweep(MarkAll(pos, parentOf, ks, d), d)
  {
    var marked := MarkAll(pos, parentOf, ks, d);
    var swept := Sweep(marked, d);
    MarkAllCloses(pos, parentOf, ks, d);
    SweepParentClosed(marked, parentOf, d);
    AncestorsAgree(pos, marked, parentOf, k);
    AncestorsAgree(marked, swept, parentOf, k);
  }

  /** Marking chains from ks and then sweeping keeps the table closed under
      parents and marked at most at d, and keeps every key of ks with its
      discovery depth. */
  lemma MarkSweepKeeps<K, N>(pos: map<K, Value<N>>, parentOf: (K, N) -> K, ks: seq<K>, d: int)
    requires ParentClosed(pos, parentOf) && MarkClosed(pos, parentOf, d)
    requires forall j | j in ks :: j in pos
    ensures ParentClosed(Sweep(MarkAll(pos, parentOf, ks, d), d), parentOf)
    ensures LevelsAtMost(Sweep(MarkAll(pos, parentOf, ks, d), d), d)
    ensures forall k | k in ks ::
      k in Sweep(MarkAll(pos, parentOf, ks, d), d) && Sweep(MarkAll(pos, parentOf, ks, d), d)[k].depth == pos[k].depth
  {
    MarkAllCloses(pos, parentOf, ks, d);
    SweepParentClosed(MarkAll(pos, parentOf, ks, d), parentOf, d);
  }

  /** Marking the chain of a key cannot be affected by the mark of a deeper entry. */
  lemma {:induction false} ChainIgnoresDeeper<K, N>(pos: map<K, Value<N>>, parentOf: (K, N) -> K, d: int, k: K, x: K)
    requires ParentClosed(pos, parentOf) && k in pos && x in pos
    requires pos[x].depth > pos[k].depth
    ensures ParentClosed(pos[x := pos[x].(level := d)], parentOf)
    ensures Chain(pos[x := pos[x].(level := d)], parentOf, d, k) == Chain(pos, parentOf, d, k)
    decreases pos[k].depth
  {
    var pos' := pos[x := pos[x].(level := d)];
    assert pos' == Mark(pos, {x}, d);
    MarkParentClosed(pos, parentOf, {x}, d);
    if pos[k].level != d && pos[k].depth > 0 {
      ChainIgnoresDeeper(pos, parentOf, d, Parent(pos, parentOf, k), x);
    }
  }
}
