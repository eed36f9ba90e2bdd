/** The second half of a depth cycle: expanding one kept entry, inserting the
    new positions first-writer-wins and stopping at the first goal. */
module Expansion {
  import opened PositionTable

  /** The four foundation cells, tableau[4][0] to tableau[7][0], as Java int
      card codes. */
  type HomeCells = h: seq<int> | |h| == 4 witness [0, 0, 0, 0]

  /** One move group of a position after it is played and followed by its
      forced plays: the key of the resulting position, the move group, the
      heuristic score and the foundation cells of the resulting position. */
  datatype Child<K, N> = Child(key: K, node: N, score: Score, homecells: HomeCells)

  /** The rank of a card code is in its low four bits: `card & 15`. For a
      32-bit two's-complement int this is the remainder modulo 16 that is
      never negative, which is what Dafny's `%` computes. */
  function Rank(card: int): (r: int)
    ensures 0 <= r < 16
  {
    card % 16
  }

  /** The goal test of search: all four foundations show a king (rank 13). */
  predicate IsGoal(h: HomeCells)
  {
    Rank(h[0]) == 13 && Rank(h[1]) == 13 && Rank(h[2]) == 13 && Rank(h[3]) == 13
  }

  /** Some move group of the list reaches the goal. */
  predicate GoalReached<K, N>(cs: seq<Child<K, N>>) {
    exists i | 0 <= i < |cs| :: IsGoal(cs[i].homecells)
  }

  /** How many move groups search plays from the list: all of them up to and
      including the first that reaches the goal, or all of them when none does. */
  function Processed<K, N>(cs: seq<Child<K, N>>): (n: nat)
    ensures n <= |cs|
    ensures forall i | 0 <= i < n - 1 :: !IsGoal(cs[i].homecells)
    ensures GoalReached(cs) <==> 0 < n && IsGoal(cs[n - 1].homecells)
    ensures !GoalReached(cs) ==> n == |cs|
  {
    if cs == [] then 0
    else if IsGoal(cs[0].homecells) then 1
    else
      assert GoalReached(cs) ==> GoalReached(cs[1..]) by {
        if GoalReached(cs) {
          var i :| 0 <= i < |cs| && IsGoal(cs[i].homecells);
          assert IsGoal(cs[1..][i - 1].homecells);
        }
      }
      1 + Processed(cs[1..])
  }

  /** The move groups search plays from the list. */
  function Played<K, N>(cs: seq<Child<K, N>>): seq<Child<K, N>> {
    cs[..Processed(cs)]
  }

  /** The table entry a new position gets when it is discovered while
      expanding at depth d. */
  function Discovered<K, N>(c: Child<K, N>, d: nat): Value<N> {
    Value(0, d + 1, Some(c.node), c.score)
  }

  /** Inserting one position: only a key that is not yet in the table is added. */
  function Insert<K(==), N>(pos: map<K, Value<N>>, c: Child<K, N>, d: nat): map<K, Value<N>> {
    if c.key in pos then pos else pos[c.key := Discovered(c, d)]
  }

  /** The table after inserting the positions of cs in order. */
  function InsertAll<K(==), N>(pos: map<K, Value<N>>, cs: seq<Child<K, N>>, d: nat): map<K, Value<N>>
    decreases |cs|
  {
    if cs == [] then pos else Insert(InsertAll(pos, cs[..|cs| - 1], d), cs[|cs| - 1], d)
  }

  /** The positions of cs that were actually inserted, in order. */
  function Fresh<K(==), N>(pos: map<K, Value<N>>, cs: seq<Child<K, N>>, d: nat): seq<Child<K, N>>
    decreases |cs|
  {
    if cs == [] then []
    else
      var init := cs[..|cs| - 1];
      Fresh(pos, init, d) + (if cs[|cs| - 1].key in InsertAll(pos, init, d) then [] else [cs[|cs| - 1]])
  }

  function KeysOf<K, N>(cs: seq<Child<K, N>>): (ks: seq<K>)
    ensures |ks| == |cs| && forall i | 0 <= i < |cs| :: ks[i] == cs[i].key
  {
    seq(|cs|, i requires 0 <= i < |cs| => cs[i].key)
  }

  function ScoresOf<K, N>(cs: seq<Child<K, N>>): (ss: seq<Score>)
    ensures |ss| == |cs| && forall i | 0 <= i < |cs| :: ss[i] == cs[i].score
  {
    seq(|cs|, i requires 0 <= i < |cs| => cs[i].score)
  }

  /** Appending one inserted position appends its key and score. */
  lemma KeysScoresSnoc<K, N>(f: seq<Child<K, N>>, c: Child<K, N>)
    ensures KeysOf(f + [c]) == KeysOf(f) + [c.key]
    ensures ScoresOf(f + [c]) == ScoresOf(f) + [c.score]
  {
  }

  /** Inserting never changes an entry already in the table. */
  lemma {:induction false} InsertAllKeeps<K, N>(pos: map<K, Value<N>>, cs: seq<Child<K, N>>, d: nat)
    ensures forall k | k in pos :: k in InsertAll(pos, cs, d) && InsertAll(pos, cs, d)[k] == pos[k]
    decreases |cs|
  {
    if cs != [] {
      InsertAllKeeps(pos, cs[..|cs| - 1], d);
    }
  }

  /** Inserting the positions of cs[..i + 1] is inserting those of cs[..i]
      and then cs[i]. */
  lemma InsertNext<K, N>(pos: map<K, Value<N>>, cs: seq<Child<K, N>>, i: nat, d: nat)
    requires i < |cs|
    ensures InsertAll(pos, cs[..i + 1], d) == Insert(InsertAll(pos, cs[..i], d), cs[i], d)
    ensures Fresh(pos, cs[..i + 1], d)
      == Fresh(pos, cs[..i], d) + (if cs[i].key in InsertAll(pos, cs[..i], d) then [] else [cs[i]])
  {
    assert cs[..i + 1][..i] == cs[..i];
  }

  /** First writer wins: every entry already in the table keeps its value; a
      key is in the result exactly when it was in the table or some position of
      cs has it; and a new key holds the value of the first position of cs that
      has it, discovered at depth d + 1 and not yet marked. */
  lemma {:induction false} InsertAllFirstWriterWins<K, N>(pos: map<K, Value<N>>, cs: seq<Child<K, N>>, d: nat)
    ensures forall k | k in pos :: k in InsertAll(pos, cs, d) && InsertAll(pos, cs, d)[k] == pos[k]
    ensures forall k :: k in InsertAll(pos, cs, d) <==> k in pos || exists i | 0 <= i < |cs| :: cs[i].key == k
    ensures forall k | k in InsertAll(pos, cs, d) && k !in pos ::
      exists i | 0 <= i < |cs| ::
        && cs[i].key == k
        && (forall j | 0 <= j < i :: cs[j].key != k)
        && InsertAll(pos, cs, d)[k] == Discovered(cs[i], d)
    decreases |cs|
  {
    if cs != [] {
      var init := cs[..|cs| - 1];
      var last := cs[|cs| - 1];
      InsertAllFirstWriterWins(pos, init, d);
      var prev := InsertAll(pos, init, d);
      var r := InsertAll(pos, cs, d);
      forall k
        ensures k in r <==> k in pos || exists i | 0 <= i < |cs| :: cs[i].key == k
      {
        if exists i | 0 <= i < |cs| :: cs[i].key == k {
          var i :| 0 <= i < |cs| && cs[i].key == k;
          if i < |cs| - 1 {
            assert init[i].key == k;
          }
        }
        if exists i | 0 <= i < |init| :: init[i].key == k {
          var i :| 0 <= i < |init| && init[i].key == k;
          assert cs[i].key == k;
        }
      }
      forall k | k in r && k !in pos
        ensures exists i | 0 <= i < |cs| ::
          && cs[i].key == k
          && (forall j | 0 <= j < i :: cs[j].key != k)
          && r[k] == Discovered(cs[i], d)
      {
        if k in prev {
          var i :| 0 <= i < |init| && init[i].key == k
            && (forall j | 0 <= j < i :: init[j].key != k)
            && prev[k] == Discovered(init[i], d);
          assert cs[i] == init[i];
          assert forall j | 0 <= j < i :: cs[j] == init[j];
        } else {
          assert k == last.key;
          forall j | 0 <= j < |cs| - 1
            ensures cs[j].key != k
          {
            assert cs[j] == init[j];
          }
        }
      }
    }
  }

  /** The positions actually inserted are exactly the new keys of the result,
      each once, none of them already in the table, each with the value the
      table now holds for it. */
  lemma FreshAreNew<K, N>(pos: map<K, Value<N>>, cs: seq<Child<K, N>>, d: nat)
    ensures forall i, j | 0 <= i < j < |Fresh(pos, cs, d)| :: Fresh(pos, cs, d)[i].key != Fresh(pos, cs, d)[j].key
    ensures forall i | 0 <= i < |Fresh(pos, cs, d)| ::
      && Fresh(pos, cs, d)[i].key !in pos && Fresh(pos, cs, d)[i].key in InsertAll(pos, cs, d)
      && InsertAll(pos, cs, d)[Fresh(pos, cs, d)[i].key] == Discovered(Fresh(pos, cs, d)[i], d)
    ensures forall k | k in InsertAll(pos, cs, d) && k !in pos ::
      exists i | 0 <= i < |Fresh(pos, cs, d)| :: Fresh(pos, cs, d)[i].key == k
  {
    FreshInserted(pos, cs, d);
    FreshCovers(pos, cs, d);
  }

  /** Each position actually inserted has a new key, none twice, and the
      table now holds it as discovered from that position. */
  lemma {:induction false} FreshInserted<K, N>(pos: map<K, Value<N>>, cs: seq<Child<K, N>>, d: nat)
    ensures forall i, j | 0 <= i < j < |Fresh(pos, cs, d)| :: Fresh(pos, cs, d)[i].key != Fresh(pos, cs, d)[j].key
    ensures forall i | 0 <= i < |Fresh(pos, cs, d)| ::
      && Fresh(pos, cs, d)[i].key !in pos && Fresh(pos, cs, d)[i].key in InsertAll(pos, cs, d)
      && InsertAll(pos, cs, d)[Fresh(pos, cs, d)[i].key] == Discovered(Fresh(pos, cs, d)[i], d)
    decreases |cs|
  {
    if cs != [] {
      var init := cs[..|cs| - 1];
      var last := cs[|cs| - 1];
      FreshInserted(pos, init, d);
      InsertAllKeeps(pos, init, d);
      if last.key in InsertAll(pos, init, d) {
        assert InsertAll(pos, cs, d) == InsertAll(pos, init, d);
        assert Fresh(pos, cs, d) == Fresh(pos, init, d);
      } else {
        assert InsertAll(pos, cs, d) == InsertAll(pos, init, d)[last.key := Discovered(last, d)];
        assert Fresh(pos, cs, d) == Fresh(pos, init, d) + [last];
        forall i | 0 <= i < |Fresh(pos, init, d)|
          ensures Fresh(pos, cs, d)[i] == Fresh(pos, init, d)[i]
          ensures Fresh(pos, init, d)[i].key != last.key
        {
        }
      }
    }
  }

  /** Every new key of the result is the key of a position actually inserted. */
  lemma {:induction false} FreshCovers<K, N>(pos: map<K, Value<N>>, cs: seq<Child<K, N>>, d: nat)
    ensures forall k | k in InsertAll(pos, cs, d) && k !in pos ::
      exists i | 0 <= i < |Fresh(pos, cs, d)| :: Fresh(pos, cs, d)[i].key == k
    decreases |cs|
  {
    if cs != [] {
      var init := cs[..|cs| - 1];
      var last := cs[|cs| - 1];
      FreshCovers(pos, init, d);
      if last.key in InsertAll(pos, init, d) {
        assert InsertAll(pos, cs, d) == InsertAll(pos, init, d);
        assert Fresh(pos, cs, d) == Fresh(pos, init, d);
      } else {
        assert InsertAll(pos, cs, d) == InsertAll(pos, init, d)[last.key := Discovered(last, d)];
        assert Fresh(pos, cs, d) == Fresh(pos, init, d) + [last];
        forall k | k in InsertAll(pos, cs, d) && k !in pos
          ensures exists i | 0 <= i < |Fresh(pos, cs, d)| :: Fresh(pos, cs, d)[i].key == k
        {
          if k == last.key {
            assert Fresh(pos, cs, d)[|Fresh(pos, init, d)|].key == k;
          } else {
            var i :| 0 <= i < |Fresh(pos, init, d)| && Fresh(pos, init, d)[i].key == k;
            assert Fresh(pos, cs, d)[i] == Fresh(pos, init, d)[i];
          }
        }
      }
    }
  }

  /** The keys of the positions actually inserted: each is new and now in the
      table, none twice, and every new key of the table among them. */
  lemma FreshKeys<K, N>(pos: map<K, Value<N>>, cs: seq<Child<K, N>>, d: nat)
    ensures forall i | 0 <= i < |KeysOf(Fresh(pos, cs, d))| ::
      KeysOf(Fresh(pos, cs, d))[i] in InsertAll(pos, cs, d) && KeysOf(Fresh(pos, cs, d))[i] !in pos
    ensures forall i, j | 0 <= i < j < |KeysOf(Fresh(pos, cs, d))| ::
      KeysOf(Fresh(pos, cs, d))[i] != KeysOf(Fresh(pos, cs, d))[j]
    ensures forall k | k in InsertAll(pos, cs, d) && k !in pos ::
      exists i | 0 <= i < |KeysOf(Fresh(pos, cs, d))| :: KeysOf(Fresh(pos, cs, d))[i] == k
  {
    FreshAreNew(pos, cs, d);
    forall k | k in InsertAll(pos, cs, d) && k !in pos
      ensures exists i | 0 <= i < |KeysOf(Fresh(pos, cs, d))| :: KeysOf(Fresh(pos, cs, d))[i] == k
    {
      var i :| 0 <= i < |Fresh(pos, cs, d)| && Fresh(pos, cs, d)[i].key == k;
      assert KeysOf(Fresh(pos, cs, d))[i] == k;
    }
  }

  /** Every entry inserted is unmarked and one depth below d, and every
      entry already in the table keeps its value. */
  lemma NewEntriesUnmarked<K, N>(pos: map<K, Value<N>>, cs: seq<Child<K, N>>, d: nat)
    ensures forall k | k in InsertAll(pos, cs, d) && k !in pos ::
      InsertAll(pos, cs, d)[k].level == 0 && InsertAll(pos, cs, d)[k].depth == d + 1
    ensures forall k | k in pos :: k in InsertAll(pos, cs, d) && InsertAll(pos, cs, d)[k] == pos[k]
  {
    InsertAllFirstWriterWins(pos, cs, d);
  }

  /** Inserting the children of an entry s at s's own discovery depth keeps
      the table closed under parents, when undoing each child's move group
      leads back to s. */
  lemma {:induction false} InsertAllParentClosed<K, N>(
    pos: map<K, Value<N>>, parentOf: (K, N) -> K, s: K, cs: seq<Child<K, N>>, d: nat)
    requires ParentClosed(pos, parentOf) && s in pos && pos[s].depth == d
    requires forall i | 0 <= i < |cs| :: parentOf(cs[i].key, cs[i].node) == s
    ensures ParentClosed(InsertAll(pos, cs, d), parentOf)
    decreases |cs|
  {
    if cs != [] {
      var init := cs[..|cs| - 1];
      assert forall i | 0 <= i < |init| :: init[i] == cs[i];
      InsertAllParentClosed(pos, parentOf, s, init, d);
      InsertAllFirstWriterWins(pos, init, d);
      InsertParentClosed(InsertAll(pos, init, d), parentOf, s, cs[|cs| - 1], d);
    }
  }

  /** One insertion keeps the table closed under parents when the new
      position's parent is s, discovered at depth d. */
  lemma InsertParentClosed<K, N>(pos: map<K, Value<N>>, parentOf: (K, N) -> K, s: K, c: Child<K, N>, d: nat)
    requires ParentClosed(pos, parentOf) && s in pos && pos[s].depth == d
    requires parentOf(c.key, c.node) == s
    ensures ParentClosed(Insert(pos, c, d), parentOf)
    ensures forall k | k in pos :: k in Insert(pos, c, d) && Insert(pos, c, d)[k] == pos[k]
  {
    var r := Insert(pos, c, d);
    forall k | k in r && r[k].depth > 0
      ensures r[k].node.Some? && Parent(r, parentOf, k) in r
      ensures r[Parent(r, parentOf, k)].depth + 1 == r[k].depth
    {
      if k in pos {
        assert Parent(r, parentOf, k) == Parent(pos, parentOf, k);
      }
    }
  }
}
