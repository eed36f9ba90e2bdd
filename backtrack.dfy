/** Reconstruction of the solution: the walk from the goal entry back to the
    root, one notation line and one score per step. */
module Backtracking {
  import opened PositionTable

  /** The notation of one move group, and whether the move group is one the
      legacy (Windows XP) engine would refuse. */
  datatype Notation = Notation(text: string, legacyIllegal: bool)

  /** What backtrack collects, in goal-to-root order: the notation lines, the
      score of each parent reached, and whether any step is legacy-illegal. */
  datatype Trace = Trace(moves: seq<string>, scores: seq<Score>, warned: bool)

  /** The walk of backtrack from entry k. */
  function Backtrace<K(==), N>(
    pos: map<K, Value<N>>, parentOf: (K, N) -> K, notate: (K, N) -> Notation, k: K): (t: Trace)
    requires ParentClosed(pos, parentOf) && k in pos
    ensures |t.moves| == pos[k].depth && |t.scores| == pos[k].depth
    decreases pos[k].depth
  {
    if pos[k].depth == 0 then Trace([], [], false)
    else
      var node := pos[k].node.value;
      var note := notate(k, node);
      var p := Parent(pos, parentOf, k);
      var rest := Backtrace(pos, parentOf, notate, p);
      Trace([note.text] + rest.moves, [pos[p].score] + rest.scores, note.legacyIllegal || rest.warned)
  }

  /** The entries backtrack renders, goal first: k and its ancestors, without the root. */
  function Path<K(==), N>(pos: map<K, Value<N>>, parentOf: (K, N) -> K, k: K): (p: seq<K>)
    requires ParentClosed(pos, parentOf) && k in pos
    ensures |p| == pos[k].depth
    ensures forall i | 0 <= i < |p| :: p[i] in pos && pos[p[i]].node.Some? && pos[p[i]].depth == pos[k].depth - i
    decreases pos[k].depth
  {
    if pos[k].depth == 0 then [] else [k] + Path(pos, parentOf, Parent(pos, parentOf, k))
  }

  /** Step i of the walk records the score of the i-th ancestor. */
  lemma {:induction false} BacktraceScores<K, N>(
    pos: map<K, Value<N>>, parentOf: (K, N) -> K, notate: (K, N) -> Notation, k: K)
    requires ParentClosed(pos, parentOf) && k in pos
    ensures forall i | 0 <= i < pos[k].depth ::
      Backtrace(pos, parentOf, notate, k).scores[i] == pos[Ancestors(pos, parentOf, k)[i]].score
    decreases pos[k].depth
  {
    if pos[k].depth > 0 {
      var q := Parent(pos, parentOf, k);
      BacktraceScores(pos, parentOf, notate, q);
      var t := Backtrace(pos, parentOf, notate, k);
      var rest := Backtrace(pos, parentOf, notate, q);
      var a := Ancestors(pos, parentOf, k);
      var aq := Ancestors(pos, parentOf, q);
      assert t.scores == [pos[q].score] + rest.scores;
      assert a == [q] + aq;
      forall i | 1 <= i < |t.scores|
        ensures t.scores[i] == pos[a[i]].score
      {
        assert t.scores[i] == rest.scores[i - 1] && a[i] == aq[i - 1];
      }
    }
  }

  /** Step i of the walk renders the move group of the i-th entry of the path. */
  lemma {:induction false} BacktraceMoves<K, N>(
    pos: map<K, Value<N>>, parentOf: (K, N) -> K, notate: (K, N) -> Notation, k: K)
    requires ParentClosed(pos, parentOf) && k in pos
    ensures forall i | 0 <= i < pos[k].depth ::
      Backtrace(pos, parentOf, notate, k).moves[i]
        == notate(Path(pos, parentOf, k)[i], pos[Path(pos, parentOf, k)[i]].node.value).text
    decreases pos[k].depth
  {
    if pos[k].depth > 0 {
      var q := Parent(pos, parentOf, k);
      BacktraceMoves(pos, parentOf, notate, q);
      var t := Backtrace(pos, parentOf, notate, k);
      var rest := Backtrace(pos, parentOf, notate, q);
      var p := Path(pos, parentOf, k);
      var pq := Path(pos, parentOf, q);
      assert t.moves == [notate(k, pos[k].node.value).text] + rest.moves;
      assert p == [k] + pq;
      forall i | 1 <= i < |p|
        ensures t.moves[i] == notate(p[i], pos[p[i]].node.value).text
      {
        assert t.moves[i] == rest.moves[i - 1] && p[i] == pq[i - 1];
      }
    }
  }

  /** The move group of entry j is one the legacy engine would refuse. */
  predicate IllegalStep<K(==), N>(pos: map<K, Value<N>>, notate: (K, N) -> Notation, j: K)
    requires j in pos && pos[j].node.Some?
  {
    notate(j, pos[j].node.value).legacyIllegal
  }

  /** The legacy warning is raised exactly when some step of the walk is legacy-illegal. */
  lemma {:induction false} BacktraceWarned<K, N>(
    pos: map<K, Value<N>>, parentOf: (K, N) -> K, notate: (K, N) -> Notation, k: K)
    requires ParentClosed(pos, parentOf) && k in pos
    ensures Backtrace(pos, parentOf, notate, k).warned <==>
      exists j | j in Path(pos, parentOf, k) :: j in pos && pos[j].node.Some? && IllegalStep(pos, notate, j)
    decreases pos[k].depth
  {
    if pos[k].depth > 0 {
      var q := Parent(pos, parentOf, k);
      BacktraceWarned(pos, parentOf, notate, q);
      assert Path(pos, parentOf, k) == [k] + Path(pos, parentOf, q);
    }
  }

  /** The list in reverse order (Collections.reverse). */
  function Reverse<T>(s: seq<T>): (r: seq<T>)
    ensures |r| == |s| && forall i | 0 <= i < |s| :: r[i] == s[|s| - 1 - i]
  {
    seq(|s|, i requires 0 <= i < |s| => s[|s| - 1 - i])
  }

  /** Reversing twice gives the list back. */
  lemma ReverseReverse<T>(s: seq<T>)
    ensures Reverse(Reverse(s)) == s
  {
    assert forall i | 0 <= i < |s| :: Reverse(Reverse(s))[i] == s[i];
  }

  /** Reversal only reorders the list: the same elements, each as often. */
  lemma {:induction false} ReversePermutes<T>(s: seq<T>)
    ensures multiset(Reverse(s)) == multiset(s)
    decreases |s|
  {
    if s != [] {
      ReversePermutes(s[1..]);
      assert Reverse(s) == Reverse(s[1..]) + [s[0]];
      assert s == [s[0]] + s[1..];
    }
  }

  /** Reversing the scores of the walk gives root-to-goal order: the i-th
      score after reversal is that of the ancestor discovered at depth i, so
      the root's score comes first. */
  lemma ReversedScoresRootFirst<K, N>(
    pos: map<K, Value<N>>, parentOf: (K, N) -> K, notate: (K, N) -> Notation, k: K)
    requires ParentClosed(pos, parentOf) && k in pos
    ensures |Reverse(Backtrace(pos, parentOf, notate, k).scores)| == pos[k].depth
    ensures forall i | 0 <= i < pos[k].depth ::
      && pos[Ancestors(pos, parentOf, k)[pos[k].depth - 1 - i]].depth == i
      && Reverse(Backtrace(pos, parentOf, notate, k).scores)[i]
         == pos[Ancestors(pos, parentOf, k)[pos[k].depth - 1 - i]].score
  {
    BacktraceScores(pos, parentOf, notate, k);
  }
}
