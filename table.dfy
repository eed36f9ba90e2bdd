/** The position table of the solver: every position seen in the current deal,
    keyed by its canonical key, with the value the solver keeps for it. */
module PositionTable {

  datatype Option<T> = None | Some(value: T)

  /** A heuristic score vector. The solver reads its first two components. */
  type Score = s: seq<int> | |s| >= 2 witness [0, 0]

  /** The value of a table entry: the last depth at which it was marked live,
      the depth at which it was first discovered, the move group that led to it
      (none for the root) and its heuristic score. */
  datatype Value<N> = Value(level: int, depth: nat, node: Option<N>, score: Score)

  /** The key of the parent of entry k: rebuild k's position and undo its move group. */
  function Parent<K(==), N>(pos: map<K, Value<N>>, parentOf: (K, N) -> K, k: K): K
    requires k in pos && pos[k].node.Some?
  {
    parentOf(k, pos[k].node.value)
  }

  /** Every entry that is not a root has a move group, and its parent is in the
      table, discovered exactly one depth earlier. */
  ghost predicate ParentClosed<K, N>(pos: map<K, Value<N>>, parentOf: (K, N) -> K) {
    && (forall k | k in pos && pos[k].depth > 0 :: pos[k].node.Some?)
    && (forall k {:trigger Parent(pos, parentOf, k)} | k in pos && pos[k].depth > 0 && pos[k].node.Some? ::
          Parent(pos, parentOf, k) in pos && pos[Parent(pos, parentOf, k)].depth + 1 == pos[k].depth)
  }

  /** Every entry marked live at level d that is not a root has a parent marked at d. */
  ghost predicate MarkClosed<K, N>(pos: map<K, Value<N>>, parentOf: (K, N) -> K, d: int) {
    forall k {:trigger Parent(pos, parentOf, k)} | k in pos && pos[k].level == d && pos[k].depth > 0 && pos[k].node.Some? ::
      Parent(pos, parentOf, k) in pos && pos[Parent(pos, parentOf, k)].level == d
  }

  /** No entry is marked beyond level d. */
  ghost predicate LevelsAtMost<K, N>(pos: map<K, Value<N>>, d: int) {
    forall k | k in pos :: pos[k].level <= d
  }

  /** The keys a walk up the backward links visits from k: its parent, its
      grandparent, and so on down to a root. The walk ends, and it has exactly
      as many steps as k's discovery depth. */
  function Ancestors<K(==), N>(pos: map<K, Value<N>>, parentOf: (K, N) -> K, k: K): (a: seq<K>)
    requires ParentClosed(pos, parentOf) && k in pos
    ensures |a| == pos[k].depth
    ensures forall i | 0 <= i < |a| :: a[i] in pos && pos[a[i]].depth == pos[k].depth - 1 - i
    ensures |a| > 0 ==> a[0] == Parent(pos, parentOf, k)
    ensures forall i | 0 <= i < |a| - 1 :: pos[a[i]].node.Some? && a[i + 1] == Parent(pos, parentOf, a[i])
    decreases pos[k].depth
  {
    if pos[k].depth == 0 then []
    else [Parent(pos, parentOf, k)] + Ancestors(pos, parentOf, Parent(pos, parentOf, k))
  }

  /** Two tables that agree on the discovery depth and move group of every
      entry of the second have the same walk up the backward links from any
      entry of the second: marking and sweeping never redirect a walk. */
  lemma {:induction false} AncestorsAgree<K, N>(t: map<K, Value<N>>, t': map<K, Value<N>>, parentOf: (K, N) -> K, k: K)
    requires ParentClosed(t, parentOf) && ParentClosed(t', parentOf) && k in t'
    requires forall j | j in t' :: j in t && t'[j].depth == t[j].depth && t'[j].node == t[j].node
    ensures Ancestors(t', parentOf, k) == Ancestors(t, parentOf, k)
    decreases t'[k].depth
  {
    if t'[k].depth > 0 {
      assert Parent(t', parentOf, k) == Parent(t, parentOf, k);
      AncestorsAgree(t, t', parentOf, Parent(t', parentOf, k));
    }
  }

  /** The table after deleting every entry whose level is not d. */
  function Sweep<K(==), N>(pos: map<K, Value<N>>, d: int): (r: map<K, Value<N>>)
    ensures forall k | k in pos :: k in r <==> pos[k].level == d
    ensures forall k | k in r :: k in pos && r[k] == pos[k]
    ensures |r| <= |pos|
  {
    var r := map k | k in pos && pos[k].level == d :: pos[k];
    SubsetSize(r.Keys, pos.Keys);
    r
  }

  /** Sweeping a table whose marks are closed under parents keeps it closed
      under parents: no surviving entry loses its parent. */
  lemma SweepParentClosed<K, N>(pos: map<K, Value<N>>, parentOf: (K, N) -> K, d: int)
    requires ParentClosed(pos, parentOf) && MarkClosed(pos, parentOf, d)
    ensures ParentClosed(Sweep(pos, d), parentOf)
    ensures LevelsAtMost(Sweep(pos, d), d)
  {
    var r := Sweep(pos, d);
    forall k | k in r && r[k].depth > 0
      ensures r[k].node.Some? && Parent(r, parentOf, k) in r
      ensures r[Parent(r, parentOf, k)].depth + 1 == r[k].depth
    {
      assert Parent(r, parentOf, k) == Parent(pos, parentOf, k);
    }
  }

  /** A subset is no larger than its superset. */
  lemma {:induction false} SubsetSize<T>(a: set<T>, b: set<T>)
    requires a <= b
    ensures |a| <= |b|
    decreases a
  {
    if a != {} {
      var x :| x in a;
      SubsetSize(a - {x}, b - {x});
    }
  }
}
