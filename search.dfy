/** The beam search of one deal, as functions of the solver state: one call
    of search, the expansions of one depth, one depth cycle of pruning,
    marking, sweeping and expanding, and the depth loop up to MAXDEPTH. */
module BeamSearch {
  import opened PositionTable
  import opened Marking
  import opened Expansion
  import opened Backtracking

  /** The depth bound of the loop (MAXDEPTH). */
  const MaxDepth: nat := 55

  /** What the search needs from the card-game code, for the chosen engine
      rules: the move groups of a position after play and forced plays
      (generateNodelist2, play, autoplay, heuristic, the foundation cells),
      the key reached by undoing a move group (fromToken, undo), the notation
      of a move group (notation), the beam threshold (findMidScores), and
      whether the position a key stands for has a king on every foundation. */
  datatype Game<!K, !N> = Game(
    expand: K -> seq<Child<K, N>>,
    parentOf: (K, N) -> K,
    notate: (K, N) -> Notation,
    findMid: (seq<Score>, int) -> Score,
    solved: K -> bool)

  /** Undoing the move group of a child of k leads back to k. */
  ghost predicate UndoInverts<K(!new), N>(g: Game<K, N>) {
    forall k, i | 0 <= i < |g.expand(k)| :: g.parentOf(g.expand(k)[i].key, g.expand(k)[i].node) == k
  }

  /** The foundation cells belong to the position a key stands for: a move
      group reaches the goal exactly when its key is that of a solved position. */
  ghost predicate GoalOfKey<K(!new), N>(g: Game<K, N>) {
    forall k, i | 0 <= i < |g.expand(k)| :: IsGoal(g.expand(k)[i].homecells) == g.solved(g.expand(k)[i].key)
  }

  /** The state of the solver within one deal. */
  datatype Beam<K, N> = Beam(
    pos: map<K, Value<N>>,
    nextstack: seq<K>,
    stats: seq<Score>,
    found: bool,
    depth: nat,
    solution: seq<string>,
    solutionScores: seq<Score>,
    winxpwarn: bool)

  /** A freshly dealt or parsed start position: its key and score. */
  datatype Root<K> = Root(key: K, score: Score)

  /** The state at the start of a deal: the table holds only the root, which
      is also the whole frontier. The last backtrack's scores and legacy flag
      are carried over from the previous deal, as the source does not reset them. */
  function Start<K(==), N>(root: Root<K>, solutionScores: seq<Score>, winxpwarn: bool): Beam<K, N> {
    Beam(map[root.key := Value(0, 0, None, root.score)], [root.key], [root.score], false, 0, [], solutionScores, winxpwarn)
  }

  /** Every key of ks is in the table, discovered at depth d. */
  ghost predicate AtDepth<K, N>(pos: map<K, Value<N>>, ks: seq<K>, d: nat) {
    forall i | 0 <= i < |ks| :: ks[i] in pos && pos[ks[i]].depth == d
  }

  /** The statistics hold the score of each frontier entry, in frontier order. */
  ghost predicate StatsMatch<K, N>(pos: map<K, Value<N>>, ks: seq<K>, stats: seq<Score>) {
    |stats| == |ks| && forall i | 0 <= i < |ks| :: ks[i] in pos && stats[i] == pos[ks[i]].score
  }

  /** The state at the top of the depth loop. */
  ghost predicate CycleReady<K(!new), N>(g: Game<K, N>, b: Beam<K, N>) {
    && UndoInverts(g)
    && ParentClosed(b.pos, g.parentOf)
    && MarkClosed(b.pos, g.parentOf, b.depth)
    && LevelsAtMost(b.pos, b.depth)
    && AtDepth(b.pos, b.nextstack, b.depth)
    && StatsMatch(b.pos, b.nextstack, b.stats)
  }

  lemma StartReady<K(!new), N>(g: Game<K, N>, root: Root<K>, solutionScores: seq<Score>, winxpwarn: bool)
    requires UndoInverts(g)
    ensures CycleReady(g, Start<K, N>(root, solutionScores, winxpwarn))
  {
  }

  /** Search's handling of one played move group: a position whose key is
      not yet in the table is stored at the next depth and added to the
      frontier and the statistics; a known key changes nothing. */
  function InsertOne<K(==), N>(b: Beam<K, N>, c: Child<K, N>): Beam<K, N> {
    if c.key in b.pos then b
    else b.(pos := b.pos[c.key := Discovered(c, b.depth)], nextstack := b.nextstack + [c.key], stats := b.stats + [c.score])
  }

  /** The state after search has handled the played move groups in order. */
  function Inserted<K(==), N>(b: Beam<K, N>, played: seq<Child<K, N>>): (r: Beam<K, N>)
    ensures r == b.(pos := r.pos, nextstack := r.nextstack, stats := r.stats)
    decreases |played|
  {
    if played == [] then b else InsertOne(Inserted(b, played[..|played| - 1]), played[|played| - 1])
  }

  /** Handling the played move groups one by one inserts them first-writer-wins
      into the table and appends the new ones, in order, to the frontier and
      the statistics; nothing else changes. */
  lemma {:induction false} InsertedIs<K, N>(b: Beam<K, N>, played: seq<Child<K, N>>)
    ensures Inserted(b, played) == b.(
      pos := InsertAll(b.pos, played, b.depth),
      nextstack := b.nextstack + KeysOf(Fresh(b.pos, played, b.depth)),
      stats := b.stats + ScoresOf(Fresh(b.pos, played, b.depth)))
    decreases |played|
  {
    if played != [] {
      var init := played[..|played| - 1];
      var last := played[|played| - 1];
      InsertedIs(b, init);
      KeysScoresSnoc(Fresh(b.pos, init, b.depth), last);
    }
  }

  /** One call of search on kept entry s, expanding at the current depth. */
  function SearchStep<K(==, !new), N>(g: Game<K, N>, b: Beam<K, N>, s: K): (r: Beam<K, N>)
    requires UndoInverts(g) && ParentClosed(b.pos, g.parentOf)
    requires s in b.pos && b.pos[s].depth == b.depth
    ensures ParentClosed(r.pos, g.parentOf) && r.depth == b.depth
    ensures forall k | k in b.pos :: k in r.pos && r.pos[k] == b.pos[k]
  {
    var cs := g.expand(s);
    var played := Played(cs);
    assert forall i | 0 <= i < |played| :: played[i] == cs[i];
    InsertAllParentClosed(b.pos, g.parentOf, s, played, b.depth);
    InsertAllKeeps(b.pos, played, b.depth);
    InsertedIs(b, played);
    var r := Inserted(b, played);
    if !GoalReached(cs) then r
    else
      var t := GoalTrace(g, b.pos, played, b.depth);
      r.(found := true, solution := b.solution + t.moves, solutionScores := t.scores, winxpwarn := t.warned)
  }

  /** What backtrack collects when the last move group of played reaches the
      goal: when its key was new, the walk starts from the entry just
      inserted; when the key was already in the table, the walk starts from
      an entry that was never stored, at depth 0, and collects nothing. */
  function GoalTrace<K(==), N>(g: Game<K, N>, pos: map<K, Value<N>>, played: seq<Child<K, N>>, d: nat): (t: Trace)
    requires ParentClosed(InsertAll(pos, played, d), g.parentOf) && played != []
  {
    var goal := played[|played| - 1];
    var before := InsertAll(pos, played[..|played| - 1], d);
    if goal.key in before then Trace([], [], false)
    else Backtrace(InsertAll(pos, played, d), g.parentOf, g.notate, goal.key)
  }

  /** The loop of search over the move groups cs of s from the i-th on:
      each is handled as InsertOne does, and the first that reaches the goal
      stops the loop after recording the walk back from it, which is empty when
      its key was already in the table. */
  function Scan<K(==), N>(g: Game<K, N>, s: K, b: Beam<K, N>, cs: seq<Child<K, N>>, i: nat): Beam<K, N>
    requires ParentClosed(b.pos, g.parentOf) && s in b.pos && b.pos[s].depth == b.depth
    requires forall j | 0 <= j < |cs| :: g.parentOf(cs[j].key, cs[j].node) == s
    requires i <= |cs|
    decreases |cs| - i
  {
    if i == |cs| then b
    else
      InsertParentClosed(b.pos, g.parentOf, s, cs[i], b.depth);
      var r := InsertOne(b, cs[i]);
      assert r.pos == Insert(b.pos, cs[i], b.depth);
      if !IsGoal(cs[i].homecells) then Scan(g, s, r, cs, i + 1)
      else
        var t := if cs[i].key in b.pos then Trace([], [], false) else Backtrace(r.pos, g.parentOf, g.notate, cs[i].key);
        r.(found := true, solution := b.solution + t.moves, solutionScores := t.scores, winxpwarn := t.warned)
  }

  /** One step of the scan: the i-th move group is inserted when its key is
      new, the table stays closed under parents, and the scan continues with
      the next move group unless this one reaches the goal. */
  lemma ScanStep<K, N>(g: Game<K, N>, s: K, b: Beam<K, N>, cs: seq<Child<K, N>>, i: nat)
    requires ParentClosed(b.pos, g.parentOf) && s in b.pos && b.pos[s].depth == b.depth
    requires forall j | 0 <= j < |cs| :: g.parentOf(cs[j].key, cs[j].node) == s
    requires i < |cs|
    ensures var r := InsertOne(b, cs[i]);
      && ParentClosed(r.pos, g.parentOf) && s in r.pos && r.pos[s].depth == r.depth
      && (cs[i].key !in b.pos ==> cs[i].key in r.pos && r.pos[cs[i].key].depth == b.depth + 1)
      && (!IsGoal(cs[i].homecells) ==> Scan(g, s, b, cs, i) == Scan(g, s, r, cs, i + 1))
  {
    InsertParentClosed(b.pos, g.parentOf, s, cs[i], b.depth);
    assert InsertOne(b, cs[i]).pos == Insert(b.pos, cs[i], b.depth);
  }

  /** The last step of the scan, at a move group that reaches the goal: the
      walk back is recorded from its entry when its key was new, and nothing
      is recorded when the key was already in the table. */
  lemma ScanGoal<K, N>(g: Game<K, N>, s: K, b: Beam<K, N>, cs: seq<Child<K, N>>, i: nat)
    requires ParentClosed(b.pos, g.parentOf) && s in b.pos && b.pos[s].depth == b.depth
    requires forall j | 0 <= j < |cs| :: g.parentOf(cs[j].key, cs[j].node) == s
    requires i < |cs| && IsGoal(cs[i].homecells)
    ensures var r := InsertOne(b, cs[i]);
      && ParentClosed(r.pos, g.parentOf)
      && (cs[i].key in b.pos ==>
           Scan(g, s, b, cs, i) == r.(found := true, solutionScores := [], winxpwarn := false))
      && (cs[i].key !in b.pos ==>
           && cs[i].key in r.pos && r.pos[cs[i].key].depth == b.depth + 1
           && Scan(g, s, b, cs, i) == r.(found := true,
                solution := b.solution + Backtrace(r.pos, g.parentOf, g.notate, cs[i].key).moves,
                solutionScores := Backtrace(r.pos, g.parentOf, g.notate, cs[i].key).scores,
                winxpwarn := Backtrace(r.pos, g.parentOf, g.notate, cs[i].key).warned))
  {
    InsertParentClosed(b.pos, g.parentOf, s, cs[i], b.depth);
    assert InsertOne(b, cs[i]).pos == Insert(b.pos, cs[i], b.depth);
  }

  /** When the i-th move group of s is the first to reach the goal, search
      has played exactly the first i + 1, and the table it leaves is closed
      under parents and holds the goal entry one depth below s when its key
      was new. */
  lemma GoalInserted<K(!new), N>(g: Game<K, N>, b: Beam<K, N>, s: K, i: nat, isNew: bool)
    requires UndoInverts(g) && ParentClosed(b.pos, g.parentOf)
    requires s in b.pos && b.pos[s].depth == b.depth
    requires i < |g.expand(s)| && IsGoal(g.expand(s)[i].homecells)
    requires forall j | 0 <= j < i :: !IsGoal(g.expand(s)[j].homecells)
    requires isNew <==> g.expand(s)[i].key !in Inserted(b, g.expand(s)[..i]).pos
    ensures Played(g.expand(s)) == g.expand(s)[..i + 1]
    ensures var r := Inserted(b, g.expand(s)[..i + 1]);
      && ParentClosed(r.pos, g.parentOf)
      && (isNew ==> g.expand(s)[i].key in r.pos && r.pos[g.expand(s)[i].key].depth == b.depth + 1)
      && (isNew ==> g.expand(s)[i].key !in InsertAll(b.pos, g.expand(s)[..i], b.depth))
      && (!isNew ==> g.expand(s)[i].key in InsertAll(b.pos, g.expand(s)[..i], b.depth))
      && r.pos == InsertAll(b.pos, g.expand(s)[..i + 1], b.depth)
  {
    var cs := g.expand(s);
    var n := Processed(cs);
    assert GoalReached(cs);
    assert n == i + 1;
    assert forall j | 0 <= j < i + 1 :: cs[..i + 1][j] == cs[j];
    InsertAllParentClosed(b.pos, g.parentOf, s, cs[..i + 1], b.depth);
    InsertNext(b.pos, cs, i, b.depth);
    InsertedIs(b, cs[..i]);
    InsertedIs(b, cs[..i + 1]);
  }

  /** The search that stops at that goal: the solution grows by the walk
      from the goal entry when its key was new, and by nothing otherwise. */
  lemma GoalStep<K(!new), N>(g: Game<K, N>, b: Beam<K, N>, s: K, i: nat, isNew: bool)
    requires UndoInverts(g) && ParentClosed(b.pos, g.parentOf)
    requires s in b.pos && b.pos[s].depth == b.depth
    requires i < |g.expand(s)| && IsGoal(g.expand(s)[i].homecells)
    requires forall j | 0 <= j < i :: !IsGoal(g.expand(s)[j].homecells)
    requires isNew <==> g.expand(s)[i].key !in Inserted(b, g.expand(s)[..i]).pos
    ensures ParentClosed(Inserted(b, g.expand(s)[..i + 1]).pos, g.parentOf)
    ensures var r := Inserted(b, g.expand(s)[..i + 1]);
      && (isNew ==>
            && g.expand(s)[i].key in r.pos
            && var t := Backtrace(r.pos, g.parentOf, g.notate, g.expand(s)[i].key);
               SearchStep(g, b, s) == r.(found := true, solution := b.solution + t.moves,
                                         solutionScores := t.scores, winxpwarn := t.warned))
      && (!isNew ==> SearchStep(g, b, s) == r.(found := true, solutionScores := [], winxpwarn := false))
  {
    GoalInserted(g, b, s, i, isNew);
    var cs := g.expand(s);
    assert cs[..i + 1][..i] == cs[..i];
  }

  /** After handling the first j move groups of s, the table is still closed
      under parents and still holds s at the current depth. */
  lemma ScanPrefix<K(!new), N>(g: Game<K, N>, b: Beam<K, N>, s: K, j: nat)
    requires UndoInverts(g) && ParentClosed(b.pos, g.parentOf)
    requires s in b.pos && b.pos[s].depth == b.depth
    requires j <= |g.expand(s)|
    ensures var cur := Inserted(b, g.expand(s)[..j]);
      ParentClosed(cur.pos, g.parentOf) && s in cur.pos && cur.pos[s].depth == cur.depth
  {
    var cs := g.expand(s);
    assert forall k | 0 <= k < j :: cs[..j][k] == cs[k];
    InsertAllParentClosed(b.pos, g.parentOf, s, cs[..j], b.depth);
    InsertAllKeeps(b.pos, cs[..j], b.depth);
    InsertedIs(b, cs[..j]);
  }

  /** The loop of search that runs through every move group without reaching
      the goal ends in the state of SearchStep. */
  lemma ScanDone<K(!new), N>(g: Game<K, N>, b: Beam<K, N>, s: K, cur: Beam<K, N>)
    requires UndoInverts(g) && ParentClosed(b.pos, g.parentOf)
    requires s in b.pos && b.pos[s].depth == b.depth
    requires !GoalReached(g.expand(s)) && cur == Inserted(b, g.expand(s))
    requires ParentClosed(cur.pos, g.parentOf) && s in cur.pos && cur.pos[s].depth == cur.depth
    ensures Scan(g, s, cur, g.expand(s), |g.expand(s)|) == SearchStep(g, b, s)
  {
    assert Played(g.expand(s)) == g.expand(s);
  }

  /** The loop of search that stops at the j-th move group, the first to
      reach the goal, ends in the state of SearchStep. */
  lemma ScanAtGoal<K(!new), N>(g: Game<K, N>, b: Beam<K, N>, s: K, j: nat, cur: Beam<K, N>)
    requires UndoInverts(g) && ParentClosed(b.pos, g.parentOf)
    requires s in b.pos && b.pos[s].depth == b.depth
    requires j < |g.expand(s)| && IsGoal(g.expand(s)[j].homecells)
    requires forall k | 0 <= k < j :: !IsGoal(g.expand(s)[k].homecells)
    requires cur == Inserted(b, g.expand(s)[..j])
    requires ParentClosed(cur.pos, g.parentOf) && s in cur.pos && cur.pos[s].depth == cur.depth
    ensures Scan(g, s, cur, g.expand(s), j) == SearchStep(g, b, s)
  {
    var cs := g.expand(s);
    var isNew := cs[j].key !in cur.pos;
    GoalStep(g, b, s, j, isNew);
    GoalInserted(g, b, s, j, isNew);
    assert cs[..j + 1][..j] == cs[..j];
    ScanGoal(g, s, cur, cs, j);
  }

  /** Search as a loop: after handling the first j move groups of s without
      reaching the goal, the rest of the loop ends in the state of SearchStep. */
  lemma {:induction false} ScanIsSearchStep<K(!new), N>(g: Game<K, N>, b: Beam<K, N>, s: K, j: nat)
    requires UndoInverts(g) && ParentClosed(b.pos, g.parentOf)
    requires s in b.pos && b.pos[s].depth == b.depth
    requires j <= |g.expand(s)| && forall k | 0 <= k < j :: !IsGoal(g.expand(s)[k].homecells)
    ensures var cur := Inserted(b, g.expand(s)[..j]);
      && ParentClosed(cur.pos, g.parentOf) && s in cur.pos && cur.pos[s].depth == cur.depth
      && Scan(g, s, cur, g.expand(s), j) == SearchStep(g, b, s)
    decreases |g.expand(s)| - j
  {
    var cs := g.expand(s);
    ScanPrefix(g, b, s, j);
    var cur := Inserted(b, cs[..j]);
    if j == |cs| {
      assert cs[..j] == cs;
      ScanDone(g, b, s, cur);
    } else if IsGoal(cs[j].homecells) {
      ScanAtGoal(g, b, s, j, cur);
    } else {
      ScanIsSearchStep(g, b, s, j + 1);
      ScanStep(g, s, cur, cs, j);
      assert cs[..j + 1][..j] == cs[..j];
    }
  }

  /** The searches of one depth: each kept entry of stack in order, stopping
      as soon as a goal has been found. */
  function ExpandAll<K(==, !new), N>(g: Game<K, N>, b: Beam<K, N>, stack: seq<K>): (r: Beam<K, N>)
    requires UndoInverts(g) && ParentClosed(b.pos, g.parentOf) && AtDepth(b.pos, stack, b.depth)
    ensures ParentClosed(r.pos, g.parentOf) && r.depth == b.depth
    ensures forall k | k in b.pos :: k in r.pos && r.pos[k] == b.pos[k]
    decreases |stack|
  {
    if stack == [] then b
    else
      var init := stack[..|stack| - 1];
      assert AtDepth(b.pos, init, b.depth) by {
        assert forall i | 0 <= i < |init| :: init[i] == stack[i];
      }
      var prev := ExpandAll(g, b, init);
      if prev.found then prev else SearchStep(g, prev, stack[|stack| - 1])
  }

  /** The search of the next kept entry, as scanned move group by move group,
      extends the searches of one depth by one entry. */
  lemma ExpandNext<K(!new), N>(g: Game<K, N>, p: Beam<K, N>, stack: seq<K>, i: nat)
    requires UndoInverts(g) && ParentClosed(p.pos, g.parentOf) && AtDepth(p.pos, stack, p.depth)
    requires i < |stack| && AtDepth(p.pos, stack[..i], p.depth)
    ensures AtDepth(p.pos, stack[..i + 1], p.depth)
    ensures var cur := ExpandAll(g, p, stack[..i]);
      && ParentClosed(cur.pos, g.parentOf) && stack[i] in cur.pos && cur.pos[stack[i]].depth == cur.depth
      && (!cur.found ==> Scan(g, stack[i], cur, g.expand(stack[i]), 0) == ExpandAll(g, p, stack[..i + 1]))
  {
    assert forall j | 0 <= j < i + 1 :: stack[..i + 1][j] == stack[j];
    var cur := ExpandAll(g, p, stack[..i]);
    ScanIsSearchStep(g, cur, stack[i], 0);
    assert g.expand(stack[i])[..0] == [];
    assert stack[..i + 1][..i] == stack[..i];
  }

  /** The kept entries of one depth cycle: the frontier pruned at the threshold
      computed from its statistics. */
  function KeptStack<K(==), N>(g: Game<K, N>, maxnodes: int, b: Beam<K, N>): (stack: seq<K>)
    requires AtDepth(b.pos, b.nextstack, b.depth)
    ensures forall k | k in stack :: k in b.nextstack
    ensures AtDepth(b.pos, stack, b.depth)
  {
    assert forall k | k in b.nextstack :: k in b.pos && b.pos[k].depth == b.depth;
    Kept(b.pos, b.nextstack, g.findMid(b.stats, maxnodes))
  }

  /** The table of one depth cycle after marking the kept entries and their
      ancestors and deleting every unmarked entry; the kept entries are in it
      at the current depth. */
  function Swept<K(==, !new), N>(g: Game<K, N>, maxnodes: int, b: Beam<K, N>): (pos: map<K, Value<N>>)
    requires CycleReady(g, b)
    ensures ParentClosed(pos, g.parentOf) && LevelsAtMost(pos, b.depth)
    ensures AtDepth(pos, KeptStack(g, maxnodes, b), b.depth)
  {
    var stack := KeptStack(g, maxnodes, b);
    assert forall k | k in stack :: k in b.pos && b.pos[k].depth == b.depth;
    MarkSweepKeeps(b.pos, g.parentOf, stack, b.depth);
    Sweep(MarkAll(b.pos, g.parentOf, stack, b.depth), b.depth)
  }

  /** The state after the sweep of one depth cycle, before its searches. */
  function Pruned<K(==, !new), N>(g: Game<K, N>, maxnodes: int, b: Beam<K, N>): (r: Beam<K, N>)
    requires CycleReady(g, b)
  {
    b.(pos := Swept(g, maxnodes, b), nextstack := [], stats := [])
  }

  /** One pass of the depth loop. */
  function Cycle<K(==, !new), N>(g: Game<K, N>, maxnodes: int, b: Beam<K, N>): (r: Beam<K, N>)
    requires CycleReady(g, b)
    ensures CycleReady(g, r) && r.depth == b.depth + 1
  {
    var p := Pruned(g, maxnodes, b);
    var e := ExpandAll(g, p, KeptStack(g, maxnodes, b));
    ExpandAllExtends(g, p, KeptStack(g, maxnodes, b));
    NextReady(g, p, e);
    e.(depth := b.depth + 1)
  }

  /** A cycle is the searches of the kept entries from the pruned state,
      one depth further down. */
  lemma CycleIs<K(!new), N>(g: Game<K, N>, maxnodes: int, b: Beam<K, N>, e: Beam<K, N>)
    requires CycleReady(g, b)
    requires e == ExpandAll(g, Pruned(g, maxnodes, b), KeptStack(g, maxnodes, b))
    ensures Cycle(g, maxnodes, b) == e.(depth := b.depth + 1)
  {
  }

  /** The depth loop: cycles until a goal is found or MAXDEPTH is reached. */
  function Deal<K(==, !new), N>(g: Game<K, N>, maxnodes: int, b: Beam<K, N>): (r: Beam<K, N>)
    requires CycleReady(g, b)
    ensures CycleReady(g, r)
    ensures r.found || r.depth >= MaxDepth
    ensures b.depth <= MaxDepth ==> r.depth <= MaxDepth
    ensures b.depth <= r.depth
    decreases MaxDepth - b.depth
  {
    if b.depth >= MaxDepth || b.found then b else Deal(g, maxnodes, Cycle(g, maxnodes, b))
  }

  // ---------------------------------------------------------------------
  // What one search and one depth of searches do to the table and frontier

  /** r grows b: every old entry unchanged; every new entry unmarked and
      discovered one depth below; the frontier extended by exactly the new
      keys, each once. */
  ghost predicate Extends<K, N>(b: Beam<K, N>, r: Beam<K, N>) {
    && (forall k | k in b.pos :: k in r.pos && r.pos[k] == b.pos[k])
    && (forall k | k in r.pos && k !in b.pos :: r.pos[k].level == 0 && r.pos[k].depth == b.depth + 1)
    && |b.nextstack| <= |r.nextstack|
    && r.nextstack[..|b.nextstack|] == b.nextstack
    && (forall i | |b.nextstack| <= i < |r.nextstack| :: r.nextstack[i] in r.pos && r.nextstack[i] !in b.pos)
    && (forall i, j | |b.nextstack| <= i < j < |r.nextstack| :: r.nextstack[i] != r.nextstack[j])
    && (forall k | k in r.pos && k !in b.pos :: exists i | |b.nextstack| <= i < |r.nextstack| :: r.nextstack[i] == k)
  }

  lemma ExtendsTrans<K, N>(a: Beam<K, N>, b: Beam<K, N>, c: Beam<K, N>)
    requires Extends(a, b) && Extends(b, c) && b.depth == a.depth
    ensures Extends(a, c)
  {
    assert c.nextstack[..|a.nextstack|] == b.nextstack[..|a.nextstack|];
    forall i | |a.nextstack| <= i < |c.nextstack|
      ensures c.nextstack[i] in c.pos && c.nextstack[i] !in a.pos
    {
      if i < |b.nextstack| {
        assert c.nextstack[i] == b.nextstack[i];
      }
    }
    forall i, j | |a.nextstack| <= i < j < |c.nextstack|
      ensures c.nextstack[i] != c.nextstack[j]
    {
      if j < |b.nextstack| {
        assert c.nextstack[i] == b.nextstack[i] && c.nextstack[j] == b.nextstack[j];
      } else if i < |b.nextstack| {
        assert c.nextstack[i] == b.nextstack[i];
      }
    }
    forall k | k in c.pos && k !in a.pos
      ensures exists i | |a.nextstack| <= i < |c.nextstack| :: c.nextstack[i] == k
    {
      if k in b.pos {
        var i :| |a.nextstack| <= i < |b.nextstack| && b.nextstack[i] == k;
        assert c.nextstack[i] == k;
      }
    }
  }

  /** The state after the searches of a depth, from a swept table whose marks
      are at most the depth and an empty frontier, is ready for the next depth. */
  lemma NextReady<K(!new), N>(g: Game<K, N>, p: Beam<K, N>, e: Beam<K, N>)
    requires UndoInverts(g) && ParentClosed(e.pos, g.parentOf)
    requires LevelsAtMost(p.pos, p.depth) && p.nextstack == [] && e.depth == p.depth
    requires Extends(p, e) && StatsMatch(e.pos, e.nextstack, e.stats)
    ensures CycleReady(g, e.(depth := p.depth + 1))
  {
    var r := e.(depth := p.depth + 1);
    assert LevelsAtMost(r.pos, p.depth) by {
      forall k | k in r.pos
        ensures r.pos[k].level <= p.depth
      {
        if k in p.pos {
          assert r.pos[k] == p.pos[k];
        }
      }
    }
  }

  /** The legacy-flag and scores of the last backtrack, or a walk from a goal:
      either the goal's key was already known and nothing was collected, or
      the solution was extended by the walk from a goal entry k discovered at
      depth dk, and the scores and legacy flag are that walk's. */
  ghost predicate Backtracked<K, N>(g: Game<K, N>, r: Beam<K, N>, prior: seq<string>, dk: nat)
    requires ParentClosed(r.pos, g.parentOf)
  {
    || (r.solution == prior && r.solutionScores == [] && !r.winxpwarn)
    || exists k | k in r.pos && r.pos[k].depth == dk && GoalKey(g, r.pos, k) ::
         && r.solution == prior + Backtrace(r.pos, g.parentOf, g.notate, k).moves
         && r.solutionScores == Backtrace(r.pos, g.parentOf, g.notate, k).scores
         && r.winxpwarn == Backtrace(r.pos, g.parentOf, g.notate, k).warned
  }

  /** k is the key reached by a move group that puts a king on all four foundations. */
  ghost predicate GoalKey<K, N>(g: Game<K, N>, pos: map<K, Value<N>>, k: K) {
    exists s, i | s in pos && 0 <= i < |g.expand(s)| ::
      g.expand(s)[i].key == k && IsGoal(g.expand(s)[i].homecells)
  }

  /** Inserting the played move groups grows the state: the new positions are
      added to the frontier, each once, and nothing else is. */
  lemma InsertedGrows<K, N>(b: Beam<K, N>, played: seq<Child<K, N>>)
    ensures Extends(b, Inserted(b, played))
  {
    InsertedIs(b, played);
    FreshKeys(b.pos, played, b.depth);
    NewEntriesUnmarked(b.pos, played, b.depth);
    AppendExtends(b, Inserted(b, played), KeysOf(Fresh(b.pos, played, b.depth)));
  }

  /** A state whose table keeps every entry of b, whose new entries are
      unmarked at the next depth and are exactly the keys ks, each once, and
      whose frontier is b's followed by ks, extends b. */
  lemma AppendExtends<K, N>(b: Beam<K, N>, r: Beam<K, N>, ks: seq<K>)
    requires r.nextstack == b.nextstack + ks
    requires forall k | k in b.pos :: k in r.pos && r.pos[k] == b.pos[k]
    requires forall k | k in r.pos && k !in b.pos :: r.pos[k].level == 0 && r.pos[k].depth == b.depth + 1
    requires forall i | 0 <= i < |ks| :: ks[i] in r.pos && ks[i] !in b.pos
    requires forall i, j | 0 <= i < j < |ks| :: ks[i] != ks[j]
    requires forall k | k in r.pos && k !in b.pos :: exists i | 0 <= i < |ks| :: ks[i] == k
    ensures Extends(b, r)
  {
    var n := |b.nextstack|;
    assert r.nextstack[..n] == b.nextstack;
    assert forall i | n <= i < |r.nextstack| :: r.nextstack[i] == ks[i - n];
    forall k | k in r.pos && k !in b.pos
      ensures exists i | n <= i < |r.nextstack| :: r.nextstack[i] == k
    {
      var i :| 0 <= i < |ks| && ks[i] == k;
      assert r.nextstack[n + i] == k;
    }
  }

  /** Inserting the played move groups puts the score of each new frontier
      entry into the statistics. */
  lemma InsertedStats<K, N>(b: Beam<K, N>, played: seq<Child<K, N>>)
    requires StatsMatch(b.pos, b.nextstack, b.stats)
    ensures StatsMatch(Inserted(b, played).pos, Inserted(b, played).nextstack, Inserted(b, played).stats)
  {
    InsertedIs(b, played);
    FreshAreNew(b.pos, played, b.depth);
    InsertAllKeeps(b.pos, played, b.depth);
    AppendStats(b.pos, Inserted(b, played).pos, b.nextstack, b.stats, Fresh(b.pos, played, b.depth));
  }

  /** Appending positions held in a table that keeps every old entry keeps
      the statistics in step with the frontier. */
  lemma AppendStats<K, N>(pos: map<K, Value<N>>, pos': map<K, Value<N>>, ks: seq<K>, stats: seq<Score>, added: seq<Child<K, N>>)
    requires StatsMatch(pos, ks, stats)
    requires forall k | k in pos :: k in pos' && pos'[k] == pos[k]
    requires forall i | 0 <= i < |added| :: added[i].key in pos' && pos'[added[i].key].score == added[i].score
    ensures StatsMatch(pos', ks + KeysOf(added), stats + ScoresOf(added))
  {
    var n := |ks|;
    forall i | 0 <= i < n + |added|
      ensures (ks + KeysOf(added))[i] in pos' && (stats + ScoresOf(added))[i] == pos'[(ks + KeysOf(added))[i]].score
    {
      if i >= n {
        assert (ks + KeysOf(added))[i] == added[i - n].key && (stats + ScoresOf(added))[i] == added[i - n].score;
      } else {
        assert (ks + KeysOf(added))[i] == ks[i] && (stats + ScoresOf(added))[i] == stats[i];
      }
    }
  }

  /** One search inserts the new positions among the played move groups and
      adds exactly them to the frontier, each once, with their scores. */
  lemma SearchStepGrows<K(!new), N>(g: Game<K, N>, b: Beam<K, N>, s: K)
    requires UndoInverts(g) && ParentClosed(b.pos, g.parentOf)
    requires s in b.pos && b.pos[s].depth == b.depth
    ensures Extends(b, SearchStep(g, b, s))
    ensures StatsMatch(b.pos, b.nextstack, b.stats) ==>
      StatsMatch(SearchStep(g, b, s).pos, SearchStep(g, b, s).nextstack, SearchStep(g, b, s).stats)
  {
    var played := Played(g.expand(s));
    var i := Inserted(b, played);
    InsertedIs(b, played);
    var r := SearchStep(g, b, s);
    assert r.pos == i.pos && r.nextstack == i.nextstack && r.stats == i.stats && r.depth == i.depth;
    InsertedGrows(b, played);
    if StatsMatch(b.pos, b.nextstack, b.stats) {
      InsertedStats(b, played);
    }
  }

  /** One search sets found exactly when some move group of s reaches the
      goal, and without a goal it leaves the solution untouched. */
  lemma SearchStepFound<K(!new), N>(g: Game<K, N>, b: Beam<K, N>, s: K)
    requires UndoInverts(g) && ParentClosed(b.pos, g.parentOf)
    requires s in b.pos && b.pos[s].depth == b.depth
    ensures SearchStep(g, b, s).found == (b.found || GoalReached(g.expand(s)))
    ensures !GoalReached(g.expand(s)) ==>
      && SearchStep(g, b, s).solution == b.solution
      && SearchStep(g, b, s).solutionScores == b.solutionScores
      && SearchStep(g, b, s).winxpwarn == b.winxpwarn
  {
  }

  /** A search that reaches the goal stops at the first move group i that
      does. When the key of move group i was already in the table, or was
      inserted by an earlier move group, nothing is recorded and the scores
      and legacy flag are reset; otherwise move group i's entry is stored one
      depth below and the walk back from it is recorded, and it is a goal
      entry. */
  lemma SearchStepBacktracked<K(!new), N>(g: Game<K, N>, b: Beam<K, N>, s: K)
    requires UndoInverts(g) && ParentClosed(b.pos, g.parentOf)
    requires s in b.pos && b.pos[s].depth == b.depth
    ensures GoalReached(g.expand(s)) ==> Backtracked(g, SearchStep(g, b, s), b.solution, b.depth + 1)
    ensures GoalReached(g.expand(s)) ==>
      var i := Processed(g.expand(s)) - 1;
      var r := SearchStep(g, b, s);
      && 0 <= i < |g.expand(s)| && IsGoal(g.expand(s)[i].homecells)
      && (g.expand(s)[i].key in InsertAll(b.pos, g.expand(s)[..i], b.depth) ==>
            r.solution == b.solution && r.solutionScores == [] && !r.winxpwarn)
      && (g.expand(s)[i].key !in InsertAll(b.pos, g.expand(s)[..i], b.depth) ==>
            && g.expand(s)[i].key in r.pos && r.pos[g.expand(s)[i].key].depth == b.depth + 1
            && r.solution == b.solution + Backtrace(r.pos, g.parentOf, g.notate, g.expand(s)[i].key).moves
            && r.solutionScores == Backtrace(r.pos, g.parentOf, g.notate, g.expand(s)[i].key).scores
            && r.winxpwarn == Backtrace(r.pos, g.parentOf, g.notate, g.expand(s)[i].key).warned)
  {
    SearchStepRecords(g, b, s);
    var cs := g.expand(s);
    if GoalReached(cs) {
      var i := Processed(cs) - 1;
      var r := SearchStep(g, b, s);
      if cs[i].key !in InsertAll(b.pos, cs[..i], b.depth) {
        assert s in r.pos && GoalKey(g, r.pos, cs[i].key);
      }
    }
  }

  /** The two outcomes of a search that reaches the goal, as SearchStep
      computes them from GoalTrace. */
  lemma SearchStepRecords<K(!new), N>(g: Game<K, N>, b: Beam<K, N>, s: K)
    requires UndoInverts(g) && ParentClosed(b.pos, g.parentOf)
    requires s in b.pos && b.pos[s].depth == b.depth
    ensures GoalReached(g.expand(s)) ==>
      var i := Processed(g.expand(s)) - 1;
      var r := SearchStep(g, b, s);
      && 0 <= i < |g.expand(s)| && IsGoal(g.expand(s)[i].homecells)
      && (g.expand(s)[i].key in InsertAll(b.pos, g.expand(s)[..i], b.depth) ==>
            r.solution == b.solution && r.solutionScores == [] && !r.winxpwarn)
      && (g.expand(s)[i].key !in InsertAll(b.pos, g.expand(s)[..i], b.depth) ==>
            && g.expand(s)[i].key in r.pos && r.pos[g.expand(s)[i].key].depth == b.depth + 1
            && r.solution == b.solution + Backtrace(r.pos, g.parentOf, g.notate, g.expand(s)[i].key).moves
            && r.solutionScores == Backtrace(r.pos, g.parentOf, g.notate, g.expand(s)[i].key).scores
            && r.winxpwarn == Backtrace(r.pos, g.parentOf, g.notate, g.expand(s)[i].key).warned)
  {
    var cs := g.expand(s);
    var played := Played(cs);
    var d := b.depth;
    if GoalReached(cs) {
      var m := |played|;
      var goal := played[m - 1];
      assert goal == cs[m - 1];
      assert played[..m - 1] == cs[..m - 1];
      var before := InsertAll(b.pos, played[..m - 1], d);
      InsertedIs(b, played);
      assert SearchStep(g, b, s).pos == InsertAll(b.pos, played, d);
      if goal.key !in before {
        assert InsertAll(b.pos, played, d) == before[goal.key := Discovered(goal, d)];
      }
    }
  }

  /** The searches of one depth grow the state like a single search, stop at
      the first goal, and leave the solution untouched unless a goal is found. */
  lemma {:induction false} ExpandAllExtends<K(!new), N>(g: Game<K, N>, b: Beam<K, N>, stack: seq<K>)
    requires UndoInverts(g) && ParentClosed(b.pos, g.parentOf) && AtDepth(b.pos, stack, b.depth)
    ensures Extends(b, ExpandAll(g, b, stack))
    ensures StatsMatch(b.pos, b.nextstack, b.stats) ==>
      StatsMatch(ExpandAll(g, b, stack).pos, ExpandAll(g, b, stack).nextstack, ExpandAll(g, b, stack).stats)
    ensures !ExpandAll(g, b, stack).found ==>
      && ExpandAll(g, b, stack).solution == b.solution
      && ExpandAll(g, b, stack).solutionScores == b.solutionScores
      && ExpandAll(g, b, stack).winxpwarn == b.winxpwarn
    ensures ExpandAll(g, b, stack).found && !b.found ==>
      Backtracked(g, ExpandAll(g, b, stack), b.solution, b.depth + 1)
    decreases |stack|
  {
    if stack != [] {
      var init := stack[..|stack| - 1];
      assert forall i | 0 <= i < |init| :: init[i] == stack[i];
      ExpandAllExtends(g, b, init);
      var prev := ExpandAll(g, b, init);
      if !prev.found {
        var s := stack[|stack| - 1];
        SearchStepGrows(g, prev, s);
        SearchStepFound(g, prev, s);
        SearchStepBacktracked(g, prev, s);
        ExtendsTrans(b, prev, ExpandAll(g, b, stack));
      }
    }
  }

  // ---------------------------------------------------------------------
  // Early stop

  /** Once a goal is found, the remaining kept entries are not expanded. */
  lemma {:induction false} ExpandAllStops<K(!new), N>(g: Game<K, N>, b: Beam<K, N>, stack: seq<K>, i: nat)
    requires UndoInverts(g) && ParentClosed(b.pos, g.parentOf) && AtDepth(b.pos, stack, b.depth)
    requires i <= |stack|
    requires AtDepth(b.pos, stack[..i], b.depth)
    requires ExpandAll(g, b, stack[..i]).found
    ensures ExpandAll(g, b, stack) == ExpandAll(g, b, stack[..i])
    decreases |stack|
  {
    if i < |stack| {
      var init := stack[..|stack| - 1];
      assert init[..i] == stack[..i];
      assert AtDepth(b.pos, init, b.depth) by {
        assert forall j | 0 <= j < |init| :: init[j] == stack[j];
      }
      ExpandAllStops(g, b, init, i);
    } else {
      assert stack[..i] == stack;
    }
  }

  /** A kept entry with a move group that reaches the goal makes the searches
      of its depth find one. */
  lemma {:induction false} ExpandAllFindsGoal<K(!new), N>(g: Game<K, N>, b: Beam<K, N>, stack: seq<K>, i: nat)
    requires UndoInverts(g) && ParentClosed(b.pos, g.parentOf) && AtDepth(b.pos, stack, b.depth)
    requires i < |stack| && GoalReached(g.expand(stack[i]))
    ensures ExpandAll(g, b, stack).found
    decreases |stack|
  {
    var init := stack[..|stack| - 1];
    assert forall j | 0 <= j < |init| :: init[j] == stack[j];
    var prev := ExpandAll(g, b, init);
    if i < |stack| - 1 {
      assert init[i] == stack[i];
      ExpandAllFindsGoal(g, b, init, i);
    } else if !prev.found {
      SearchStepFound(g, prev, stack[|stack| - 1]);
    }
  }

  /** The searches of one depth find a goal only when one of the kept entries
      has a move group that reaches it. */
  lemma {:induction false} ExpandAllGoalFrom<K(!new), N>(g: Game<K, N>, b: Beam<K, N>, stack: seq<K>)
    requires UndoInverts(g) && ParentClosed(b.pos, g.parentOf) && AtDepth(b.pos, stack, b.depth)
    requires !b.found && ExpandAll(g, b, stack).found
    ensures exists i | 0 <= i < |stack| :: GoalReached(g.expand(stack[i]))
    decreases |stack|
  {
    var init := stack[..|stack| - 1];
    assert forall j | 0 <= j < |init| :: init[j] == stack[j];
    var prev := ExpandAll(g, b, init);
    if prev.found {
      ExpandAllGoalFrom(g, b, init);
      var i :| 0 <= i < |init| && GoalReached(g.expand(init[i]));
      assert stack[i] == init[i];
    } else {
      SearchStepFound(g, prev, stack[|stack| - 1]);
    }
  }

  // ---------------------------------------------------------------------
  // One depth cycle

  /** After a cycle the frontier is the set of positions discovered in it,
      each once, at the new depth and not yet marked; and the table holds
      nothing else besides the entries kept by the sweep. */
  lemma CycleFrontier<K(!new), N>(g: Game<K, N>, maxnodes: int, b: Beam<K, N>)
    requires CycleReady(g, b)
    ensures var r := Cycle(g, maxnodes, b);
      && (forall i, j | 0 <= i < j < |r.nextstack| :: r.nextstack[i] != r.nextstack[j])
      && (forall i | 0 <= i < |r.nextstack| ::
            r.nextstack[i] in r.pos && r.nextstack[i] !in Swept(g, maxnodes, b)
            && r.pos[r.nextstack[i]].depth == r.depth && r.pos[r.nextstack[i]].level == 0)
      && (forall k | k in r.pos :: k in Swept(g, maxnodes, b) || k in r.nextstack)
  {
    var p := Pruned(g, maxnodes, b);
    ExpandAllExtends(g, p, KeptStack(g, maxnodes, b));
  }

  /** An entry of the frontier survives a cycle when it is competitive on one
      of the first two score components. */
  lemma CycleKeepsCompetitive<K(!new), N>(g: Game<K, N>, maxnodes: int, b: Beam<K, N>, k: K)
    requires CycleReady(g, b) && k in b.nextstack
    requires var mid := g.findMid(b.stats, maxnodes);
      b.pos[k].score[0] <= mid[0] || b.pos[k].score[1] <= mid[1]
    ensures k in Swept(g, maxnodes, b) && k in Cycle(g, maxnodes, b).pos
  {
    assert forall j | j in b.nextstack :: j in b.pos;
    KeptIff(b.pos, b.nextstack, g.findMid(b.stats, maxnodes), k);
    var p := Pruned(g, maxnodes, b);
    ExpandAllExtends(g, p, KeptStack(g, maxnodes, b));
  }

  /** Every entry that survives the sweep is marked at the current depth; the
      table never grows in the sweep. */
  lemma SweptMarked<K(!new), N>(g: Game<K, N>, maxnodes: int, b: Beam<K, N>)
    requires CycleReady(g, b)
    ensures forall k | k in Swept(g, maxnodes, b) :: k in b.pos && Swept(g, maxnodes, b)[k].level == b.depth
    ensures |Swept(g, maxnodes, b)| <= |b.pos|
  {
  }

  /** A cycle from a state with no goal leaves the solution untouched unless
      it finds a goal, and then it has recorded the walk from a goal entry at
      the new depth. */
  lemma CycleBacktracked<K(!new), N>(g: Game<K, N>, maxnodes: int, b: Beam<K, N>)
    requires CycleReady(g, b) && !b.found
    ensures var r := Cycle(g, maxnodes, b);
      && (!r.found ==> r.solution == b.solution && r.solutionScores == b.solutionScores && r.winxpwarn == b.winxpwarn)
      && (r.found ==> Backtracked(g, r, b.solution, r.depth))
  {
    CycleExpands(g, maxnodes, b);
  }

  /** The same, for the searches of the cycle before the depth counter moves on. */
  lemma CycleExpands<K(!new), N>(g: Game<K, N>, maxnodes: int, b: Beam<K, N>)
    requires CycleReady(g, b) && !b.found
    ensures var e := ExpandAll(g, Pruned(g, maxnodes, b), KeptStack(g, maxnodes, b));
      && Cycle(g, maxnodes, b) == e.(depth := b.depth + 1)
      && (!e.found ==> e.solution == b.solution && e.solutionScores == b.solutionScores && e.winxpwarn == b.winxpwarn)
      && (e.found ==> Backtracked(g, e, b.solution, b.depth + 1))
  {
    var p := Pruned(g, maxnodes, b);
    ExpandAllSolution(g, p, KeptStack(g, maxnodes, b));
  }

  /** The searches of one depth leave the solution untouched unless a goal is
      found, and then they have recorded the walk from a goal entry. */
  lemma ExpandAllSolution<K(!new), N>(g: Game<K, N>, b: Beam<K, N>, stack: seq<K>)
    requires UndoInverts(g) && ParentClosed(b.pos, g.parentOf) && AtDepth(b.pos, stack, b.depth)
    ensures var e := ExpandAll(g, b, stack);
      && (!e.found ==> e.solution == b.solution && e.solutionScores == b.solutionScores && e.winxpwarn == b.winxpwarn)
      && (e.found && !b.found ==> Backtracked(g, e, b.solution, b.depth + 1))
  {
    ExpandAllExtends(g, b, stack);
  }

  // ---------------------------------------------------------------------
  // One deal

  /** The loop from a state with no goal leaves the solution untouched
      unless it finds a goal; then the solution is the walk from a goal entry
      discovered at the final depth. */
  lemma {:induction false} DealBacktracked<K(!new), N>(g: Game<K, N>, maxnodes: int, b: Beam<K, N>)
    requires CycleReady(g, b) && !b.found
    ensures var r := Deal(g, maxnodes, b);
      && (!r.found ==> r.solution == b.solution)
      && (r.found ==> Backtracked(g, r, b.solution, r.depth))
    decreases MaxDepth - b.depth
  {
    if b.depth < MaxDepth {
      var c := Cycle(g, maxnodes, b);
      CycleBacktracked(g, maxnodes, b);
      if !c.found {
        DealBacktracked(g, maxnodes, c);
      }
    }
  }

  /** A deal publishes a solution only after finding a goal; the solution
      then has one line per depth reached, and it is the walk back from a
      goal entry: the notation of each entry's move group, goal first, with
      the score of each parent reached and the legacy flag set exactly when
      some move group on the walk is one the legacy engine refuses. */
  lemma DealSolution<K(!new), N>(g: Game<K, N>, maxnodes: int, root: Root<K>, solutionScores: seq<Score>, winxpwarn: bool)
    requires UndoInverts(g)
    ensures var r := Deal(g, maxnodes, Start<K, N>(root, solutionScores, winxpwarn));
      |r.solution| > 0 ==>
        && r.found && r.depth <= MaxDepth
        && |r.solution| == r.depth && |r.solutionScores| == r.depth
        && exists k | k in r.pos && r.pos[k].depth == r.depth && GoalKey(g, r.pos, k) ::
             && r.solution == Backtrace(r.pos, g.parentOf, g.notate, k).moves
             && r.solutionScores == Backtrace(r.pos, g.parentOf, g.notate, k).scores
             && (r.winxpwarn <==> exists j | j in Path(r.pos, g.parentOf, k) ::
                   j in r.pos && r.pos[j].node.Some? && IllegalStep(r.pos, g.notate, j))
  {
    StartReady<K, N>(g, root, solutionScores, winxpwarn);
    var b := Start<K, N>(root, solutionScores, winxpwarn);
    DealBacktracked(g, maxnodes, b);
    var r := Deal(g, maxnodes, b);
    if |r.solution| > 0 {
      var k :| k in r.pos && r.pos[k].depth == r.depth && GoalKey(g, r.pos, k)
        && r.solution == [] + Backtrace(r.pos, g.parentOf, g.notate, k).moves
        && r.solutionScores == Backtrace(r.pos, g.parentOf, g.notate, k).scores
        && r.winxpwarn == Backtrace(r.pos, g.parentOf, g.notate, k).warned;
      assert r.solution == Backtrace(r.pos, g.parentOf, g.notate, k).moves;
      BacktraceWarned(r.pos, g.parentOf, g.notate, k);
    }
  }

  // ---------------------------------------------------------------------
  // When the foundations belong to the key, a goal found is a solution

  /** No entry of the table other than the root stands for a solved position. */
  ghost predicate Unsolved<K, N>(g: Game<K, N>, pos: map<K, Value<N>>, root: K) {
    forall k | k in pos && k != root :: !g.solved(k)
  }

  /** The solution is prior followed by the walk back from the entry of a
      solved position discovered at depth dk, and the scores and legacy flag
      are that walk's. */
  ghost predicate Walked<K, N>(g: Game<K, N>, r: Beam<K, N>, prior: seq<string>, dk: nat)
    requires ParentClosed(r.pos, g.parentOf)
  {
    exists k | k in r.pos && r.pos[k].depth == dk && g.solved(k) ::
      && r.solution == prior + Backtrace(r.pos, g.parentOf, g.notate, k).moves
      && r.solutionScores == Backtrace(r.pos, g.parentOf, g.notate, k).scores
      && r.winxpwarn == Backtrace(r.pos, g.parentOf, g.notate, k).warned
  }

  /** A search that reaches no goal inserts only unsolved positions. */
  lemma SearchStepStaysUnsolved<K(!new), N>(g: Game<K, N>, b: Beam<K, N>, s: K, root: K)
    requires UndoInverts(g) && GoalOfKey(g) && ParentClosed(b.pos, g.parentOf)
    requires s in b.pos && b.pos[s].depth == b.depth
    requires Unsolved(g, b.pos, root)
    ensures !GoalReached(g.expand(s)) ==> Unsolved(g, SearchStep(g, b, s).pos, root)
  {
    var cs := g.expand(s);
    if !GoalReached(cs) {
      assert Played(cs) == cs;
      InsertedIs(b, cs);
      InsertAllFirstWriterWins(b.pos, cs, b.depth);
      forall k | k in SearchStep(g, b, s).pos && k != root
        ensures !g.solved(k)
      {
        if k !in b.pos {
          var i :| 0 <= i < |cs| && cs[i].key == k;
          assert !IsGoal(cs[i].homecells);
        }
      }
    }
  }

  /** A search that reaches the goal, from a table whose only possibly solved
      entry is an unsolved root, reaches it at a key new to the table: the
      first goal move group's key is solved, every earlier move group's key
      is not. So it records the walk from that new entry. */
  lemma SearchStepSolves<K(!new), N>(g: Game<K, N>, b: Beam<K, N>, s: K, root: K)
    requires UndoInverts(g) && GoalOfKey(g) && ParentClosed(b.pos, g.parentOf)
    requires s in b.pos && b.pos[s].depth == b.depth
    requires Unsolved(g, b.pos, root)
    ensures GoalReached(g.expand(s)) && !g.solved(root) ==>
      Walked(g, SearchStep(g, b, s), b.solution, b.depth + 1)
  {
    var cs := g.expand(s);
    if GoalReached(cs) && !g.solved(root) {
      SearchStepRecords(g, b, s);
      var i := Processed(cs) - 1;
      var c := cs[i];
      assert g.solved(c.key);
      InsertAllFirstWriterWins(b.pos, cs[..i], b.depth);
      assert c.key !in InsertAll(b.pos, cs[..i], b.depth);
    }
  }

  /** The searches of one depth, before any goal, keep every entry but the
      root unsolved unless they find a goal, and a goal they find other than
      the root is recorded by its walk. */
  lemma {:induction false} ExpandAllSolves<K(!new), N>(g: Game<K, N>, b: Beam<K, N>, stack: seq<K>, root: K)
    requires UndoInverts(g) && GoalOfKey(g) && ParentClosed(b.pos, g.parentOf) && AtDepth(b.pos, stack, b.depth)
    requires Unsolved(g, b.pos, root) && !b.found
    ensures !ExpandAll(g, b, stack).found ==> Unsolved(g, ExpandAll(g, b, stack).pos, root)
    ensures ExpandAll(g, b, stack).found && !g.solved(root) ==>
      Walked(g, ExpandAll(g, b, stack), b.solution, b.depth + 1)
    decreases |stack|
  {
    if stack != [] {
      var init := stack[..|stack| - 1];
      assert AtDepth(b.pos, init, b.depth) by {
        assert forall i | 0 <= i < |init| :: init[i] == stack[i];
      }
      ExpandAllSolves(g, b, init, root);
      ExpandAllExtends(g, b, init);
      var prev := ExpandAll(g, b, init);
      if !prev.found {
        var s := stack[|stack| - 1];
        assert s in b.pos;
        SearchStepFound(g, prev, s);
        SearchStepStaysUnsolved(g, prev, s, root);
        SearchStepSolves(g, prev, s, root);
      }
    }
  }

  /** A cycle keeps the table unsolved but for the root unless it finds a
      goal, and a goal it finds other than the root is recorded by its walk
      from the new depth. */
  lemma CycleSolves<K(!new), N>(g: Game<K, N>, maxnodes: int, b: Beam<K, N>, root: K)
    requires CycleReady(g, b) && GoalOfKey(g) && Unsolved(g, b.pos, root) && !b.found
    ensures !Cycle(g, maxnodes, b).found ==> Unsolved(g, Cycle(g, maxnodes, b).pos, root)
    ensures Cycle(g, maxnodes, b).found && !g.solved(root) ==>
      Walked(g, Cycle(g, maxnodes, b), b.solution, b.depth + 1)
  {
    ExpandedSolves(g, maxnodes, b, root);
    var e := ExpandAll(g, Pruned(g, maxnodes, b), KeptStack(g, maxnodes, b));
    CycleIs(g, maxnodes, b, e);
    if e.found && !g.solved(root) {
      WalkedAnyDepth(g, e, b.solution, b.depth + 1, b.depth + 1);
    }
  }

  /** The same, for the searches of the cycle before the depth counter moves on. */
  lemma ExpandedSolves<K(!new), N>(g: Game<K, N>, maxnodes: int, b: Beam<K, N>, root: K)
    requires CycleReady(g, b) && GoalOfKey(g) && Unsolved(g, b.pos, root) && !b.found
    ensures !ExpandAll(g, Pruned(g, maxnodes, b), KeptStack(g, maxnodes, b)).found ==>
      Unsolved(g, ExpandAll(g, Pruned(g, maxnodes, b), KeptStack(g, maxnodes, b)).pos, root)
    ensures ExpandAll(g, Pruned(g, maxnodes, b), KeptStack(g, maxnodes, b)).found && !g.solved(root) ==>
      Walked(g, ExpandAll(g, Pruned(g, maxnodes, b), KeptStack(g, maxnodes, b)), b.solution, b.depth + 1)
  {
    PrunedUnsolved(g, maxnodes, b, root);
    ExpandAllSolves(g, Pruned(g, maxnodes, b), KeptStack(g, maxnodes, b), root);
  }

  /** The sweep only deletes entries, so it keeps the table unsolved but for the root. */
  lemma PrunedUnsolved<K(!new), N>(g: Game<K, N>, maxnodes: int, b: Beam<K, N>, root: K)
    requires CycleReady(g, b) && Unsolved(g, b.pos, root)
    ensures Unsolved(g, Pruned(g, maxnodes, b).pos, root)
  {
    SweptMarked(g, maxnodes, b);
  }

  /** Whether the solution is a walk does not depend on the depth counter. */
  lemma WalkedAnyDepth<K, N>(g: Game<K, N>, e: Beam<K, N>, prior: seq<string>, dk: nat, depth: nat)
    requires ParentClosed(e.pos, g.parentOf) && Walked(g, e, prior, dk)
    ensures Walked(g, e.(depth := depth), prior, dk)
  {
    var k :| k in e.pos && e.pos[k].depth == dk && g.solved(k)
      && e.solution == prior + Backtrace(e.pos, g.parentOf, g.notate, k).moves
      && e.solutionScores == Backtrace(e.pos, g.parentOf, g.notate, k).scores
      && e.winxpwarn == Backtrace(e.pos, g.parentOf, g.notate, k).warned;
    assert e.(depth := depth).pos == e.pos;
  }

  /** The depth loop from an unsolved table: a goal found is found at a depth
      below the start, and when the root is unsolved the solution is the walk
      back from a solved entry discovered at the final depth. */
  lemma {:induction false} DealSolves<K(!new), N>(g: Game<K, N>, maxnodes: int, b: Beam<K, N>, root: K)
    requires CycleReady(g, b) && GoalOfKey(g) && Unsolved(g, b.pos, root) && !b.found
    ensures Deal(g, maxnodes, b).found ==> b.depth < Deal(g, maxnodes, b).depth
    ensures Deal(g, maxnodes, b).found && !g.solved(root) ==>
      Walked(g, Deal(g, maxnodes, b), b.solution, Deal(g, maxnodes, b).depth)
    decreases MaxDepth - b.depth
  {
    if b.depth < MaxDepth {
      var c := Cycle(g, maxnodes, b);
      CycleSolves(g, maxnodes, b, root);
      CycleBacktracked(g, maxnodes, b);
      if !c.found {
        DealSolves(g, maxnodes, c, root);
      }
    }
  }

  /** For a deal whose start position is not already solved, when the
      foundations belong to the key: a goal is found exactly when a solution
      is recorded, and then the solution has one line per depth reached and
      is the walk back from a solved entry at that depth. */
  lemma DealFindsSolution<K(!new), N>(g: Game<K, N>, maxnodes: int, root: Root<K>, solutionScores: seq<Score>, winxpwarn: bool)
    requires UndoInverts(g) && GoalOfKey(g) && !g.solved(root.key)
    ensures var r := Deal(g, maxnodes, Start<K, N>(root, solutionScores, winxpwarn));
      && (r.found <==> |r.solution| > 0)
      && (r.found ==> 0 < r.depth <= MaxDepth && |r.solution| == r.depth && |r.solutionScores| == r.depth)
      && (r.found ==> Walked(g, r, [], r.depth))
  {
    StartReady<K, N>(g, root, solutionScores, winxpwarn);
    var b := Start<K, N>(root, solutionScores, winxpwarn);
    DealSolves(g, maxnodes, b, root.key);
    DealSolution(g, maxnodes, root, solutionScores, winxpwarn);
    var r := Deal(g, maxnodes, b);
    if r.found {
      var k :| k in r.pos && r.pos[k].depth == r.depth && g.solved(k)
        && r.solution == [] + Backtrace(r.pos, g.parentOf, g.notate, k).moves
        && r.solutionScores == Backtrace(r.pos, g.parentOf, g.notate, k).scores
        && r.winxpwarn == Backtrace(r.pos, g.parentOf, g.notate, k).warned;
      assert r.solution == Backtrace(r.pos, g.parentOf, g.notate, k).moves;
    }
  }

  // ---------------------------------------------------------------------
  // Stale backtrack results do not leak into a later deal

  /** The state without the last backtrack's scores and legacy flag. */
  function Clean<K, N>(b: Beam<K, N>): Beam<K, N> {
    b.(solutionScores := [], winxpwarn := false)
  }

  /** Two states that differ at most in stale backtrack results, and only
      while no goal has been found. */
  ghost predicate Agree<K, N>(x: Beam<K, N>, y: Beam<K, N>) {
    Clean(x) == Clean(y) && (x.found ==> x == y)
  }

  lemma AgreeSearchStep<K(!new), N>(g: Game<K, N>, x: Beam<K, N>, y: Beam<K, N>, s: K)
    requires UndoInverts(g) && ParentClosed(x.pos, g.parentOf)
    requires s in x.pos && x.pos[s].depth == x.depth
    requires Agree(x, y)
    ensures Agree(SearchStep(g, x, s), SearchStep(g, y, s))
  {
    assert x.pos == y.pos && x.depth == y.depth;
    InsertedIs(x, Played(g.expand(s)));
    InsertedIs(y, Played(g.expand(s)));
  }

  lemma {:induction false} AgreeExpandAll<K(!new), N>(g: Game<K, N>, x: Beam<K, N>, y: Beam<K, N>, stack: seq<K>)
    requires UndoInverts(g) && ParentClosed(x.pos, g.parentOf) && AtDepth(x.pos, stack, x.depth)
    requires Agree(x, y)
    ensures ParentClosed(y.pos, g.parentOf) && AtDepth(y.pos, stack, y.depth)
    ensures Agree(ExpandAll(g, x, stack), ExpandAll(g, y, stack))
    decreases |stack|
  {
    assert x.pos == y.pos && x.depth == y.depth;
    if stack != [] {
      var init := stack[..|stack| - 1];
      assert forall i | 0 <= i < |init| :: init[i] == stack[i];
      AgreeExpandAll(g, x, y, init);
      var px := ExpandAll(g, x, init);
      var py := ExpandAll(g, y, init);
      if !px.found {
        AgreeSearchStep(g, px, py, stack[|stack| - 1]);
      }
    }
  }

  lemma AgreeCycle<K(!new), N>(g: Game<K, N>, maxnodes: int, x: Beam<K, N>, y: Beam<K, N>)
    requires CycleReady(g, x) && Agree(x, y)
    ensures CycleReady(g, y)
    ensures Agree(Cycle(g, maxnodes, x), Cycle(g, maxnodes, y))
  {
    assert x.pos == y.pos && x.depth == y.depth && x.nextstack == y.nextstack && x.stats == y.stats;
    assert KeptStack(g, maxnodes, x) == KeptStack(g, maxnodes, y);
    assert Swept(g, maxnodes, x) == Swept(g, maxnodes, y);
    AgreeExpandAll(g, Pruned(g, maxnodes, x), Pruned(g, maxnodes, y), KeptStack(g, maxnodes, x));
  }

  lemma {:induction false} AgreeDeal<K(!new), N>(g: Game<K, N>, maxnodes: int, x: Beam<K, N>, y: Beam<K, N>)
    requires CycleReady(g, x) && Agree(x, y)
    ensures CycleReady(g, y)
    ensures Agree(Deal(g, maxnodes, x), Deal(g, maxnodes, y))
    decreases MaxDepth - x.depth
  {
    AgreeCycle(g, maxnodes, x, y);
    if x.depth < MaxDepth && !x.found {
      AgreeDeal(g, maxnodes, Cycle(g, maxnodes, x), Cycle(g, maxnodes, y));
    }
  }

  /** The scores and legacy flag left over from an earlier deal never reach a
      published solution: whenever a deal ends with a solution, it ends in the
      same state as a deal started with none. */
  lemma DealIgnoresStale<K(!new), N>(g: Game<K, N>, maxnodes: int, root: Root<K>, solutionScores: seq<Score>, winxpwarn: bool)
    requires UndoInverts(g)
    ensures Deal(g, maxnodes, Start<K, N>(root, solutionScores, winxpwarn)).solution
      == Deal(g, maxnodes, Start<K, N>(root, [], false)).solution
    ensures
      |Deal(g, maxnodes, Start<K, N>(root, solutionScores, winxpwarn)).solution| > 0 ==>
        Deal(g, maxnodes, Start<K, N>(root, solutionScores, winxpwarn)) == Deal(g, maxnodes, Start<K, N>(root, [], false))
  {
    StartReady<K, N>(g, root, solutionScores, winxpwarn);
    StartReady<K, N>(g, root, [], false);
    var x := Start<K, N>(root, solutionScores, winxpwarn);
    var y := Start<K, N>(root, [], false);
    AgreeDeal(g, maxnodes, x, y);
    DealSolution(g, maxnodes, root, solutionScores, winxpwarn);
  }
}
