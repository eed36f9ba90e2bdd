/** The solver object: its run loop over a block of deals, and the depth
    loop, pruning, marking, sweeping, search and backtrack of one deal, as
    methods that update the solver's fields in place. Each method is proved
    to compute the corresponding function of BeamSearch. */
module Solving {
  import opened PositionTable
  import opened Marking
  import opened Expansion
  import opened Backtracking
  import opened Captions
  import opened BeamSearch

  /** How run ends: the usage message for deal number 0, the end of the
      block, or the division by zero of a block size of 0. */
  datatype RunOutcome = UsageError | Finished | DivisionByZero

  /** One line appended to an upload file: the caption and the solution in
      root-to-goal order, with the scores of the walk in the same order. */
  datatype Upload = Upload(file: UploadFile, caption: Caption, moves: seq<string>, scores: seq<Score>)

  /** The command-line options that shape what is published. */
  datatype Options = Options(maxnodes: int, blocksolve: int, winxp: bool)

  /** The line a solved deal appends: in the file of its deal number, under
      the caption of the depth reached, the solution and its scores reversed
      into root-to-goal order. */
  function UploadLine<K, N>(o: Options, gameno: int, r: Beam<K, N>): Upload {
    Upload(UploadFileFor(gameno, o.blocksolve), MakeCaption(gameno, r.depth, o.maxnodes, CaptionTag(o.winxp, r.winxpwarn)),
           Reverse(r.solution), Reverse(r.solutionScores))
  }

  /** What the state r a depth loop ends in publishes: its line when it holds
      a solution, nothing otherwise. */
  function Published<K, N>(o: Options, gameno: int, r: Beam<K, N>): seq<Upload> {
    if |r.solution| > 0 then [UploadLine(o, gameno, r)] else []
  }

  /** What one deal publishes: nothing when no solution is recorded,
      otherwise one line, in the file of its deal number, with the caption of
      the depth reached and the solution reversed into root-to-goal order.
      When the foundations belong to the key and the start position is not
      already solved, a line is published exactly when a goal is found. */
  function DealUploads<K(==, !new), N>(g: Game<K, N>, o: Options, gameno: int, root: Root<K>): (u: seq<Upload>)
    requires UndoInverts(g)
    ensures |u| <= 1
    ensures |u| == 1 <==> |Deal(g, o.maxnodes, Start<K, N>(root, [], false)).solution| > 0
    ensures |u| == 1 ==> var r := Deal(g, o.maxnodes, Start<K, N>(root, [], false));
      && u[0].file == UploadFileFor(gameno, o.blocksolve)
      && u[0].caption.gameno == gameno && u[0].caption.depth == r.depth && r.depth <= MaxDepth
      && (u[0].caption.tag == Xp <==> o.winxp)
      && (u[0].caption.tag == All <==> !o.winxp && !r.winxpwarn)
      && |u[0].moves| == r.depth && |u[0].scores| == r.depth
      && u[0].moves == Reverse(r.solution) && u[0].scores == Reverse(r.solutionScores)
    ensures GoalOfKey(g) && !g.solved(root.key) ==>
      (|u| == 1 <==> Deal(g, o.maxnodes, Start<K, N>(root, [], false)).found)
  {
    StartReady<K, N>(g, root, [], false);
    DealSolution<K, N>(g, o.maxnodes, root, [], false);
    var r := Deal(g, o.maxnodes, Start<K, N>(root, [], false));
    assert GoalOfKey(g) && !g.solved(root.key) ==> (r.found <==> |r.solution| > 0) by {
      if GoalOfKey(g) && !g.solved(root.key) {
        DealFindsSolution<K, N>(g, o.maxnodes, root, [], false);
      }
    }
    if |r.solution| > 0 then [UploadLine(o, gameno, r)] else []
  }

  /** What one deal publishes, in terms of the state its depth loop ends in,
      whatever the scores and legacy flag left over from the deal before. */
  lemma UploadsOf<K(!new), N>(g: Game<K, N>, o: Options, gameno: int, root: Root<K>,
                              staleScores: seq<Score>, staleWarn: bool, r: Beam<K, N>,
                              before: seq<Upload>, after: seq<Upload>)
    requires UndoInverts(g)
    requires r == Deal(g, o.maxnodes, Start<K, N>(root, staleScores, staleWarn))
    requires after == before + Published(o, gameno, r)
    ensures after == before + DealUploads(g, o, gameno, root)
  {
    DealIgnoresStale<K, N>(g, o.maxnodes, root, staleScores, staleWarn);
  }

  /** The start position of deal g: a dealt game for a positive number, the
      built-in layout otherwise. */
  function RootFor<K>(deal: int -> Root<K>, layout: Root<K>, g: int): Root<K> {
    if g > 0 then deal(g) else layout
  }

  /** What each deal publishes, by deal number. */
  ghost function Publisher<K(!new), N>(g: Game<K, N>, o: Options, deal: int -> Root<K>, layout: Root<K>): int -> seq<Upload>
    requires UndoInverts(g)
  {
    n => DealUploads(g, o, n, RootFor(deal, layout, n))
  }

  /** pub gives, for every deal number, what that deal publishes. The run
      loop reasons about pub alone, one deal at a time. */
  ghost predicate PublishesDeals<K(!new), N>(g: Game<K, N>, o: Options, deal: int -> Root<K>, layout: Root<K>,
                                             pub: int -> seq<Upload>)
    requires UndoInverts(g)
  {
    forall n {:trigger DealUploads(g, o, n, RootFor(deal, layout, n))} :: DealUploads(g, o, n, RootFor(deal, layout, n)) == pub(n)
  }

  /** What a run from deal n publishes: the uploads of every deal of its
      block, from n up to the next multiple of the block size b. */
  function Batch(pub: int -> seq<Upload>, b: int, n: int): seq<Upload>
    requires b != 0
    decreases BatchLength(n, b)
  {
    pub(n) + (if JavaRem(n + 1, b) == 0 then [] else Batch(pub, b, n + 1))
  }

  /** A run publishes at most one line per deal of its block, each a line
      of the deal that found a goal. */
  lemma {:induction false} BatchSize<K(!new), N>(g: Game<K, N>, o: Options, deal: int -> Root<K>, layout: Root<K>, n: int)
    requires UndoInverts(g) && o.blocksolve != 0
    ensures |Batch(Publisher(g, o, deal, layout), o.blocksolve, n)| <= BatchLength(n, o.blocksolve)
    decreases BatchLength(n, o.blocksolve)
  {
    var pub := Publisher(g, o, deal, layout);
    assert |pub(n)| <= 1;
    if JavaRem(n + 1, o.blocksolve) != 0 {
      BatchSize(g, o, deal, layout, n + 1);
    }
  }

  lemma AppendAssoc<T>(a: seq<T>, b: seq<T>, c: seq<T>)
    ensures (a + b) + c == a + (b + c)
  {
  }

  /** The state of a run that started at deal g0 with uploads u0 and has
      reached deal n with uploads u: the deals from g0 up to n have been
      published, and what remains of the block completes the uploads of the
      whole block. */
  ghost predicate Publishing(pub: int -> seq<Upload>, b: int, g0: int, u0: seq<Upload>, n: int, u: seq<Upload>)
  {
    && b != 0
    && n + BatchLength(n, b) == g0 + BatchLength(g0, b)
    && u + Batch(pub, b, n) == u0 + Batch(pub, b, g0)
  }

  /** How a run from deal g0 with uploads u0 ends: with the usage message and
      nothing done for deal number 0; after one deal, on the division by zero,
      for a block size of 0; otherwise after the whole block, with the uploads
      of every deal of it. */
  ghost predicate RunEnds<K(!new), N>(g: Game<K, N>, o: Options, deal: int -> Root<K>, layout: Root<K>,
                                      g0: int, u0: seq<Upload>, n: int, u: seq<Upload>, outcome: RunOutcome)
    requires UndoInverts(g)
  {
    if g0 == 0 then outcome == UsageError && n == 0 && u == u0
    else if o.blocksolve == 0 then
      outcome == DivisionByZero && n == g0 + 1 && u == u0 + DealUploads(g, o, g0, RootFor(deal, layout, g0))
    else
      && outcome == Finished && n == g0 + BatchLength(g0, o.blocksolve)
      && u == u0 + Batch(Publisher(g, o, deal, layout), o.blocksolve, g0)
  }

  /** The bookkeeping of one pass of the run loop: after the uploads of deal
      n, the run of the block ends when n + 1 starts a new block, having
      published the whole block, and goes on publishing otherwise. */
  lemma RunStep(pub: int -> seq<Upload>, b: int, g0: int, u0: seq<Upload>, n: int, before: seq<Upload>, after: seq<Upload>)
    requires Publishing(pub, b, g0, u0, n, before)
    requires after == before + pub(n)
    ensures JavaRem(n + 1, b) == 0 ==> n + 1 == g0 + BatchLength(g0, b) && after == u0 + Batch(pub, b, g0)
    ensures JavaRem(n + 1, b) != 0 ==> Publishing(pub, b, g0, u0, n + 1, after) && BatchLength(n + 1, b) < BatchLength(n, b)
  {
    if JavaRem(n + 1, b) != 0 {
      var rest := Batch(pub, b, n + 1);
      assert Batch(pub, b, n) == pub(n) + rest;
      AppendAssoc(before, pub(n), rest);
    } else {
      assert Batch(pub, b, n) == pub(n);
    }
  }

  /** A run with a block size of 0 ends after its first deal. */
  lemma RunDivides<K(!new), N>(g: Game<K, N>, o: Options, deal: int -> Root<K>, layout: Root<K>,
                               g0: int, u0: seq<Upload>, after: seq<Upload>)
    requires UndoInverts(g) && g0 != 0 && o.blocksolve == 0
    requires after == u0 + DealUploads(g, o, g0, RootFor(deal, layout, g0))
    ensures RunEnds(g, o, deal, layout, g0, u0, g0 + 1, after, DivisionByZero)
  {
  }

  /** The loop of search over the move groups of s: each new position is
      inserted at the depth below s and appended to the frontier with its
      score, and the loop stops at the first move group that reaches the goal
      (hit), at index i, telling whether that one was new. */
  method Scanned<K(==), N>(g: Game<K, N>, s: K, ghost b: Beam<K, N>, nodelist: seq<Child<K, N>>,
                           pos: map<K, Value<N>>, nextstack: seq<K>, stats: seq<Score>, d: nat)
      returns (table: map<K, Value<N>>, frontier: seq<K>, scores: seq<Score>, hit: bool, i: nat, isNew: bool)
    requires pos == b.pos && nextstack == b.nextstack && stats == b.stats && d == b.depth
    requires ParentClosed(b.pos, g.parentOf) && s in b.pos && b.pos[s].depth == b.depth
    requires forall j | 0 <= j < |nodelist| :: g.parentOf(nodelist[j].key, nodelist[j].node) == s
    ensures ParentClosed(table, g.parentOf)
    ensures !hit ==> Scan(g, s, b, nodelist, 0) == b.(pos := table, nextstack := frontier, stats := scores)
    ensures hit ==> i < |nodelist| && IsGoal(nodelist[i].homecells)
    ensures hit && !isNew ==>
      Scan(g, s, b, nodelist, 0) == b.(pos := table, nextstack := frontier, stats := scores,
                                       found := true, solutionScores := [], winxpwarn := false)
    ensures hit && isNew ==>
      && nodelist[i].key in table && table[nodelist[i].key].depth == b.depth + 1
      && Scan(g, s, b, nodelist, 0) == b.(pos := table, nextstack := frontier, stats := scores, found := true,
           solution := b.solution + Backtrace(table, g.parentOf, g.notate, nodelist[i].key).moves,
           solutionScores := Backtrace(table, g.parentOf, g.notate, nodelist[i].key).scores,
           winxpwarn := Backtrace(table, g.parentOf, g.notate, nodelist[i].key).warned)
  {
    ghost var target := Scan(g, s, b, nodelist, 0);
    table, frontier, scores := pos, nextstack, stats;
    i := 0;
    hit, isNew := false, false;
    ghost var prev := b;
    while i < |nodelist|
      invariant 0 <= i <= |nodelist|
      invariant ParentClosed(table, g.parentOf) && s in table && table[s].depth == d
      invariant !hit
      invariant Scan(g, s, b.(pos := table, nextstack := frontier, stats := scores), nodelist, i) == target
      decreases |nodelist| - i
    {
      var entry := nodelist[i];
      ScanStep(g, s, b.(pos := table, nextstack := frontier, stats := scores), nodelist, i);
      prev := b.(pos := table, nextstack := frontier, stats := scores);
      isNew := entry.key !in table;
      if isNew {
        table := table[entry.key := Discovered(entry, d)];
        scores := scores + [entry.score];
        frontier := frontier + [entry.key];
      }
      if IsGoal(entry.homecells) {
        hit := true;
        ScanGoal(g, s, prev, nodelist, i);
        return;
      }
      i := i + 1;
    }
  }

  /** The loop of backtrack: from the entry of the given key and depth back
      to a root, one notation line after the other appended to the solution
      so far, the score of each parent reached collected, and the legacy flag
      raised when some move group is one the legacy engine refuses. An entry
      at depth 0 ends the walk at once. */
  method Walk<K(==), N>(pos: map<K, Value<N>>, parentOf: (K, N) -> K, notate: (K, N) -> Notation,
                        key: K, keyDepth: nat, prior: seq<string>)
      returns (solution: seq<string>, solutionScores: seq<Score>, winxpwarn: bool)
    requires ParentClosed(pos, parentOf)
    requires keyDepth > 0 ==> key in pos && pos[key].depth == keyDepth
    ensures keyDepth == 0 ==> solution == prior && solutionScores == [] && !winxpwarn
    ensures keyDepth > 0 ==>
      && solution == prior + Backtrace(pos, parentOf, notate, key).moves
      && solutionScores == Backtrace(pos, parentOf, notate, key).scores
      && winxpwarn == Backtrace(pos, parentOf, notate, key).warned
  {
    ghost var t := if keyDepth == 0 then Trace([], [], false) else Backtrace(pos, parentOf, notate, key);
    solution, solutionScores, winxpwarn := prior, [], false;
    var k := key;
    var d := keyDepth;
    ghost var rest := t;
    while d != 0
      invariant d > 0 ==> k in pos && pos[k].depth == d && rest == Backtrace(pos, parentOf, notate, k)
      invariant d == 0 ==> rest == Trace([], [], false)
      invariant solution + rest.moves == prior + t.moves
      invariant solutionScores + rest.scores == t.scores
      invariant (winxpwarn || rest.warned) == t.warned
      decreases d
    {
      var node := pos[k].node.value;
      var note := notate(k, node);
      var parent := parentOf(k, node);
      assert parent == Parent(pos, parentOf, k);
      ghost var next := Backtrace(pos, parentOf, notate, parent);
      assert rest == Trace([note.text] + next.moves, [pos[parent].score] + next.scores, note.legacyIllegal || next.warned);
      solution := solution + [note.text];
      if note.legacyIllegal {
        winxpwarn := true;
      }
      solutionScores := solutionScores + [pos[parent].score];
      k := parent;
      d := pos[k].depth;
      assert d == 0 ==> next == Trace([], [], false);
      rest := next;
    }
    assert solution == solution + rest.moves && solutionScores == solutionScores + rest.scores;
  }

  class Solver<K(==, !new), N> {
    const maxnodes: int
    const blocksolve: int
    const winxp: bool
    /** The card-game code for the chosen engine rules. */
    const game: Game<K, N>
    /** Tableau.deal with the key and heuristic of the dealt position. */
    const deal: int -> Root<K>
    /** Tableau.fromString of the built-in layout, with its key and heuristic. */
    const layout: Root<K>

    var gameno: int
    var position: map<K, Value<N>>
    var solution: seq<string>
    var solutionScores: seq<Score>
    var nextstack: seq<K>
    var stack: seq<K>
    var stats: seq<Score>
    var found: bool
    var depth: nat
    /** Tableau.winxpwarn, set while rendering the solution. */
    var winxpwarn: bool
    /** The lines appended to the upload files so far. */
    var uploads: seq<Upload>

    ghost predicate Valid()
    {
      UndoInverts(game)
    }

    function Opts(): Options {
      Options(maxnodes, blocksolve, winxp)
    }

    /** The state of the deal being solved. */
    ghost function Snapshot(): Beam<K, N>
      reads this
    {
      Beam(position, nextstack, stats, found, depth, solution, solutionScores, winxpwarn)
    }

    constructor(gameno: int, maxnodes: int, blocksolve: int, winxp: bool,
                game: Game<K, N>, deal: int -> Root<K>, layout: Root<K>)
      requires UndoInverts(game)
      ensures Valid()
      ensures this.gameno == gameno && this.maxnodes == maxnodes && this.blocksolve == blocksolve
      ensures this.winxp == winxp && this.game == game && this.deal == deal && this.layout == layout
      ensures uploads == [] && solutionScores == [] && !winxpwarn
    {
      this.gameno := gameno;
      this.maxnodes := maxnodes;
      this.blocksolve := blocksolve;
      this.winxp := winxp;
      this.game := game;
      this.deal := deal;
      this.layout := layout;
      position := map[];
      solution := [];
      solutionScores := [];
      nextstack := [];
      stack := [];
      stats := [];
      found := false;
      depth := 0;
      winxpwarn := false;
      uploads := [];
    }

    /** Solves the deals of one block, from gameno up to the next multiple of
        the block size, appending each solution found to the uploads. */
    method Run() returns (outcome: RunOutcome)
      requires Valid()
      modifies this
      ensures RunEnds(game, Opts(), deal, layout, old(gameno), old(uploads), gameno, uploads, outcome)
    {
      if gameno == 0 {
        return UsageError;
      }
      ghost var g0, u0 := gameno, uploads;
      ghost var pub := Publisher(game, Opts(), deal, layout);
      assert PublishesDeals(game, Opts(), deal, layout, pub);
      if blocksolve == 0 {
        NextDeal(pub);
        RunDivides(game, Opts(), deal, layout, g0, u0, uploads);
        return DivisionByZero;
      }
      RunBlock(pub);
      outcome := Finished;
    }

    /** The run loop for a nonzero block size: deal after deal is solved and
        published until the deal number reaches a multiple of the block size. */
    method RunBlock(ghost pub: int -> seq<Upload>)
      requires Valid() && blocksolve != 0 && PublishesDeals(game, Opts(), deal, layout, pub)
      modifies this
      ensures gameno == old(gameno) + BatchLength(old(gameno), blocksolve)
      ensures uploads == old(uploads) + Batch(pub, blocksolve, old(gameno))
    {
      ghost var g0, u0 := gameno, uploads;
      while true
        invariant Publishing(pub, blocksolve, g0, u0, gameno, uploads)
        decreases BatchLength(gameno, blocksolve)
      {
        ghost var before, n0 := uploads, gameno;
        NextDeal(pub);
        RunStep(pub, blocksolve, g0, u0, n0, before, uploads);
        if JavaRem(gameno, blocksolve) == 0 {
          break;
        }
      }
    }

    /** One pass of the run loop: the current deal solved and published, and
        the deal number advanced. */
    method NextDeal(ghost pub: int -> seq<Upload>)
      requires Valid() && PublishesDeals(game, Opts(), deal, layout, pub)
      modifies this`position, this`solution, this`nextstack, this`found, this`depth, this`stats
      modifies this`stack, this`solutionScores, this`winxpwarn, this`uploads, this`gameno
      ensures gameno == old(gameno) + 1
      ensures uploads == old(uploads) + pub(old(gameno))
    {
      SolveAndUpload();
      gameno := gameno + 1;
    }

    /** Solves the current deal from its start position and, when a goal was
        found, appends its solution, reversed into root-to-goal order, to the
        uploads. */
    method SolveAndUpload()
      requires Valid()
      modifies this`position, this`solution, this`nextstack, this`found, this`depth, this`stats
      modifies this`stack, this`solutionScores, this`winxpwarn, this`uploads
      ensures uploads == old(uploads) + DealUploads(game, Opts(), old(gameno), RootFor(deal, layout, old(gameno)))
    {
      var root := RootFor(deal, layout, gameno);
      Reset(root);
      ghost var start := Snapshot();
      DepthLoop();
      PublishDeal(root, start);
    }

    /** The start of a deal: the table holds the root alone, at depth 0, and
        the frontier and its statistics hold the root; the scores and legacy
        flag of the deal before are left as they are. */
    method Reset(root: Root<K>)
      requires Valid()
      modifies this`position, this`solution, this`nextstack, this`found, this`depth, this`stats
      ensures Snapshot() == Start<K, N>(root, solutionScores, winxpwarn)
      ensures CycleReady(game, Snapshot())
      ensures gameno == old(gameno) && uploads == old(uploads)
    {
      position := map[root.key := Value(0, 0, None, root.score)];
      solution := [];
      nextstack := [root.key];
      found := false;
      depth := 0;
      stats := [root.score];
      StartReady<K, N>(game, root, solutionScores, winxpwarn);
    }

    /** The depth loop of a deal: one cycle after the other until a goal is
        found or MAXDEPTH is reached. */
    method DepthLoop()
      requires Valid() && CycleReady(game, Snapshot())
      modifies this`position, this`solution, this`nextstack, this`found, this`depth, this`stats
      modifies this`stack, this`solutionScores, this`winxpwarn
      ensures Snapshot() == Deal(game, maxnodes, old(Snapshot()))
      ensures gameno == old(gameno) && uploads == old(uploads)
    {
      ghost var start := Snapshot();
      while depth < MaxDepth && !found
        invariant Valid() && CycleReady(game, Snapshot())
        invariant Deal(game, maxnodes, Snapshot()) == Deal(game, maxnodes, start)
        decreases MaxDepth - depth
      {
        DepthCycle();
      }
    }

    /** Publishes the deal whose depth loop has just ended. */
    method PublishDeal(ghost root: Root<K>, ghost start: Beam<K, N>)
      requires Valid() && start == Start<K, N>(root, start.solutionScores, start.winxpwarn)
      requires Snapshot() == Deal(game, maxnodes, start)
      modifies this`solution, this`solutionScores, this`uploads
      ensures gameno == old(gameno)
      ensures uploads == old(uploads) + DealUploads(game, Opts(), gameno, root)
    {
      ghost var r, u0 := Snapshot(), uploads;
      Publish();
      UploadsOf<K, N>(game, Opts(), gameno, root, start.solutionScores, start.winxpwarn, r, u0, uploads);
    }

    /** Appends the solution found, reversed into root-to-goal order, to the
        uploads, under the caption of the depth reached; nothing is appended
        when no goal was found. */
    method Publish()
      modifies this`solution, this`solutionScores, this`uploads
      ensures gameno == old(gameno)
      ensures uploads == old(uploads) + Published(Opts(), gameno, old(Snapshot()))
      ensures |old(solution)| > 0 ==> solution == Reverse(old(solution)) && solutionScores == Reverse(old(solutionScores))
      ensures |old(solution)| == 0 ==> solution == old(solution) && solutionScores == old(solutionScores)
    {
      if |solution| > 0 {
        solutionScores := Reverse(solutionScores);
        solution := Reverse(solution);
        var caption := MakeCaption(gameno, depth, maxnodes, CaptionTag(winxp, winxpwarn));
        uploads := uploads + [Upload(UploadFileFor(gameno, blocksolve), caption, solution, solutionScores)];
      }
    }

    /** One pass of the depth loop: prune the frontier at the threshold of its
        statistics, mark the kept entries and their ancestors, delete every
        unmarked entry, and search the kept entries until a goal is found. */
    method DepthCycle()
      requires Valid() && CycleReady(game, Snapshot()) && !found
      modifies this`position, this`solution, this`nextstack, this`found, this`depth, this`stats
      modifies this`stack, this`solutionScores, this`winxpwarn
      ensures Snapshot() == Cycle(game, maxnodes, old(Snapshot()))
    {
      ghost var b := Snapshot();
      Prune();
      SearchAll();
      ghost var e := Snapshot();
      CycleIs(game, maxnodes, b, e);
      depth := depth + 1;
    }

    /** The first half of a cycle: the frontier pruned into the stack, the
        table marked and swept, and the frontier and its statistics cleared. */
    method Prune()
      requires Valid() && CycleReady(game, Snapshot())
      modifies this`position, this`nextstack, this`stats, this`stack
      ensures Snapshot() == Pruned(game, maxnodes, old(Snapshot()))
      ensures stack == KeptStack(game, maxnodes, old(Snapshot()))
    {
      ghost var b := Snapshot();
      var midscore := game.findMid(stats, maxnodes);
      PruneAndMark(midscore);
      assert stack == KeptStack(game, maxnodes, b);
      DeleteUnmarked();
      assert position == Swept(game, maxnodes, b);
      stats := [];
      nextstack := [];
    }

    /** The second half of a cycle: the kept entries searched in order until
        a goal is found. */
    method SearchAll()
      requires Valid() && ParentClosed(position, game.parentOf) && AtDepth(position, stack, depth) && !found
      modifies this`position, this`solution, this`nextstack, this`found, this`stats
      modifies this`solutionScores, this`winxpwarn
      ensures Snapshot() == ExpandAll(game, old(Snapshot()), stack)
    {
      ghost var p := Snapshot();
      assert stack[..0] == [];
      var i := 0;
      while i < |stack|
        invariant 0 <= i <= |stack| && AtDepth(p.pos, stack[..i], p.depth)
        invariant Snapshot() == ExpandAll(game, p, stack[..i])
        invariant !found
        decreases |stack| - i
      {
        ExpandNext(game, p, stack, i);
        Search(stack[i]);
        i := i + 1;
        if found {
          ExpandAllStops(game, p, stack, i);
          break;
        }
      }
      assert stack[..|stack|] == stack;
    }

    /** The pruning and marking half of a cycle: every frontier entry worse
        than mid on both of the first two score components is dropped; every
        other one is kept and its chain of unmarked ancestors marked. */
    method PruneAndMark(mid: Score)
      requires AtDepth(position, nextstack, depth) && ParentClosed(position, game.parentOf)
      modifies this`stack, this`position
      ensures stack == Kept(old(position), nextstack, mid)
      ensures position == MarkAll(old(position), game.parentOf, stack, depth)
    {
      var kept, table := KeepAndMark(mid);
      stack, position := kept, table;
    }

    /** The loop of the pruning and marking: the frontier walked in order,
        each kept entry appended to the stack and its chain marked in a
        working copy of the table. */
    method KeepAndMark(mid: Score) returns (kept: seq<K>, table: map<K, Value<N>>)
      requires AtDepth(position, nextstack, depth) && ParentClosed(position, game.parentOf)
      ensures forall k | k in kept :: k in position
      ensures kept == Kept(position, nextstack, mid)
      ensures table == MarkAll(position, game.parentOf, kept, depth)
    {
      var frontier := nextstack;
      assert forall k | k in frontier :: k in position;
      table := position;
      kept := [];
      for i := 0 to |frontier|
        invariant forall k | k in kept :: k in position
        invariant kept == Kept(position, frontier[..i], mid)
        invariant table == MarkAll(position, game.parentOf, kept, depth)
      {
        var entry := frontier[i];
        KeptSnoc(position, frontier, mid, i);
        if table[entry].score[0] > mid[0] && table[entry].score[1] > mid[1] {
          continue;
        }
        MarkAllSnoc(position, game.parentOf, kept, entry, depth);
        kept := kept + [entry];
        table := MarkAncestors(table, entry);
      }
      assert frontier[..|frontier|] == frontier;
    }

    /** Marks entry k0 and its ancestors with the current depth, stopping at
        the first one already marked or at a root. The values of the table
        are updated one by one, as the source updates them in place. */
    method MarkAncestors(pos: map<K, Value<N>>, k0: K) returns (r: map<K, Value<N>>)
      requires ParentClosed(pos, game.parentOf) && k0 in pos
      ensures r == Mark(pos, Chain(pos, game.parentOf, depth, k0), depth)
    {
      r := pos;
      var key := k0;
      while true
        invariant ParentClosed(r, game.parentOf) && key in r
        invariant Mark(pos, Chain(pos, game.parentOf, depth, k0), depth) == Mark(r, Chain(r, game.parentOf, depth, key), depth)
        decreases r[key].depth
      {
        var value := r[key];
        if value.level == depth {
          assert Mark(r, {}, depth) == r;
          break;
        }
        ghost var before := r;
        r := r[key := value.(level := depth)];
        if value.depth == 0 {
          assert Mark(before, {key}, depth) == r;
          break;
        }
        var parent := game.parentOf(key, value.node.value);
        assert parent == Parent(before, game.parentOf, key);
        ChainIgnoresDeeper(before, game.parentOf, depth, parent, key);
        assert Chain(before, game.parentOf, depth, key) == {key} + Chain(before, game.parentOf, depth, parent);
        assert Mark(before, {key} + Chain(before, game.parentOf, depth, parent), depth)
            == Mark(r, Chain(r, game.parentOf, depth, parent), depth);
        key := parent;
      }
    }

    /** Deletes every entry not marked with the current depth. */
    method DeleteUnmarked()
      modifies this`position
      ensures position == Sweep(old(position), depth)
    {
      ghost var pos0 := position;
      var unvisited := position.Keys;
      while unvisited != {}
        invariant unvisited <= pos0.Keys
        invariant forall k :: k in position <==> k in pos0 && (k in unvisited || pos0[k].level == depth)
        invariant forall k | k in position :: position[k] == pos0[k]
        decreases unvisited
      {
        var k :| k in unvisited;
        if position[k].level != depth {
          position := map j | j in position && j != k :: position[j];
        }
        unvisited := unvisited - {k};
      }
    }

    /** Expands kept entry s: plays its move groups in order, inserts each
        new position, and stops at the first that puts a king on all four
        foundations, after recording the walk back from it. */
    method Search(s: K)
      requires UndoInverts(game)
      requires ParentClosed(position, game.parentOf)
      requires s in position && position[s].depth == depth
      modifies this`position, this`nextstack, this`stats, this`found, this`solution, this`solutionScores, this`winxpwarn
      ensures Snapshot() == Scan(game, s, old(Snapshot()), game.expand(s), 0)
    {
      var nodelist := game.expand(s);
      assert forall j | 0 <= j < |nodelist| :: game.parentOf(nodelist[j].key, nodelist[j].node) == s;
      var hit, i, isNew;
      position, nextstack, stats, hit, i, isNew :=
        Scanned(game, s, Snapshot(), nodelist, position, nextstack, stats, depth);
      if hit {
        Backtrack(nodelist[i].key, if isNew then depth + 1 else 0);
        found := true;
      }
    }

    /** Walks from the entry of the given key and depth back to a root,
        adding the notation of each move group to the solution and the score
        of each parent reached to the scores, and raising the legacy flag when
        a move group is one the legacy engine refuses. */
    method Backtrack(key: K, keyDepth: nat)
      requires ParentClosed(position, game.parentOf)
      requires keyDepth > 0 ==> key in position && position[key].depth == keyDepth
      modifies this`solution, this`solutionScores, this`winxpwarn
      ensures keyDepth == 0 ==> solution == old(solution) && solutionScores == [] && !winxpwarn
      ensures keyDepth > 0 ==>
        && solution == old(solution) + Backtrace(position, game.parentOf, game.notate, key).moves
        && solutionScores == Backtrace(position, game.parentOf, game.notate, key).scores
        && winxpwarn == Backtrace(position, game.parentOf, game.notate, key).warned
    {
      solution, solutionScores, winxpwarn := Walk(position, game.parentOf, game.notate, key, keyDepth, solution);
    }
  }
}
