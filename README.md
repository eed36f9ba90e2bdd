# FreeCell solver: the beam search of one deal

This project models the core of `Solver` in the FreeCell solver: its run loop over a block of deals, and the beam search in which each deal is solved. Every position seen in a deal is stored in a position table, keyed by its canonical key. Each entry holds:

- its heuristic score;
- the depth at which it was first discovered;
- the move group that led to it;
- a liveness level.

The search works one depth at a time, up to `MAXDEPTH` = 55. Each pass of the depth loop does four things:

1. It computes a mid threshold from the statistics of the frontier (`nextstack`).
2. It drops every frontier entry that is worse than the threshold on both of the first two score components.
3. It marks each kept entry, and its chain of ancestors, with the current depth, then deletes every unmarked entry from the table.
4. It expands the kept entries one after the other.

An expansion (`search`) plays every move group of a position with its forced plays. It inserts each new key first-writer-wins at the next depth, appending it to the new frontier with its score. It stops at the first move group that puts a king on all four foundations, after `backtrack` has walked from that entry back to the root. A solved deal uploads its notation lines, reversed into root-to-goal order, under a caption giving the deal number, the depth reached, `maxnodes/1000` and the engine tag (`xp`, `w7` or `all`). The scores of the walk, also reversed, go to the log beside them.

The run goes on until the deal number reaches a multiple of the block size.

The model has seven modules:

- `PositionTable` (table.dfy): entry values, backward links (`Parent`, `Ancestors`), the sweep.
- `Marking` (marking.dfy): pruning (`Kept`) and the marking walk (`Chain`, `MarkAll`).
- `Expansion` (expansion.dfy): the goal test, first-writer-wins insertion (`InsertAll`, `Fresh`).
- `Backtracking` (backtrack.dfy): the walk back from the goal (`Backtrace`) and `Reverse`.
- `Captions` (caption.dfy): Java's `/` and `%`, the caption, the upload file, the length of a block.
- `BeamSearch` (search.dfy): the search of one deal as functions of a `Beam` state: `SearchStep`, `ExpandAll`, `Cycle`, `Deal`. It also holds the lemmas about them.
- `Solving` (solver.dfy): the class `Solver`. Its fields are the solver's fields; `position`, `nextstack`, `stack`, `stats` and `solution` are reassigned in place by methods with while loops. The methods are the run loop, the depth loop, pruning and marking, the sweep, `search` and `backtrack`. Each method is proved to compute the matching `BeamSearch` function of its old state.

The card-game code is a parameter, the datatype `BeamSearch.Game`. It gives:

- the move groups of a position after play and autoplay, with the key, heuristic score and foundation cells of the result;
- the key reached by undoing a move group;
- the notation of a move group;
- `findMidScores`.

Two assumptions are made about it:

- `BeamSearch.UndoInverts`, used throughout: undoing the move group of a child of k leads back to k.
- `BeamSearch.GoalOfKey`, used only by the lemmas that say a goal found is a solution: the foundation cells of a move group's result are determined by its key, so a goal is reached exactly at the keys of solved positions (`Game.solved`).

Without `GoalOfKey` a goal can be reached at a key already in the table. The source then backtracks from a freshly built entry of depth 0 and records nothing, and the deal-level lemmas say only "the walk, or nothing". Table keys and move groups are the type parameters `K` and `N`.

## Model

| member | source | states |
|---|---|---|
| PositionTable.Ancestors | src/main/java/org/games/solitaire/Solver.java:183-192 | the walk up the backward links from an entry ends: it has exactly as many steps as the entry's discovery depth, each step one depth shallower, each the parent of the one before |
| PositionTable.Sweep | src/main/java/org/games/solitaire/Solver.java:195-201 | a key survives the sweep exactly when its level is the current depth, with its value unchanged, and the table never grows (aftersize <= beforesize) |
| PositionTable.AncestorsAgree | src/main/java/org/games/solitaire/Solver.java:183-201 | a table that keeps the depths and move groups of a key's entries gives that key the same walk back to the root |
| PositionTable.SweepParentClosed | src/main/java/org/games/solitaire/Solver.java:195-201 | when every marked entry has a marked parent, no entry left by the sweep has lost its parent, and no level exceeds the depth |
| Marking.Kept | src/main/java/org/games/solitaire/Solver.java:173-182 | the kept stack holds only frontier entries |
| Marking.KeptIff | src/main/java/org/games/solitaire/Solver.java:173-182 | a frontier key is kept if and only if its score[0] <= mid[0] or its score[1] <= mid[1] (it is pruned only when worse on both), and the stack is never longer than the frontier |
| Marking.Chain | src/main/java/org/games/solitaire/Solver.java:183-192 | the marking walk visits only entries not yet at the current level, never deeper than where it starts; it includes the start exactly when that is not yet marked; it terminates by the discovery depth |
| Marking.MarkParentClosed | src/main/java/org/games/solitaire/Solver.java:186 | setting levels keeps every backward link intact |
| Marking.MarkAll | src/main/java/org/games/solitaire/Solver.java:173-193 | marking the chains of the kept entries keeps the table's keys, changes nothing but levels, and sets any level it changes to the current depth |
| Marking.MarkAllSnoc | src/main/java/org/games/solitaire/Solver.java:173-193 | the marking of one more kept entry is its chain's marking after the earlier ones |
| Marking.KeptSnoc | src/main/java/org/games/solitaire/Solver.java:173-182 | the frontier is pruned one entry at a time, in order |
| Marking.MarkChainCloses | src/main/java/org/games/solitaire/Solver.java:183-192 | after one walk the start entry is marked, and every marked non-root entry still has a marked parent |
| Marking.MarkAllCloses | src/main/java/org/games/solitaire/Solver.java:173-193 | after the marking every kept entry is at the current level, and marks are closed under parents |
| Marking.KeptAncestorsSurvive | src/main/java/org/games/solitaire/Solver.java:173-201 | every kept entry and all of its ancestors in the table before marking survive the sweep, with the same walk back to the root, and the swept table is closed under parents |
| Marking.MarkSweepKeeps | src/main/java/org/games/solitaire/Solver.java:173-201 | after marking and sweeping, the table is closed under parents, no level exceeds the depth, and every kept entry is present with its discovery depth |
| Marking.ChainIgnoresDeeper | src/main/java/org/games/solitaire/Solver.java:183-192 | marking an entry does not change the walk from any shallower entry, which is why the in-place walk marks exactly the chain |
| Expansion.Rank | src/main/java/org/games/solitaire/Solver.java:269-272 | `card & 15` is a rank in 0..15 |
| Expansion.Processed | src/main/java/org/games/solitaire/Solver.java:252-279 | search plays the move groups up to and including the first that reaches the goal, none after it; it plays all of them when none does; a goal was reached if and only if the last one played is a goal |
| Expansion.InsertAllKeeps | src/main/java/org/games/solitaire/Solver.java:258-266 | insertion never overwrites an entry already in the table |
| Expansion.InsertNext | src/main/java/org/games/solitaire/Solver.java:252-266 | inserting a prefix of the move groups extends by one insertion at a time |
| Expansion.InsertAllFirstWriterWins | src/main/java/org/games/solitaire/Solver.java:258-266 | old entries are unchanged; a key is in the result if and only if it was in the table or some move group has it; a new key holds the value of the first move group with that key, at depth + 1 |
| Expansion.FreshAreNew | src/main/java/org/games/solitaire/Solver.java:258-266 | the positions appended are exactly the new keys of the table, each once, none previously present, each stored with its own move group and score |
| Expansion.FreshInserted | src/main/java/org/games/solitaire/Solver.java:258-266 | each appended position has a distinct new key that the table now holds as discovered from it |
| Expansion.FreshCovers | src/main/java/org/games/solitaire/Solver.java:258-266 | every new key of the table was appended |
| Expansion.FreshKeys | src/main/java/org/games/solitaire/Solver.java:259-265 | the keys appended to nextstack are distinct, new and now in the table, and cover every new key |
| Expansion.NewEntriesUnmarked | src/main/java/org/games/solitaire/Solver.java:258-266 | every inserted entry is discovered at depth + 1 with level 0; every old entry keeps its value |
| Expansion.InsertAllParentClosed | src/main/java/org/games/solitaire/Solver.java:258-266 | inserting the children of an entry at its depth keeps every backward link intact |
| Expansion.InsertParentClosed | src/main/java/org/games/solitaire/Solver.java:259-265 | one insertion keeps every backward link intact and changes no existing entry |
| Backtracking.Backtrace | src/main/java/org/games/solitaire/Solver.java:282-309 | the walk from an entry produces one notation line and one score per step, exactly as many as its discovery depth |
| Backtracking.Path | src/main/java/org/games/solitaire/Solver.java:286-298 | the entries rendered are the start entry and its ancestors without the root, with depths decreasing by one |
| Backtracking.BacktraceScores | src/main/java/org/games/solitaire/Solver.java:298-300 | the i-th collected score is that of the i-th ancestor |
| Backtracking.BacktraceMoves | src/main/java/org/games/solitaire/Solver.java:289-292 | the i-th line is the notation of the move group of the i-th entry of the path |
| Backtracking.BacktraceWarned | src/main/java/org/games/solitaire/Solver.java:285-292 | the legacy warning is set if and only if some move group on the path is legacy-illegal |
| Backtracking.ReverseReverse | src/main/java/org/games/solitaire/Solver.java:229-232 | reversing twice gives the list back |
| Backtracking.ReversePermutes | src/main/java/org/games/solitaire/Solver.java:229-232 | reversal keeps the same elements with the same multiplicities |
| Backtracking.ReversedScoresRootFirst | src/main/java/org/games/solitaire/Solver.java:229-232 | after reversal the i-th score is that of the ancestor discovered at depth i, so the order is root to goal |
| Captions.JavaDivRem | src/main/java/org/games/solitaire/Solver.java:233 | Java's truncating quotient and remainder recombine to the dividend, and the remainder is smaller than the divisor, with the dividend's sign |
| Captions.JavaRemSign | src/main/java/org/games/solitaire/Solver.java:246 | Java's remainder is smaller than the divisor in magnitude and, when nonzero, has the dividend's sign |
| Captions.JavaRemZero | src/main/java/org/games/solitaire/Solver.java:246 | Java's remainder is zero if and only if the number is a multiple of the divisor |
| Captions.BatchLength | src/main/java/org/games/solitaire/Solver.java:246 | a run from deal g solves between 1 and abs(blocksolve) deals, ending exactly at the first later multiple of the block size |
| Captions.MakeCaption | src/main/java/org/games/solitaire/Solver.java:233-234 | the caption carries the deal number, the depth and the tag, and maxnodes/1000 is the thousands of a nonnegative budget |
| Captions.UploadFileFor | src/main/java/org/games/solitaire/Solver.java:238-241 | a block size of 1 shares one file; otherwise the file number is the deal's block of 500, rounded toward zero |
| BeamSearch.StartReady | src/main/java/org/games/solitaire/Solver.java:136-162 | the start state (the root alone, at depth 0, as table, frontier and statistics) meets the invariant of the depth loop |
| BeamSearch.Inserted | src/main/java/org/games/solitaire/Solver.java:258-266 | handling played move groups changes only the table, the frontier and the statistics |
| BeamSearch.InsertedIs | src/main/java/org/games/solitaire/Solver.java:252-266 | per-move-group insertion is first-writer-wins insertion, with the fresh keys and scores appended in order |
| BeamSearch.SearchStep | src/main/java/org/games/solitaire/Solver.java:250-280 | a search keeps the depth, keeps the table closed under parents and overwrites no existing entry |
| BeamSearch.ScanStep | src/main/java/org/games/solitaire/Solver.java:252-266 | a move group with a new key is stored at depth + 1, and a non-goal move group lets the loop go on |
| BeamSearch.ScanGoal | src/main/java/org/games/solitaire/Solver.java:268-275 | at a goal the loop stops; a new key records the walk from the goal entry, a known key records nothing and resets the scores and warning |
| BeamSearch.GoalInserted | src/main/java/org/games/solitaire/Solver.java:252-278 | when move group i is the first goal, exactly i+1 are played, and the goal entry is at depth + 1 if and only if its key was new |
| BeamSearch.GoalStep | src/main/java/org/games/solitaire/Solver.java:268-278 | a search ending at a goal sets found and extends the solution by the walk from the goal entry, or by nothing for a known key |
| BeamSearch.ScanPrefix | src/main/java/org/games/solitaire/Solver.java:252-266 | part way through the loop the table is closed under parents and still holds the expanded entry |
| BeamSearch.ScanDone | src/main/java/org/games/solitaire/Solver.java:252-279 | a loop that meets no goal ends in the state of SearchStep |
| BeamSearch.ScanAtGoal | src/main/java/org/games/solitaire/Solver.java:268-278 | a loop that stops at its first goal ends in the state of SearchStep |
| BeamSearch.ScanIsSearchStep | src/main/java/org/games/solitaire/Solver.java:250-280 | search's loop over the move groups computes SearchStep |
| BeamSearch.ExpandAll | src/main/java/org/games/solitaire/Solver.java:206-212 | the searches of a depth keep the depth, keep the table closed under parents and overwrite no entry |
| BeamSearch.ExpandNext | src/main/java/org/games/solitaire/Solver.java:206-212 | searching the next kept entry extends the searches of the depth by that entry |
| BeamSearch.KeptStack | src/main/java/org/games/solitaire/Solver.java:168-182 | the stack holds frontier entries only, at the current depth |
| BeamSearch.Swept | src/main/java/org/games/solitaire/Solver.java:173-201 | the swept table is closed under parents, has no level above the depth, and holds every kept entry at the current depth |
| BeamSearch.Cycle | src/main/java/org/games/solitaire/Solver.java:164-225 | one pass of the depth loop keeps the loop invariant (parents present, marks closed, frontier at the depth with matching statistics) and advances the depth by one |
| BeamSearch.CycleIs | src/main/java/org/games/solitaire/Solver.java:203-225 | a pass is the searches of the kept stack from the swept state, followed by depth++ |
| BeamSearch.Deal | src/main/java/org/games/solitaire/Solver.java:164-226 | the depth loop keeps its invariant and ends with found or with depth >= 55, never beyond 55 |
| BeamSearch.ExtendsTrans | src/main/java/org/games/solitaire/Solver.java:206-212 | growth of the table and frontier composes over successive searches |
| BeamSearch.NextReady | src/main/java/org/games/solitaire/Solver.java:203-225 | the frontier built after the cleared nextstack and stats is ready for the next depth |
| BeamSearch.InsertedGrows | src/main/java/org/games/solitaire/Solver.java:258-266 | insertion appends exactly the new keys to nextstack, each once, at depth + 1 and level 0, and keeps old entries |
| BeamSearch.AppendExtends | src/main/java/org/games/solitaire/Solver.java:259-265 | appending exactly the new keys, each once, grows the frontier in the sense of Extends |
| BeamSearch.InsertedStats | src/main/java/org/games/solitaire/Solver.java:263-265 | the statistics receive the score of each new frontier entry, in frontier order |
| BeamSearch.AppendStats | src/main/java/org/games/solitaire/Solver.java:263-265 | appending keys and their scores keeps the statistics in step with the frontier |
| BeamSearch.SearchStepGrows | src/main/java/org/games/solitaire/Solver.java:250-280 | one search adds only new keys, at depth + 1, to the table and to the end of nextstack, each once, with the statistics in step |
| BeamSearch.SearchStepFound | src/main/java/org/games/solitaire/Solver.java:268-278 | found is set if and only if some move group reaches the goal; without a goal the solution, scores and warning are untouched |
| BeamSearch.SearchStepBacktracked | src/main/java/org/games/solitaire/Solver.java:268-275 | a search that reaches the goal stops at its first goal move group i; if i's key was already in the table or inserted by an earlier move group, the solution is unchanged and the scores and warning are reset; otherwise i's entry is at depth + 1 and the solution, scores and warning are its walk's |
| BeamSearch.SearchStepRecords | src/main/java/org/games/solitaire/Solver.java:268-275 | the same two outcomes, as SearchStep computes them from GoalTrace |
| BeamSearch.ExpandAllExtends | src/main/java/org/games/solitaire/Solver.java:206-212 | the searches of a depth grow table and frontier as one search does, and leave the solution alone unless a goal is found |
| BeamSearch.ExpandAllStops | src/main/java/org/games/solitaire/Solver.java:211 | once found is set, no further kept entry is expanded |
| BeamSearch.ExpandAllFindsGoal | src/main/java/org/games/solitaire/Solver.java:206-212 | a kept entry with a goal move group makes the depth find a goal |
| BeamSearch.ExpandAllGoalFrom | src/main/java/org/games/solitaire/Solver.java:206-212 | the depth finds a goal only if some kept entry has a goal move group |
| BeamSearch.CycleFrontier | src/main/java/org/games/solitaire/Solver.java:203-212 | after a pass the frontier holds distinct new entries at the new depth with level 0, and the table holds only swept entries and frontier entries |
| BeamSearch.CycleKeepsCompetitive | src/main/java/org/games/solitaire/Solver.java:173-201 | a frontier entry competitive on score[0] or score[1] survives the sweep and the pass |
| BeamSearch.SweptMarked | src/main/java/org/games/solitaire/Solver.java:195-201 | every surviving entry is marked at the current depth, and the table does not grow |
| BeamSearch.CycleBacktracked | src/main/java/org/games/solitaire/Solver.java:164-225 | a pass leaves the solution untouched unless it finds a goal; then it has recorded the walk from a goal entry at the new depth, or nothing |
| BeamSearch.CycleExpands | src/main/java/org/games/solitaire/Solver.java:203-212 | the same for the searches of the pass before depth++ |
| BeamSearch.ExpandAllSolution | src/main/java/org/games/solitaire/Solver.java:206-212 | the searches of a depth leave the solution untouched unless a goal is found; then they have recorded the walk from a goal entry, or nothing |
| BeamSearch.DealBacktracked | src/main/java/org/games/solitaire/Solver.java:164-226 | the depth loop leaves the solution empty unless it finds a goal; then the solution is the walk from a goal entry at the final depth, or empty |
| BeamSearch.DealSolution | src/main/java/org/games/solitaire/Solver.java:164-232 | a nonempty solution means found with depth <= 55 and one line and one score per depth; it is the walk from a goal entry, with the warning set if and only if a legacy-illegal move group is on it |
| BeamSearch.SearchStepStaysUnsolved | src/main/java/org/games/solitaire/Solver.java:252-266 | under GoalOfKey, a search that reaches no goal inserts no solved position |
| BeamSearch.SearchStepSolves | src/main/java/org/games/solitaire/Solver.java:252-278 | under GoalOfKey, from a table with no solved entry but an unsolved root, a search that reaches the goal does so at a new key and records the walk from that solved entry at depth + 1 |
| BeamSearch.ExpandAllSolves | src/main/java/org/games/solitaire/Solver.java:206-212 | under GoalOfKey, the searches of a depth keep the table free of solved entries unless they find a goal, and a goal they find is recorded by its walk |
| BeamSearch.ExpandedSolves | src/main/java/org/games/solitaire/Solver.java:195-212 | the same for the searches of a pass from the swept table, which only loses entries |
| BeamSearch.PrunedUnsolved | src/main/java/org/games/solitaire/Solver.java:195-201 | the sweep keeps the table free of solved entries |
| BeamSearch.WalkedAnyDepth | src/main/java/org/games/solitaire/Solver.java:225 | depth++ does not change the recorded walk |
| BeamSearch.CycleSolves | src/main/java/org/games/solitaire/Solver.java:164-225 | under GoalOfKey, a pass keeps the table free of solved entries unless it finds a goal, and a goal it finds is recorded by the walk from a solved entry at the new depth |
| BeamSearch.DealSolves | src/main/java/org/games/solitaire/Solver.java:164-226 | under GoalOfKey, a goal found by the depth loop is found below the start depth and recorded by the walk from a solved entry at the final depth |
| BeamSearch.DealFindsSolution | src/main/java/org/games/solitaire/Solver.java:156-232 | under GoalOfKey, for a root that is not solved: found if and only if the solution is nonempty; then 0 < depth <= 55, one line and one score per depth, and the solution is the walk from a solved entry at the final depth |
| BeamSearch.AgreeSearchStep | src/main/java/org/games/solitaire/Solver.java:283-285 | one search cannot be affected by stale scores and warning before a goal |
| BeamSearch.AgreeExpandAll | src/main/java/org/games/solitaire/Solver.java:206-212 | the searches of a depth cannot be affected by stale scores and warning |
| BeamSearch.AgreeCycle | src/main/java/org/games/solitaire/Solver.java:164-225 | a pass cannot be affected by stale scores and warning |
| BeamSearch.AgreeDeal | src/main/java/org/games/solitaire/Solver.java:164-226 | the depth loop cannot be affected by stale scores and warning |
| BeamSearch.DealIgnoresStale | src/main/java/org/games/solitaire/Solver.java:136-140 | solutionScores and Tableau.winxpwarn, left over from the previous deal because they are not reset, never change the solution, nor any published state |
| Solving.DealUploads | src/main/java/org/games/solitaire/Solver.java:227-243 | a deal publishes at most one line, and one exactly when the solution is nonempty; under GoalOfKey with an unsolved root, exactly when a goal was found; the line goes to the file of its deal number; the caption carries gameno and depth <= 55; its tag is xp exactly for the legacy engine and all exactly when there is neither legacy solving nor the warning; the moves and scores are the walk reversed, one per depth |
| Solving.UploadsOf | src/main/java/org/games/solitaire/Solver.java:227-244 | what a deal publishes does not depend on the scores and warning left over from the deal before |
| Solving.BatchSize | src/main/java/org/games/solitaire/Solver.java:135-247 | a run publishes at most one line per deal of its block |
| Solving.RunStep | src/main/java/org/games/solitaire/Solver.java:246 | after a deal, the run ends exactly when the next deal number is a multiple of the block size, having published the whole block; otherwise it continues with fewer deals left |
| Solving.RunDivides | src/main/java/org/games/solitaire/Solver.java:246 | a block size of 0 ends the run after the first deal |
| Solving.Scanned | src/main/java/org/games/solitaire/Solver.java:252-279 | search's loop over the node list, stopping at the first goal, computes Scan; a goal at index i whose key is new sits in the table at depth + 1 |
| Solving.Walk | src/main/java/org/games/solitaire/Solver.java:286-308 | backtrack's loop computes Backtrace from the goal entry, and does nothing for depth 0 |
| Solving.Solver.constructor | src/main/java/org/games/solitaire/Solver.java:61-89 | the options become the solver's constants, with no uploads so far |
| Solving.Solver.Run | src/main/java/org/games/solitaire/Solver.java:124-247 | deal number 0 gives the usage outcome with nothing done; block size 0 gives the division by zero after one deal; otherwise the run covers the whole block and uploads exactly the block's lines |
| Solving.Solver.RunBlock | src/main/java/org/games/solitaire/Solver.java:135-247 | the run loop advances gameno by the block's length and appends the block's uploads |
| Solving.Solver.NextDeal | src/main/java/org/games/solitaire/Solver.java:135-246 | one pass of the run loop appends the current deal's uploads and increments gameno |
| Solving.Solver.SolveAndUpload | src/main/java/org/games/solitaire/Solver.java:136-244 | solving the current deal appends exactly what that deal publishes |
| Solving.Solver.Reset | src/main/java/org/games/solitaire/Solver.java:136-162 | a deal starts with the root alone as table, frontier and statistics, at depth 0 with found false; this state meets the loop invariant |
| Solving.Solver.DepthLoop | src/main/java/org/games/solitaire/Solver.java:164-226 | the depth loop computes Deal |
| Solving.Solver.PublishDeal | src/main/java/org/games/solitaire/Solver.java:227-244 | the end of a deal appends exactly the deal's uploads |
| Solving.Solver.Publish | src/main/java/org/games/solitaire/Solver.java:227-243 | with a solution, the lines and scores are reversed and one line is uploaded under the caption; without one, nothing changes |
| Solving.Solver.DepthCycle | src/main/java/org/games/solitaire/Solver.java:165-225 | one pass of the depth loop computes Cycle |
| Solving.Solver.Prune | src/main/java/org/games/solitaire/Solver.java:168-204 | the pruning, marking and sweep compute Pruned, with the kept stack of KeptStack |
| Solving.Solver.SearchAll | src/main/java/org/games/solitaire/Solver.java:206-212 | the loop over the stack, breaking on found, computes ExpandAll |
| Solving.Solver.PruneAndMark | src/main/java/org/games/solitaire/Solver.java:171-193 | the stack becomes Kept of the frontier, and the table the frontier's chains marked in order |
| Solving.Solver.KeepAndMark | src/main/java/org/games/solitaire/Solver.java:173-193 | the loop over the frontier keeps exactly Kept of it, and marks the chains of the kept entries in order |
| Solving.Solver.MarkAncestors | src/main/java/org/games/solitaire/Solver.java:183-192 | the walk, updating one value at a time, marks exactly Chain of the entry |
| Solving.Solver.DeleteUnmarked | src/main/java/org/games/solitaire/Solver.java:195-201 | the iterator removal leaves exactly Sweep of the table, whatever the iteration order |
| Solving.Solver.Search | src/main/java/org/games/solitaire/Solver.java:250-280 | search computes Scan of its entry's move groups |
| Solving.Solver.Backtrack | src/main/java/org/games/solitaire/Solver.java:282-309 | backtrack appends the walk's lines to the solution, replaces the scores and warning with the walk's, and for a depth-0 entry only resets them |

## Left out

- The command-line parsing (JCommander), the Logger, `showall` and the log lines are not modelled, because they have no effect on the search. That covers the usage text, the `loscore`/`hiscore` values, `cnt`, `lvl`, `beforesize`/`aftersize` and the statistics dump.
- The `System.exit(1)` for deal number 0 is the outcome `UsageError`, with nothing done.
- The `FileWriter` I/O is not modelled. An upload is the record `Solving.Upload`: the file (`upload.txt` or the number `gameno/500`), the caption and the moves, which are what is written. It also carries the reversed scores, which the source writes only to the log. The field `uploads` collects these records. The text formatting of lines (`~`, `\r\n`, `%03d`) is left out.
- `Tableau`, `Entry`, `Stats` and `Move` are not part of this model. Their results are the parameters of `BeamSearch.Game` and `Solver.deal`/`Solver.layout`:
  - dealing and parsing;
  - the move groups with play and autoplay;
  - the heuristic and the foundation cells;
  - undo, the key of a position, notation;
  - `findMidScores`.
- `UndoInverts` and `GoalOfKey` are assumed of those parameters and not proved. The hard-coded layouts are represented by the single `layout` root.
- A freshly built entry value has level 0, depth 0 and no move group, as Java's field defaults give (`Entry.Value` is not part of this model). The root entry relies on this, since the source never sets its depth. So does a goal reached at a key already in the table: `backtrack` walks from a fresh depth-0 value and records nothing.
- BeamSearch.ExpandAllSolution: does not say which of the two outcomes of a goal occurs (the walk from a goal entry, or nothing for a known key), because without `GoalOfKey` both can happen; BeamSearch.ExpandAllSolves shows it is the walk under `GoalOfKey` with an unsolved root.
- BeamSearch.CycleExpands: does not say which of the two outcomes of a goal occurs (the walk from a goal entry, or nothing for a known key), because without `GoalOfKey` both can happen; BeamSearch.ExpandedSolves shows it is the walk under `GoalOfKey` with an unsolved root.
- BeamSearch.CycleBacktracked: does not say which of the two outcomes of a goal occurs (the walk from a goal entry, or nothing for a known key), because without `GoalOfKey` both can happen; BeamSearch.CycleSolves shows it is the walk under `GoalOfKey` with an unsolved root.
- BeamSearch.DealBacktracked: does not say which of the two outcomes of a goal occurs (the walk from a goal entry, or nothing for a known key), because without `GoalOfKey` both can happen; BeamSearch.DealSolves shows it is the walk under `GoalOfKey` with an unsolved root.
- BeamSearch.DealSolution: says what a nonempty solution is, but not that a goal found gives a nonempty solution, because a goal at a known key records nothing; BeamSearch.DealFindsSolution proves it under `GoalOfKey` with an unsolved root.
- Solving.DealUploads: ties the upload to a goal being found only under `GoalOfKey` with an unsolved root; in general it ties the upload to a nonempty solution, as the test `solution.size() > 0` does.
- Solving.Solver.MarkAncestors: marks a working copy of the table rather than the field `position`. Solving.Solver.KeepAndMark passes the copy along the frontier, and Solving.Solver.PruneAndMark stores it back. The source sets `value.level` in place through the map. Nothing reads the table in between, so the resulting table is the same.
- Canonical keys and their hashing are the type parameter `K`.
- The 32-bit range of `gameno` is not modelled, so `++gameno` never wraps. The card codes use two's complement only through `& 15`, which `Expansion.Rank` states as the non-negative remainder modulo 16.
- The iteration order of the `HashMap` in the sweep is not modelled: `Solver.DeleteUnmarked` removes keys in arbitrary order and is proved to give the same filter for every order.
- `solutionScores` is `null` until the first `backtrack`. Before that it is modelled as the empty list. It is read only after a solution is found, and so only after a `backtrack`.
- A `blocksolve` of 0 makes `++gameno % blocksolve` throw `ArithmeticException` after the first deal is published. This is the outcome `DivisionByZero`. The exception's propagation to `main` is not modelled.
