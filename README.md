# Minesweeper inference core in Dafny

This project models the two Minesweeper solvers of the repository and proves
properties about them. Each solver keeps a knowledge base of *sentences* about
covered cells. On each update it:

- reads the new board;
- turns every newly revealed number into a sentence;
- derives new sentences from pairs of known ones;
- marks the cells it can prove to be mines or safe;
- hands the safe cells back to the caller, or a random covered cell when none is known.

A board is a grid of `height` rows and `width` columns. Cell `(x, y)` has the
linear index `y * width + x`. A board cell holds either a revealed count
(0 to 8) or the covered marker:

- `8` in `src/solver/solver.ts` (the interval solver);
- `-1` in `src/solver/simple-solver.ts` (the exact solver).

Mines a solver has deduced live in a `width × height` boolean grid, modelled
as an `array2<bool>`. Safe cells are a set of linear indices.

Modules:

- `Wrappers`: `Option` and `Result`.
- `Board`: coordinates and the index round trip, plus grid scans shared by both solvers:
  - the set of covered unmarked cells;
  - the choice of a guess;
  - the conversion of a set of indices to coordinates;
  - the neighbours of a cell.

  The source's assertions become the `Error` result `RevealedCellChanged` or
  `Inconsistent`.
- `IntervalSentence`: the sentence value of `solver.ts`, which says "between
  `lower` and `upper` of these `positions` are mines". It also has every
  operation on that value: combining, subtracting, intersecting, deriving new
  sentences from a pair, and reducing against what is known.
- `IntervalKnowledge`: the interval solver's knowledge base as a value. Pure
  functions say what adding a list of sentences (`AddAll`), forward chaining
  (`Chained`), `cleanup` (`Rebuilt`) and the rounds of an update (`Rounds`)
  make of the sentences and the facts, and lemmas prove each of them sound.
- `IntervalSolver`: the `Solver` class of `solver.ts`. Its fields are the board
  `cells`, the `mines` grid, the `safes` set and the `knowledge` sequence, and
  its methods update them in place. Each method is proved to end in the state
  the matching `IntervalKnowledge` function gives.
- `ExactSolver`: `simple-solver.ts`. It holds:
  - `class Sentence`: a mutable cell set with an exact mine count, with the
    in-place `clean`;
  - `class SimpleSolver`;
  - the value `Claim`, which specifies a sentence's state.

  Forward chaining is specified by the pure function `Deductions` over the list
  of claims. The method is proved to build exactly those sentences, and
  `Deductions` is proved sound and complete. Adding sentences, `cleanup`,
  `cleanKnowledgeBase` and the rounds of `update` are specified on values by
  `Admit`, `AdmitAll`, `Cycle` and `Rounds` over a `Tally` (claims, mines,
  safes and the two flags), and the methods are proved to reach those states.

The meaning of a sentence is given by `Holds(a, s)`: the sentence agrees with
the set `a` of cells that really are mines. The soundness lemmas are stated
step by step: each operation, given a mine set that satisfies its inputs (the
sentences it adds and the mines and safes known when it starts), succeeds and
produces sentences, mines and safes that the same set satisfies. The lemmas
about the rounds (`IntervalKnowledge.RoundsSound`, `ExactSolver.RoundsSound`)
chain those steps over the rounds of an update. `IntervalSolver.Solver.OutcomeSound`
and `ExactSolver.SimpleSolver.UpdateSound` chain them over a whole update:
re-adding the old knowledge base, the sentences of the newly revealed cells
(`NewsFromSound` and `ExactSolver.NewClaimsSound`) and the rounds. Both assume a
mine set that satisfies the state the update starts from and makes every number
on the new board true.

## Model

| member | source | states |
|---|---|---|
| Board.NumToCoord | src/solver/solver.ts:20-25 | the coordinate of an index lies inside the row width, and converting it back gives the same index |
| Board.NumToCoordInGrid | src/solver/simple-solver.ts:20-25 | every index of the board names a cell inside the grid |
| Board.CoordToNumInGrid | src/solver/solver.ts:27-29 | for `CoordToNum` (`coordToNum`): a cell inside the grid has an index on the board that converts back to the same cell |
| Board.CoordToNumInjective | src/solver/simple-solver.ts:27-29 | two cells of the grid with the same index are the same cell |
| Board.MarkMines | src/solver/simple-solver.ts:181-186 | the mine grid afterwards marks the old mines plus exactly the given cells |
| Board.IsFinished | src/solver/solver.ts:267-276 | the game counts as finished exactly when no covered cell is left that is not a known mine |
| Board.PickUnresolved | src/solver/solver.ts:281-308 | the chosen cell is covered, not a known mine, and is the one at rank `seed % count` in index order among such cells |
| Board.CoordsOf | src/solver/solver.ts:255 | the coordinates of a set of indices, each cell exactly once, with no other cells |
| IntervalSentence.New | src/solver/solver.ts:316-323 | a sentence is built exactly when `0 <= lower <= upper <= |positions|`, which is what the constructor asserts |
| IntervalSentence.OfCount | src/solver/solver.ts:325-327 | an exact-count sentence exists when the count fits, and holds of a mine set exactly when that many of its positions are mines |
| IntervalSentence.PositionDifference | src/solver/solver.ts:359-367 | the positions of the first set not in the second; together with the intersection they split the first set |
| IntervalSentence.PositionIntersection | src/solver/solver.ts:372-380 | exactly the positions common to both sets |
| IntervalSentence.TrivialIffAlwaysHolds | src/solver/solver.ts:415-417 | for `IsTrivial` (`isTrivial`): a sentence is trivial exactly when every mine set whatsoever satisfies it |
| IntervalSentence.IsCompeting | src/solver/solver.ts:422-429 | two sentences compete exactly when they talk about the same positions |
| IntervalSentence.Equals | src/solver/solver.ts:500-504 | equal positions and bounds, which is equality of the sentences |
| IntervalSentence.Combine | src/solver/solver.ts:434-438 | merging two bounds on the same positions fails exactly when the intervals do not overlap; otherwise the result is at least as tight as both |
| IntervalSentence.CombineSound | src/solver/solver.ts:434-438 | if both sentences on the same positions hold, their combination exists and holds |
| IntervalSentence.CombineWithNothingNew | src/solver/solver.ts:493-495 | for `IsSomethingNewWith` (`isSomethingNewWith`): a competing sentence that brings nothing new leaves the known one unchanged, and one that brings news changes it |
| IntervalSentence.SureMines | src/solver/solver.ts:470-476 | positions are sure mines only when the lower bound is the full size |
| IntervalSentence.SureMinesAreMines | src/solver/solver.ts:470-476 | every sure mine of a true sentence is a mine |
| IntervalSentence.SureSafes | src/solver/solver.ts:481-487 | positions are sure safes only when the upper bound is zero |
| IntervalSentence.SureSafesAreSafe | src/solver/solver.ts:481-487 | no sure safe of a true sentence is a mine |
| IntervalSentence.Subtract | src/solver/solver.ts:335-341 | the bounds inferred for the cells only in the first sentence form a well-formed sentence on exactly those cells |
| IntervalSentence.SubtractSound | src/solver/solver.ts:335-341 | if both sentences hold, the subtraction exists and holds |
| IntervalSentence.Intersection | src/solver/solver.ts:349-354 | the bounds inferred for the shared cells form a well-formed sentence on exactly the shared cells |
| IntervalSentence.IntersectionSound | src/solver/solver.ts:349-354 | if both sentences and both differences hold, the intersection exists and holds |
| IntervalSentence.KeepInformative | src/solver/solver.ts:398-408 | keeps exactly the non-trivial sentences among the three derived ones |
| IntervalSentence.NewSentences | src/solver/solver.ts:387-409 | disjoint sentences give nothing; otherwise there are at most three results, each well formed, not trivial, and on one difference or on the intersection |
| IntervalSentence.NewSentencesSound | src/solver/solver.ts:387-409 | from two true sentences, every derived sentence is true, and no inconsistency is reported |
| IntervalSentence.Reduce | src/solver/solver.ts:447-465 | the reduced sentence keeps exactly the positions still covered and not known; it fails exactly when the known mines, or the positions left, cannot meet the bounds |
| IntervalSentence.ReduceSound | src/solver/solver.ts:447-465 | reducing a true sentence with true facts succeeds and stays true |
| IntervalSentence.ReduceIdempotent | src/solver/solver.ts:447-465 | reducing a second time changes nothing |
| IntervalKnowledge.NotInMembers | src/solver/solver.ts:220-235 | leaving out the sentences already known keeps exactly the others, and no more of them |
| IntervalKnowledge.LearnSound | src/solver/solver.ts:237-246 | recording the sure mines and safes of a true sentence keeps the facts true of the mine set |
| IntervalKnowledge.FirstCompeting | src/solver/solver.ts:173-185 | the index of the first entry over the same positions, or the length when there is none |
| IntervalKnowledge.Place | src/solver/solver.ts:173-188 | placing a sentence keeps every entry well formed and the covered cells unchanged |
| IntervalKnowledge.Tightened | src/solver/solver.ts:174-183 | tightening an entry keeps every entry well formed and the covered cells unchanged |
| IntervalKnowledge.Narrowed | src/solver/solver.ts:179-181 | the narrowed combination is well formed, and the knowledge and covered cells stay as they were |
| IntervalKnowledge.PlaceSound | src/solver/solver.ts:173-188 | placing a true sentence in a state a mine set satisfies succeeds, and the set satisfies the result |
| IntervalKnowledge.NoteGrows | src/solver/solver.ts:167 | recording a sentence over undecided cells only grows the facts, and the flag says whether they grew |
| IntervalKnowledge.NarrowedShape | src/solver/solver.ts:179-181 | narrowing only grows the facts and keeps the combination's positions |
| IntervalKnowledge.TightenedShape | src/solver/solver.ts:174-183 | tightening keeps the length, and a changed entry only loses positions |
| IntervalKnowledge.PlaceShape | src/solver/solver.ts:173-188 | placing either appends the sentence, which then competes with no entry, or keeps the length and only narrows entries |
| IntervalKnowledge.AddStep | src/solver/solver.ts:161-189 | adding one sentence keeps every entry well formed and the covered cells unchanged |
| IntervalKnowledge.AddStepSound | src/solver/solver.ts:161-189 | adding a true sentence to a state a mine set satisfies succeeds, and the set satisfies the result |
| IntervalKnowledge.AddStepShape | src/solver/solver.ts:161-189 | adding one sentence appends at most one informative entry inside its positions that competes with none, or only narrows entries; the facts only grow |
| IntervalKnowledge.AddAll | src/solver/solver.ts:159-191 | adding a list keeps every entry well formed and the covered cells unchanged |
| IntervalKnowledge.AddAllSound | src/solver/solver.ts:159-191 | adding true sentences to a state a mine set satisfies succeeds, and the set satisfies the result |
| IntervalKnowledge.ReduceAllMembers | src/solver/solver.ts:205-210 | reducing a list succeeds exactly when each reduction does, and then holds exactly the informative reductions, each settled |
| IntervalKnowledge.PairChainSound | src/solver/solver.ts:204-211 | what a pair of true sentences derives against true facts exists and holds |
| IntervalKnowledge.RowChainSucceeds | src/solver/solver.ts:200-212 | a row of chaining succeeds exactly when every pair in it does |
| IntervalKnowledge.RowChainMembers | src/solver/solver.ts:200-212 | a row of chaining holds exactly what its pairs derive |
| IntervalKnowledge.ChainFromMembers | src/solver/solver.ts:199-213 | the rows from one on succeed exactly when all their pairs do, and hold exactly what those pairs derive |
| IntervalKnowledge.ChainedMembers | src/solver/solver.ts:197-215 | chaining succeeds exactly when every ordered pair of distinct entries does, and then holds exactly what those pairs derive that is not already known |
| IntervalKnowledge.ChainedFresh | src/solver/solver.ts:214 | no chained sentence is already known |
| IntervalKnowledge.ChainedSound | src/solver/solver.ts:197-215 | chaining sentences that hold against true facts succeeds, and every result holds |
| IntervalKnowledge.ChainedSettled | src/solver/solver.ts:206-210 | every chained sentence is informative and already reduced against the facts |
| IntervalKnowledge.Rebuilt | src/solver/solver.ts:62-67 | rebuilding keeps every entry well formed and the covered cells unchanged |
| IntervalKnowledge.RebuiltSound | src/solver/solver.ts:62-67 | rebuilding a knowledge base that holds, against true facts, succeeds; the result holds and so do the sentences it derives |
| IntervalKnowledge.RoundsSound | src/solver/solver.ts:41-50 | the rounds of an update from a knowledge base and new sentences that hold, against true facts, never fail, and the end state holds |
| IntervalKnowledge.RoundsStep | src/solver/solver.ts:42-50 | a round the time budget allows is the adding, then the rebuilding, then the rounds after it; a failure of either step is the failure of the rounds |
| IntervalSolver.Solver.constructor | src/solver/solver.ts:13-18 | a fresh solver has every cell covered, no mines, no safes and no knowledge |
| IntervalSolver.Solver.IsCellFree | src/solver/solver.ts:131-136 | a cell is free exactly when it lies inside the grid and is covered |
| IntervalSolver.Solver.FreeAt | src/solver/solver.ts:131-136 | a cell's index is among the free cells exactly when the cell is covered |
| IntervalSolver.Solver.MineAtCell | src/solver/solver.ts:141-143 | for `IsSureMine` (`isSureMine`): a cell's index is a known mine exactly when the grid marks it |
| IntervalSolver.Solver.FreeCells | src/solver/solver.ts:131-136 | the covered cells of the grid, as indices, which are all on the board |
| IntervalSolver.Solver.CellSentenceSound | src/solver/solver.ts:101-123 | for a mine set that agrees with the known mines and the cell's count, the cell's sentence exists and holds |
| IntervalSolver.Solver.SentenceWithSound | src/solver/solver.ts:101-123 | for a mine set on covered cells containing the marked ones and agreeing with the cell's count, the sentence built from the cell's covered neighbours exists and holds |
| IntervalSolver.Solver.ScanComplete | src/solver/solver.ts:104-117 | the 3×3 scan collects exactly the covered neighbours; the result fails exactly when the count left does not fit |
| IntervalSolver.Solver.ScanBlockCell | src/solver/solver.ts:106-114 | one neighbour visited: the positions gain it when it is covered and not a mine, and the count drops when it is a mine |
| IntervalSolver.Solver.ScanBlockRow | src/solver/solver.ts:105-116 | one row of neighbours visited, with the same bookkeeping |
| IntervalSolver.Solver.GetCellSentence | src/solver/solver.ts:101-123 | returns the cell's sentence as specified by the neighbour scan |
| IntervalSolver.Solver.CreateNewSentences | src/solver/solver.ts:75-93 | returns `NewsFrom`, the sentences of newly revealed cells in row-major order; it fails exactly when a revealed cell changed or a new cell's count is inconsistent, and otherwise holds exactly the non-trivial sentences of newly revealed cells |
| IntervalSolver.Solver.RowSentences | src/solver/solver.ts:78-90 | the same for one row, kept as a prefix of `NewsFrom`; a failure there is the failure of the whole board |
| IntervalSolver.Solver.ScanAt | src/solver/solver.ts:79-89 | one cell of the scan, kept as a prefix of `NewsFrom`; a failure is the failure of the whole board |
| IntervalSolver.Solver.CellSentences | src/solver/solver.ts:79-89 | for one cell: fails when a revealed cell changed or a new cell's count does not fit; otherwise appends exactly `CellNews`, the cell's sentence when it is newly revealed and not trivial |
| IntervalSolver.Solver.NewsFromSound | src/solver/solver.ts:75-93 | on a board whose counts are true of a mine set that keeps the old revealed cells, the new sentences never fail and all hold |
| IntervalSolver.Solver.CellNewsSound | src/solver/solver.ts:79-89 | the same for one cell, and the scan from that cell on |
| IntervalSolver.Solver.UpdateSafesAndMinesFromSentence | src/solver/solver.ts:237-246 | adds exactly the sentence's sure mines and sure safes, and reports whether there were any |
| IntervalSolver.Solver.FindCompeting | src/solver/solver.ts:173-185 | the index of the first known sentence on the same positions, or the end when there is none |
| IntervalSolver.Solver.PlaceSentence | src/solver/solver.ts:173-188 | ends in the state `Place` gives: appended when nothing competes, otherwise the first competing entry tightened |
| IntervalSolver.Solver.Tighten | src/solver/solver.ts:174-183 | ends in the state `Tightened` gives: unchanged when the sentence brings nothing new, otherwise the entry replaced by the reduced combination |
| IntervalSolver.Solver.Narrow | src/solver/solver.ts:179-181 | ends in the state `Narrowed` gives: the combination reduced, recorded, and reduced again |
| IntervalSolver.Solver.Record | src/solver/solver.ts:167 | while nothing was recorded yet the mines and safes grow by exactly the sentence's sure mines and sure safes, and afterwards they stay put; the result says whether anything was recorded so far, which is `Note` on values |
| IntervalSolver.Solver.AddSentence | src/solver/solver.ts:161-189 | ends in the state `AddStep` gives, failing exactly when it does: the twice-reduced sentence is dropped when trivial, appended when nothing competes with it, or combined into the first competing entry; mines and safes only grow |
| IntervalSolver.Solver.AddSentences | src/solver/solver.ts:159-191 | ends in the state `AddAll` gives for the sentences in order, reports exactly whether mines or safes grew, and keeps every mine set that satisfies the old state and the sentences a model |
| IntervalSolver.ChainPair | src/solver/solver.ts:204-211 | exactly the informative reductions of what `newSentences` derives from the pair, each settled against the facts; for a mine set consistent with the facts and both sentences it succeeds and every result holds |
| IntervalSolver.Solver.ForwardChain | src/solver/solver.ts:197-215 | returns `Chained` of the knowledge: for every ordered pair of distinct entries, the informative reductions of what they derive, less what is already known; each holds of every model, and a model makes it succeed |
| IntervalSolver.Solver.RemoveDuplicateSentences | src/solver/solver.ts:220-235 | keeps the sentences that are not already known, in order |
| IntervalSolver.Solver.Cleanup | src/solver/solver.ts:62-67 | ends in the state `Rebuilt` gives: the knowledge re-added to an empty base against the same facts, with the sentences chaining derives from it and whether mines or safes grew |
| IntervalSolver.Solver.CleanKnowledgeBase | src/solver/solver.ts:54-60 | installs the new board, and the knowledge and facts are those of adding the old knowledge to an empty base with no safes, as `AddAll` gives; it fails exactly when that does |
| IntervalSolver.Solver.RunRounds | src/solver/solver.ts:41-50 | ends in the state `Rounds` gives from the current knowledge, facts and new sentences, failing exactly when it does |
| IntervalSolver.Solver.OutcomeSound | src/solver/solver.ts:36-52 | an update on a board whose counts are true of a mine set that satisfies the old knowledge, contains the old proven mines still covered, and keeps the old revealed cells, never fails, and the set satisfies the end state |
| IntervalSolver.Solver.IsGameFinished | src/solver/solver.ts:267-276 | finished exactly when no covered cell is left that is not a known mine |
| IntervalSolver.Solver.RandomCell | src/solver/solver.ts:281-308 | returns a covered cell that is not a known mine, the one at rank `seed % count` |
| IntervalSolver.Solver.GetCellsToOpen | src/solver/solver.ts:253-261 | every safe cell once when there are safes; otherwise one random unresolved cell; nothing when the game is finished |
| IntervalSolver.Solver.Update | src/solver/solver.ts:36-52 | installs the board and ends in the state `Outcome` gives (clean, create the new sentences, run the rounds), failing exactly when it does, and a success means no revealed cell changed; the moves are the safes each once, or one unresolved cell, or nothing |
| IntervalSolver.ReduceEach | src/solver/solver.ts:205-210 | returns `ReduceAll`: fails exactly when one reduction fails, otherwise the informative reductions in order |
| IntervalSolver.Candidates | src/solver/solver.ts:199-213 | returns what every ordered pair of distinct entries derives, row by row, as `ChainFrom` gives |
| IntervalSolver.ChainRow | src/solver/solver.ts:200-212 | appends what one entry derives with each other entry, as `RowChain` gives |
| IntervalSolver.ChainAt | src/solver/solver.ts:201-211 | one pair of that row: appends what it derives, or skips the entry itself |
| ExactSolver.DeductionSplits | src/solver/simple-solver.ts:310-318 | a deduction exists exactly when one cell set contains the other; it is the difference of cells and of counts |
| ExactSolver.DeductionSound | src/solver/simple-solver.ts:310-318 | a deduction from two true sentences is well formed and true |
| ExactSolver.AllMines | src/solver/simple-solver.ts:364-370 | when the count equals the number of cells, all of them are mines |
| ExactSolver.NoMines | src/solver/simple-solver.ts:375-381 | when the count is zero, none of the cells is a mine |
| ExactSolver.DeductionsDerived | src/solver/simple-solver.ts:213-227 | every chained sentence is the deduction of two distinct known sentences |
| ExactSolver.DeductionsComplete | src/solver/simple-solver.ts:213-227 | every deduction of two distinct known sentences is among the chained ones |
| ExactSolver.ChainingSound | src/solver/simple-solver.ts:213-227 | a knowledge base that holds of some mine set never reports an inconsistency, and every chained sentence holds of that set |
| ExactSolver.ScrubSound | src/solver/simple-solver.ts:349-359 | cleaning a true sentence against true mines and safes keeps it true and leaves none of those cells in it |
| ExactSolver.CoversSome | src/solver/simple-solver.ts:102-109 | some claim covers a cell set exactly when one of them has exactly those cells |
| ExactSolver.AdmitAllAt | src/solver/simple-solver.ts:173-177 | the fold from one sentence on is that sentence's step, then the fold after it |
| ExactSolver.AdmitCases | src/solver/simple-solver.ts:77-97 | the three cases of `addSentence` on a cleaned sentence: all mines, no mines, or appended exactly when no known sentence has the same cells |
| ExactSolver.AdmitFlags | src/solver/simple-solver.ts:175-176 | the flags of a step are the old flags or-ed with what the step itself reports |
| ExactSolver.AdmitAllFlags | src/solver/simple-solver.ts:174-178 | mines and safes only grow; without the derived flag they are unchanged, and without the added flag the knowledge is |
| ExactSolver.AdmitSound | src/solver/simple-solver.ts:77-97 | adding a true sentence keeps a state that agrees with a mine set agreeing with it |
| ExactSolver.AdmitAllSound | src/solver/simple-solver.ts:170-179 | adding true sentences keeps a state that agrees with a mine set agreeing with it: proven mines are mines, safe cells are safe, every claim holds |
| ExactSolver.AdmitAllGrows | src/solver/simple-solver.ts:170-179 | the fold only extends the knowledge and grows the mines and safes, and keeps the known cell sets pairwise different |
| ExactSolver.RoundsStep | src/solver/simple-solver.ts:47-52 | a round the fuel allows is one `Cycle`, then the rounds after it over the chained sentences, or a failure when chaining breaks |
| ExactSolver.RoundsSound | src/solver/simple-solver.ts:47-52 | from a state that agrees with a mine set and true new sentences, the rounds never fail and end in a state that still agrees with it |
| ExactSolver.CycleSound | src/solver/simple-solver.ts:48-51 | one round from an agreeing state and true new sentences ends agreeing, and its chaining succeeds with true sentences |
| ExactSolver.Sentence.constructor | src/solver/simple-solver.ts:296-301 | the sentence holds the given cells and count |
| ExactSolver.Sentence.Deduce | src/solver/simple-solver.ts:310-318 | fails exactly when the deduction would have a count outside `0..size`; otherwise returns a fresh sentence carrying the deduction, or none when neither set contains the other |
| ExactSolver.Sentence.IsSubset | src/solver/simple-solver.ts:323-330 | true exactly when the first cell set is contained in the second |
| ExactSolver.Sentence.Difference | src/solver/simple-solver.ts:335-343 | exactly the cells of the first set not in the second |
| ExactSolver.Sentence.Clean | src/solver/simple-solver.ts:349-359 | the known mines and safes leave the cell set, and the count drops by the mines removed |
| ExactSolver.Sentence.GetSureMines | src/solver/simple-solver.ts:364-370 | returns the cells exactly when the count equals their number, and they are mines in every mine set the sentence agrees with |
| ExactSolver.Sentence.GetSureSafes | src/solver/simple-solver.ts:375-381 | returns the cells exactly when the count is zero, and none of them is a mine in any mine set the sentence agrees with |
| ExactSolver.Sentence.Equals | src/solver/simple-solver.ts:387-390 | true exactly when the cell sets are equal; the counts are not compared |
| ExactSolver.Sentence.IsTrivial | src/solver/simple-solver.ts:396-398 | trivial exactly when the cell set is empty, and such a sentence holds exactly when its count is zero |
| ExactSolver.SimpleSolver.constructor | src/solver/simple-solver.ts:12-18 | a fresh solver has every cell covered, no mines, no safes and no knowledge |
| ExactSolver.SimpleSolver.MineCellAt | src/solver/simple-solver.ts:31-34 | for `IsSureMine` (`isSureMine`): a cell is among the known mines exactly when the mine grid marks it |
| ExactSolver.SimpleSolver.SafeCellAt | src/solver/simple-solver.ts:36-39 | for `IsSureSafe` (`isSureSafe`): a cell is known safe exactly when it is in the safe set or already revealed |
| ExactSolver.SimpleSolver.SafeCells | src/solver/simple-solver.ts:36-39 | the known safe cells are cells of the board |
| ExactSolver.SimpleSolver.CleanedSound | src/solver/simple-solver.ts:349-359 | cleaning a true sentence with true facts keeps it true, and leaves no known mine or safe in it |
| ExactSolver.ClaimAtSound | src/solver/simple-solver.ts:138-162 | for a mine set that agrees with the view's proven mines and known safe cells and makes the cell's number true, the cell's sentence is well formed and holds |
| ExactSolver.SimpleSolver.ScanNeighbour | src/solver/simple-solver.ts:143-155 | one neighbour visited: the cells gain it when it is neither mine nor safe, and the count drops when it is a mine |
| ExactSolver.SimpleSolver.ScanNeighbourRow | src/solver/simple-solver.ts:142-155 | one row of neighbours visited, with the same bookkeeping |
| ExactSolver.SimpleSolver.ScanNeighbours | src/solver/simple-solver.ts:141-156 | the scan yields the unknown neighbours and the count less the known mines around the cell |
| ExactSolver.SimpleSolver.GetCellSentence | src/solver/simple-solver.ts:138-162 | fails exactly when the count left does not fit the cells left; otherwise returns a fresh sentence of the cell |
| ExactSolver.SimpleSolver.CreateNewSentences | src/solver/simple-solver.ts:115-136 | fails exactly when a revealed cell changed or a new cell's sentence is ill formed (`ScanPasses`); otherwise returns fresh distinct objects whose values are exactly `NewClaims`: one sentence per newly revealed cell with unknown neighbours, in row-major order |
| ExactSolver.SimpleSolver.RowSentences | src/solver/simple-solver.ts:118-133 | one row of the scan: a failure there is a failure for the whole board; on success the sentences so far are `NewClaims` up to the end of the row, in order |
| ExactSolver.NewClaimsFromAll | src/solver/simple-solver.ts:117-133 | the row-major fold from a cell on holds the sentence of every newly revealed cell at or after it that has unknown neighbours |
| ExactSolver.NewClaimsFromNew | src/solver/simple-solver.ts:117-133 | every sentence in the row-major fold is the sentence of some newly revealed cell, over some cells |
| ExactSolver.NewClaimsBatch | src/solver/simple-solver.ts:115-136 | the whole fold is a first batch (`FirstBatch`): the new sentences are exactly those of newly revealed cells, by membership |
| ExactSolver.NewClaimsSound | src/solver/simple-solver.ts:115-136 | for a mine set that agrees with the proven mines and known safe cells and makes every number on the board true, every newly revealed cell's sentence is well formed and every sentence of the row-major first batch holds |
| ExactSolver.SimpleSolver.NewCellSentence | src/solver/simple-solver.ts:119-132 | for one cell: fails on a changed revealed cell or an ill-formed sentence, and yields a sentence exactly for a newly revealed cell with unknown neighbours |
| ExactSolver.SimpleSolver.AddMines | src/solver/simple-solver.ts:181-186 | the known mines grow by exactly the given cells; the knowledge is left as it is |
| ExactSolver.SimpleSolver.AddSafes | src/solver/simple-solver.ts:188-192 | the safe set grows by exactly the given cells |
| ExactSolver.SimpleSolver.ContainsSentence | src/solver/simple-solver.ts:102-109 | true exactly when a known sentence has the same cells, which is `Covers` of the knowledge's claims |
| ExactSolver.SimpleSolver.AddSentence | src/solver/simple-solver.ts:77-97 | cleans the sentence and ends in the state `Admit` gives: all mines go to the mines, no mines to the safes, any other new cell set is appended, and a known cell set is dropped |
| ExactSolver.SimpleSolver.CleanAside | src/solver/simple-solver.ts:78 | cleans a sentence outside the knowledge base to `Scrub` of it, and leaves the rest of the state as it is |
| ExactSolver.SimpleSolver.Record | src/solver/simple-solver.ts:79-96 | ends in the state `Settle` gives for the cleaned sentence: the same three cases |
| ExactSolver.SimpleSolver.Keep | src/solver/simple-solver.ts:91-96 | appends the sentence exactly when no known sentence has the same cells, which is `Settle` for a sentence that proves nothing |
| ExactSolver.SimpleSolver.AddSentences | src/solver/simple-solver.ts:170-179 | ends in the state `AdmitAll` gives for the sentences in order, and reports whether any of them derived mines or safes or was appended |
| ExactSolver.SimpleSolver.AddEach | src/solver/simple-solver.ts:173-177 | ends in the state `AdmitAll` gives, with its two flags: whether any sentence derived mines or safes and whether any was appended |
| ExactSolver.SimpleSolver.AddInOrder | src/solver/simple-solver.ts:173-177 | the loop over the sentences, ending in the state `AdmitAll` gives |
| ExactSolver.SimpleSolver.Cleanup | src/solver/simple-solver.ts:199-208 | ends in the state `AdmitAll` gives for the old knowledge re-added to an empty base, returns exactly `Deductions` of it as fresh distinct sentences, fails exactly when a deduction is ill formed, and reports whether mines or safes were derived |
| ExactSolver.SimpleSolver.Readd | src/solver/simple-solver.ts:200-206 | re-adds the knowledge to an empty base, ending in the state `AdmitAll` gives, and reports whether mines or safes were derived |
| ExactSolver.SimpleSolver.ForwardChain | src/solver/simple-solver.ts:213-227 | succeeds exactly when every pairwise deduction is well formed, and then returns exactly the pairwise deductions in order, as fresh objects |
| ExactSolver.SimpleSolver.ChainRow | src/solver/simple-solver.ts:216-224 | the deductions of one known sentence with all the others, or the failure of one of them |
| ExactSolver.SimpleSolver.CleanKnowledgeBase | src/solver/simple-solver.ts:61-70 | installs the new board and ends in the state `AdmitAll` gives for the old knowledge re-added to an empty base with no safes |
| ExactSolver.SimpleSolver.Reset | src/solver/simple-solver.ts:62-65 | installs the new board with no safes |
| ExactSolver.SimpleSolver.Round | src/solver/simple-solver.ts:48-51 | one pass of the loop of `update`, ending in the state `Cycle` gives, and returns exactly `Deductions` of it, failing exactly when a deduction is ill formed |
| ExactSolver.SimpleSolver.NextRound | src/solver/simple-solver.ts:48-51 | the same pass, stated as the step from the rounds with fuel left to the rounds after it |
| ExactSolver.SimpleSolver.RunRounds | src/solver/simple-solver.ts:46-52 | the loop of `update` succeeds exactly when `Rounds` does, and ends where `Rounds` ends |
| ExactSolver.SimpleSolver.IsGameFinished | src/solver/simple-solver.ts:249-258 | finished exactly when no covered cell is left that is not a known mine |
| ExactSolver.SimpleSolver.RandomCell | src/solver/simple-solver.ts:263-289 | returns a covered cell that is not a known mine, the one at rank `seed % count` |
| ExactSolver.SimpleSolver.GetCellsToOpen | src/solver/simple-solver.ts:235-243 | `ToOpen`: every safe cell once with no warning; otherwise one covered cell that is not a known mine, with the warning; nothing when the game is finished |
| ExactSolver.SimpleSolver.Update | src/solver/simple-solver.ts:41-54 | installs the board; succeeds exactly when no revealed cell changed, every new cell's sentence is well formed and `Rounds` from the cleaned knowledge succeeds; the rounds run over `NewClaims`, the sentences of newly revealed cells in row-major order, and on success the knowledge, mines and safes are where `Rounds` from the cleaned knowledge ends, and the moves are as `ToOpen` says |
| ExactSolver.SimpleSolver.Infer | src/solver/simple-solver.ts:45-53 | after the board is installed: succeeds exactly when the scan passes and `Rounds` over `NewClaims` succeeds; then no revealed cell changed, the end state is where `Rounds` ends, and the moves are as `ToOpen` says |
| ExactSolver.SimpleSolver.UpdateSound | src/solver/simple-solver.ts:41-54 | for a mine set that models the state, puts no mine on a revealed cell and makes every number on the new board true: the scan of `update` fails only where a revealed cell changed, the rounds over the first batch never fail, and the set agrees with the state they end in |
| ExactSolver.SimpleSolver.Conclude | src/solver/simple-solver.ts:46-53 | runs the rounds from the given new sentences, succeeds exactly when `Rounds` does, ends where `Rounds` ends, and answers as `ToOpen` says |

## Left out

- `src/browser/browser.ts`, `src/codingame/codingame.ts`, `src/index.ts`, `src/appconfig.ts` and `combiner.py` are not part of this model. They are board input and output and the build.
- The test files `solver.spec.ts` and `simple-solver.spec.ts` are not modelled: they are fixed boards, not properties.
- The wall-clock time limit of `solver.ts` `update` becomes the `fuel` parameter, a bound on the rounds. `simple-solver.ts` has no limit, so its loop gets `fuel` too, for termination. A round that runs out of fuel returns the moves known so far, as the time limit does. The specification functions `Rounds` (in `IntervalKnowledge` and in `ExactSolver`) take the same bound, so no statement is made about an update that would need more rounds than `fuel`.
- `Math.random` becomes the `seed` parameter. The random cell is the one at rank `seed % count` among the unresolved cells in index order.
- The iteration order of a `Set`, and so the order of `Array.from(safes)`, is not modelled. `CoordsOf` promises each safe cell exactly once, in some order.
- Console logging is left out.
- The source's `assert` statements become an `Error` result (`RevealedCellChanged`, `Inconsistent`) instead of a thrown exception.
- The board's dimensions are required to be positive, and a board passed to `update` to have those dimensions. The source does not check either.
- In `solver.ts` the covered marker is `8`, which is also a possible revealed count. A revealed 8 is treated as covered, as in the source.
- `solver.ts` `addSentences` evaluates `isKnowledgeAdded || updateSafesAndMinesFromSentence(...)` lazily. Once one sentence has produced news in a call, later sentences in that call do not mark mines or safes. `Record` models exactly this.
- In `simple-solver.ts`, `getSureMines` of a sentence whose cells became empty with count 0 returns the empty set. Such a sentence therefore counts as "derived" and is dropped, as in the source.
- The loops over the 3×3 neighbourhood, over rows, and over pairs in forward chaining are split into helper methods, one loop each (`ScanBlockCell`, `RowSentences`, `ChainRow`, `AddEach` and so on). Each helper has its own contract.
- IntervalSolver.Solver.Update: it does not restate the rank of the guessed cell under `seed`; `RandomCell` states it.
- ExactSolver.SimpleSolver.Update: it does not restate the rank of the guessed cell under `seed`; `RandomCell` states it.
- ExactSolver.SimpleSolver.GetCellsToOpen: it does not restate the rank of the guessed cell under `seed`; `RandomCell` states it.
