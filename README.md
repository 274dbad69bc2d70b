# Nurikabe and Sudoku solvers: a verified Dafny model

This project models two puzzle solvers of one repository.

**Nurikabe engine** (`sudoku/stl/nurikabe.cpp`). A rectangular board of cells is
unknown, white, black or numbered (a clue). Known cells of one colour that touch
form a region. A region remembers its member cells and its liberties (the unknown
cells next to it). `mark` turns an unknown cell white or black and fuses its region
with its neighbours' regions. A numbered region absorbs the other region, else the
bigger one does. Fusing two numbered regions, or marking a known cell, is a
contradiction. It is recorded in the situation report (`SitRep`), not thrown.

`solve` runs one step: the analyses from cheapest to dearest. They are complete
islands, single liberties, dual liberties, unreachable cells, potential pools,
contradiction detection, confinement and, when guessing, hypotheticals. The first
analysis that marks something ends the step. Hypotheticals copy the grid, mark a
cell in guessing order, and run the copy until it stops.

Modules:
- `NurikabeBoard`: coordinates, states, regions.
- `NurikabeInput`: which descriptions the constructor accepts, and how many black cells the solution has.
- `NurikabeRules`: what each island rule concludes from one region.
- `GuessOrder`: shuffle, distances and stable sort of `guessing_order`.
- `FloodFlags`: the flag array of `confined`.
- `Nurikabe`: class `Grid`, with its fields updated in place by methods.

The regions live in an arena `map<RegionId, Region>`. Each cell points to its
region through `owner`, which stands for the source's `shared_ptr`s. The grid
invariant `Valid()` says that the regions partition the known cells: pointers
and members agree, colours agree, and a region's liberties are exactly the
unknown cells next to one of its members.

**Sudoku solver** (`sudoku/Cell.h`, `sudoku/Grid.h`). Each of the 81 squares holds
a set of candidate digits. The set `{0}` marks a blank square. A single non-zero
digit marks a solved square. Class `SudokuCell.Cell` models the square.

Class `SudokuGrid.Grid` holds the squares in an `array2`. Its passes are
`initialise`, `remove_candidates`, the row, column and box passes, naked pairs,
hidden pairs, `solve` and `solve_by_guessing`. Each pass is a method with loops,
proved against functions on a board value (`SudokuBoard`): a `map` from positions
to candidate sets, read through the ghost function `Grid.Board()`.

## Model

| member | source | states |
|---|---|---|
| NurikabeBoard.Region.Number | sudoku/stl/nurikabe.cpp:116-127 | the number of a numbered region is positive |
| NurikabeBoard.Manhattan | sudoku/stl/nurikabe.cpp:934 | the taxicab distance is zero exactly for the same cell |
| NurikabeBoard.Neighbors | sudoku/stl/nurikabe.cpp:1178-1194 | for_valid_neighbors visits exactly the on-board cells sharing an edge with c |
| NurikabeBoard.NeighborOrder | sudoku/stl/nurikabe.cpp:1178-1194 | the neighbours in the order for_valid_neighbors visits them hold exactly the on-board cells sharing an edge with c |
| NurikabeInput.CheckInput | sudoku/stl/nurikabe.cpp:520-577 | a description is accepted iff width >= 1, height >= 1, there are width * height tokens and no clue sits below another; one token short is refused as a wrong count |
| NurikabeInput.CheckInputCorrected | sudoku/stl/nurikabe.cpp:566-577 | accepts exactly what CheckInput accepts that has no clue right next to another; it refuses with the same error as CheckInput whenever CheckInput refuses |
| NurikabeInput.HorizontalCluesAccepted | sudoku/stl/nurikabe.cpp:539-577 | the tokens 1, 2, 0 on a 3 by 1 board pass every check of the constructor although two clues sit side by side; the corrected check refuses them |
| NurikabeInput.ColumnMajorIsRowMajor | sudoku/stl/nurikabe.cpp:564-593 | adding up the clues column by column gives the row-by-row total |
| NurikabeInput.ColumnMajorIsClueSum | sudoku/stl/nurikabe.cpp:564-593 | the constructor's column-major sum of clues equals the sum of all tokens, so total black is area minus clue sum |
| NurikabeRules.GatherMember | sudoku/stl/nurikabe.cpp:655-661 | a cell is collected iff some region concludes it |
| NurikabeRules.FarCornerAdjacent | sudoku/stl/nurikabe.cpp:706-713 | the corner chosen for two diagonal liberties touches both of them |
| NurikabeRules.DualMarksOf | sudoku/stl/nurikabe.cpp:700-723 | for an island one short of its number with exactly two liberties, the rule marks the far corner of the pair iff they are diagonal and the corner is unknown, else nothing |
| NurikabeRules.TotalSizeRemove | sudoku/stl/nurikabe.cpp:1377-1385 | the total size of a set of regions does not depend on which region is counted first |
| NurikabeRules.SumSizes | sudoku/stl/nurikabe.cpp:1377-1385 | the size loop returns the total size of the regions |
| GuessOrder.StableSortCorrect | sudoku/stl/nurikabe.cpp:946-949 | the stable sort is a permutation, ordered by key, and keeps the input order among equal keys |
| GuessOrder.Draw | sudoku/stl/nurikabe.cpp:913-917 | a draw for bound n lies in [0, n) |
| GuessOrder.Shuffle | sudoku/stl/nurikabe.cpp:919 | random_shuffle returns a permutation of its input and consumes part of the generator stream |
| GuessOrder.PermutationUnique | sudoku/stl/nurikabe.cpp:919-949 | a permutation of a repetition-free sequence has no repetitions |
| GuessOrder.NearestWhite | sudoku/stl/nurikabe.cpp:925-939 | the distance starts at the cap and never exceeds it |
| GuessOrder.NearestWhiteIsNearest | sudoku/stl/nurikabe.cpp:925-939 | the distance is at most every white cell's distance, and is the cap or some white cell's distance |
| GuessOrder.MinDistance | sudoku/stl/nurikabe.cpp:930-939 | the loop over the white cells computes the nearest distance |
| GuessOrder.NearestStep | sudoku/stl/nurikabe.cpp:930-939 | one more white cell makes the nearest distance the smaller of the old one and that cell's distance |
| GuessOrder.Distances | sudoku/stl/nurikabe.cpp:925-940 | every cell's key becomes its nearest-white distance, cells unchanged and in place |
| GuessOrder.SortedDistances | sudoku/stl/nurikabe.cpp:946-949 | sorting distance keys orders the cells by distance to the nearest white cell |
| GuessOrder.OrderGuesses | sudoku/stl/nurikabe.cpp:913-957 | the order holds exactly the unknown cells, once each when given once, nearer to a white cell first |
| FloodFlags.Blank | sudoku/stl/nurikabe.cpp:1457 | a new flag array has every flag NONE |
| FloodFlags.OpenUnflagged | sudoku/stl/nurikabe.cpp:1551-1557 | cells of the set without a flag become open, every other flag is unchanged |
| FloodFlags.Start | sudoku/stl/nurikabe.cpp:1457-1474 | after the set-up, the flags are: verboten cells verboten, then the region's cells closed, then its liberties open |
| FloodFlags.FindOpen | sudoku/stl/nurikabe.cpp:1483-1493 | returns the first open cell in flat-index order, or reports that none is open |
| FloodFlags.Discard | sudoku/stl/nurikabe.cpp:1489 | the open cell loses its flag, nothing else changes |
| FloodFlags.Take | sudoku/stl/nurikabe.cpp:1547-1575 | the taken cells become closed, the unflagged cells around them open |
| Nurikabe.Primary | sudoku/stl/nurikabe.cpp:1287-1296 | the surviving region is a numbered one when there is one, else the bigger one, the first on a tie |
| Nurikabe.Absorb | sudoku/stl/nurikabe.cpp:1300-1301 | the survivor keeps its state and gets the union of both member sets and both liberty sets |
| Nurikabe.MarkSetKnown | sudoku/stl/nurikabe.cpp:1153-1158 | marking a set of on-board cells makes exactly those cells newly known |
| Nurikabe.HitsKnownStep | sudoku/stl/nurikabe.cpp:1231-1233 | marking one more cell meets a known cell iff that cell is known or an earlier one did |
| Nurikabe.ClashFreeProgress | sudoku/stl/nurikabe.cpp:1145-1159 | a process without contradiction that has cells to mark strictly increases the known cells |
| Nurikabe.MarkedGrows | sudoku/stl/nurikabe.cpp:1145-1159 | process only turns unknown cells, black ones of b and white ones of w |
| Nurikabe.MarkedOne | sudoku/stl/nurikabe.cpp:1145-1159 | processing a single unknown cell in one colour sets exactly that cell to that colour |
| Nurikabe.FuseKeepsConsistent | sudoku/stl/nurikabe.cpp:1261-1313 | fusing two regions of the same blackness keeps the regions a partition of the known cells |
| Nurikabe.TouchesUnion | sudoku/stl/nurikabe.cpp:1300-1301 | a cell touches the union of two member sets iff it touches one of them, so a fused region's liberties stay its unknown surroundings |
| Nurikabe.SetCellKeeps | sudoku/stl/nurikabe.cpp:1231-1250 | making an unknown cell known leaves it the only known cell without a region and the only liberty not unknown |
| Nurikabe.BlankBoard | sudoku/stl/nurikabe.cpp:532-533 | the initial board holds exactly the on-board cells, all unknown |
| Nurikabe.ClueNeighborsBlank | sudoku/stl/nurikabe.cpp:566-577 | in a description the corrected check accepts, no clue has a clue next to it |
| Nurikabe.ClueLibertyNumberedAsWritten | sudoku/stl/nurikabe.cpp:579-591 | on the tokens 1, 2, 0 (3 by 1), the cell right of the clue 1 is still unknown when the clue gets its region, so it becomes a liberty, and it is numbered 2 once the loops finish |
| Nurikabe.ClueStep | sudoku/stl/nurikabe.cpp:579-591 | visiting a clue cell numbers it and gives it a region of its own |
| Nurikabe.LoadedComplete | sudoku/stl/nurikabe.cpp:564-594 | after the loops the board holds exactly the clues, the regions are consistent, and each clue's region is that clue alone, numbered, with all its neighbours as liberties |
| Nurikabe.ClueRegion | sudoku/stl/nurikabe.cpp:1210-1221 | a loaded clue's region is the clue alone, in the clue's state, with exactly its on-board neighbours as liberties |
| Nurikabe.LoadCell | sudoku/stl/nurikabe.cpp:566-591 | one step of the constructor keeps its loop invariant and returns the cell's clue |
| Nurikabe.LoadColumn | sudoku/stl/nurikabe.cpp:565-593 | the inner loop builds column x and returns its clue sum |
| Nurikabe.LoadColumns | sudoku/stl/nurikabe.cpp:564-594 | after the outer loop every column is loaded, and the sum is that of all clues in column-major order |
| Nurikabe.LoadBoard | sudoku/stl/nurikabe.cpp:564-594 | on a description the corrected check accepts, the loops build a consistent board of the clues, each clue alone in a region with its neighbours as liberties, and total black = area minus clue sum |
| Nurikabe.GatherLiberties | sudoku/stl/nurikabe.cpp:651-730 | every cell an island rule concludes is an unknown cell of the board |
| Nurikabe.CollectComplete | sudoku/stl/nurikabe.cpp:655-661 | the loop collects the liberties of every numbered region at its number |
| Nurikabe.CollectSole | sudoku/stl/nurikabe.cpp:671-686 | the loop collects the single liberty of every region that must grow, black ones in b and the others in w |
| Nurikabe.SoleOf | sudoku/stl/nurikabe.cpp:674-685 | a region that must grow and has exactly one liberty gives that liberty, to the black marks when it is black and to the white marks otherwise; any other region gives nothing |
| Nurikabe.DualCorner | sudoku/stl/nurikabe.cpp:700-724 | the body computes the dual-liberty conclusion of one region |
| Nurikabe.CollectDual | sudoku/stl/nurikabe.cpp:697-726 | the loop collects the dual-liberty conclusion of every region |
| Nurikabe.FewerUnknown | sudoku/stl/nurikabe.cpp:982-986 | a board that only fills in unknown cells never has more unknown cells, and has fewer when it knows more |
| Nurikabe.Record | sudoku/stl/nurikabe.cpp:1559-1561 | without verboten cells, the consumed cell is recorded in the region's cache entry; otherwise the cache is unchanged |
| Nurikabe.CacheGrowsUnknown | sudoku/stl/nurikabe.cpp:1559-1561 | the cache records only unknown cells |
| Nurikabe.ColourSizeStep | sudoku/stl/nurikabe.cpp:1623 | counting one more region adds its size to its colour's total only |
| Nurikabe.Grid.UnknownNeighbors | sudoku/stl/nurikabe.cpp:1202-1208 | exactly the unknown on-board neighbours |
| Nurikabe.Grid.constructor | sudoku/stl/nurikabe.cpp:516-597 | on a description the corrected check accepts: a valid grid whose cells are the clues or unknown, each clue alone in a region whose liberties are its unknown neighbours, total black = area minus clue sum |
| Nurikabe.Grid.NeighborsUnknown | sudoku/stl/nurikabe.cpp:1210-1221 | a cell whose liberties are all its neighbours has only unknown neighbours |
| Nurikabe.Grid.AddRegion | sudoku/stl/nurikabe.cpp:1210-1221 | the cell gets a fresh region holding it and its unknown neighbours |
| Nurikabe.Grid.EraseLiberty | sudoku/stl/nurikabe.cpp:1241-1243 | every region loses the cell from its liberties, nothing else changes |
| Nurikabe.ErasedKeeps | sudoku/stl/nurikabe.cpp:1241-1243 | removing the cell from every liberty set keeps the region invariants and leaves only unknown liberties |
| Nurikabe.Grid.Mark | sudoku/stl/nurikabe.cpp:1223-1258 | marking a known cell is a contradiction that changes nothing else; otherwise the cell takes the colour and leaves every liberty set, every region without it is an old region minus that liberty, its region is made of it and the regions of its neighbours, and each same-blackness neighbour shares its region unless both are numbered (a contradiction); the grid stays valid |
| Nurikabe.Grid.MarkUnknown | sudoku/stl/nurikabe.cpp:1239-1257 | an unknown cell takes the colour and is no region's liberty; the regions without it are the old ones minus that liberty; its region grows only from its neighbours' regions and holds every same-blackness neighbour unless both are numbered; the grid stays valid |
| Nurikabe.Grid.Place | sudoku/stl/nurikabe.cpp:1239-1251 | the cell takes the colour, every region loses it as a liberty, and it gets a fresh region holding it and its unknown neighbours; the grid stays valid |
| Nurikabe.UntouchedSincePlaced | sudoku/stl/nurikabe.cpp:1241-1257 | regions the neighbour walk left alone are the regions from before mark with the cell erased from their liberties |
| Nurikabe.GrownFromElsewhere | sudoku/stl/nurikabe.cpp:1249-1257 | the cell's region grows from its neighbours' regions whatever the cell's own pointer was, since the cell is not its own neighbour |
| Nurikabe.Grid.FuseNeighbors | sudoku/stl/nurikabe.cpp:1255-1257 | fusing the lone cell's region with each neighbour's, left, right, up, down: the grid stays valid, the report can only become a contradiction, regions without the cell are unchanged, its region grows only from the neighbours' regions, and each same-blackness neighbour ends in it unless both are numbered |
| Nurikabe.Grid.FuseAlong | sudoku/stl/nurikabe.cpp:1255-1257 | the walk over a sequence of neighbours keeps validity, untouched regions and growth from neighbours, and joins each visited neighbour as fuse_regions does |
| Nurikabe.Grid.FuseWithNeighbor | sudoku/stl/nurikabe.cpp:1256 | one fuse_regions call of the walk keeps what earlier steps established and joins this neighbour |
| Nurikabe.FuseStep | sudoku/stl/nurikabe.cpp:1261-1313 | one fusion keeps regions without the cell unchanged and the cell's region grown from neighbours, joins this neighbour unless colours differ or both are numbered, and keeps earlier neighbours joined |
| Nurikabe.FusedJoined | sudoku/stl/nurikabe.cpp:1287-1307 | a cell that shared the cell's region still shares it after a fusion, and a contradiction stays reported |
| Nurikabe.FusedGrown | sudoku/stl/nurikabe.cpp:1300-1307 | after absorbing a neighbour's region, each member of the cell's region came from some neighbour's region |
| Nurikabe.Grid.Process | sudoku/stl/nurikabe.cpp:1145-1176 | returns whether there was something to mark; the board becomes the marked board; a clash is a contradiction; progress when no contradiction; with nothing to mark, regions, pointers and report are unchanged |
| Nurikabe.Grid.MarkAll | sudoku/stl/nurikabe.cpp:1153-1158 | marks every cell of the set, and a known cell among them is a contradiction |
| Nurikabe.Grid.MarkNext | sudoku/stl/nurikabe.cpp:1153-1155 | one more cell marked; a known one is a contradiction |
| Nurikabe.Grid.Known | sudoku/stl/nurikabe.cpp:1009-1021 | counts the known cells; the count is the area iff no cell is unknown |
| Nurikabe.Grid.CountColumn | sudoku/stl/nurikabe.cpp:1013-1017 | the inner loop adds the known and the unknown cells of one column, which together are its height |
| Nurikabe.Grid.ImpossiblyBig | sudoku/stl/nurikabe.cpp:1315-1324 | true iff no island has room for n more cells plus a bridge |
| Nurikabe.Grid.RegionsAround | sudoku/stl/nurikabe.cpp:1364-1375 | only white (or only numbered) regions of the grid |
| Nurikabe.Grid.RegionsAroundHas | sudoku/stl/nurikabe.cpp:1364-1375 | every white (or numbered) region of a neighbour is collected |
| Nurikabe.Grid.Probe | sudoku/stl/nurikabe.cpp:1364-1407 | the verdict is "connects" iff the chain could join a region, and "expand" iff no white or numbered region touches the cell |
| Nurikabe.Grid.Discover | sudoku/stl/nurikabe.cpp:1409-1413 | an unknown undiscovered neighbour is enqueued one step further |
| Nurikabe.Grid.ExpandFrom | sudoku/stl/nurikabe.cpp:1409-1413 | all unknown neighbours end up found, and those enqueued are fresh |
| Nurikabe.Grid.Unreachable | sudoku/stl/nurikabe.cpp:1343-1417 | true iff the root is unknown and no cell the breadth-first search reaches could join a region; reached cells are distinct unknown cells outside discovered, each but the root one step further than an earlier, expanded, adjacent cell; on true every expanded cell's unknown neighbours were all found |
| Nurikabe.Grid.Drain | sudoku/stl/nurikabe.cpp:1358-1415 | the queue loop keeps the search invariant and stops at the first connecting cell, or with every reached cell visited |
| Nurikabe.Grid.SearchEnds | sudoku/stl/nurikabe.cpp:1343-1417 | a stopped search reached distinct unknown cells, each with an earlier parent; a finished one has no connecting cell and every expanded cell's neighbours found |
| Nurikabe.Grid.Visit | sudoku/stl/nurikabe.cpp:1358-1413 | one dequeue: stop on a connecting cell, else keep the search invariant while the measure decreases |
| Nurikabe.Grid.Enqueue | sudoku/stl/nurikabe.cpp:1401-1413 | expanding a cell that does not connect keeps the search invariant |
| Nurikabe.Grid.ExpandKeepsSearching | sudoku/stl/nurikabe.cpp:1409-1413 | appending a fresh expansion keeps the search invariant |
| Nurikabe.Grid.ParentsAppend | sudoku/stl/nurikabe.cpp:1409-1413 | enqueuing the expansion of the dequeued cell gives every appended cell that cell as parent and keeps the other parents |
| Nurikabe.Grid.ParentKept | sudoku/stl/nurikabe.cpp:1409-1413 | a cell reached before the expansion keeps its parent |
| Nurikabe.Grid.ParentPushed | sudoku/stl/nurikabe.cpp:1409-1413 | a cell enqueued by the expansion has the expanded cell as parent, one step nearer |
| Nurikabe.Grid.ParentsEarlier | sudoku/stl/nurikabe.cpp:1358-1413 | a parent dequeued earlier sits earlier in the search order |
| Nurikabe.Grid.CollectUnreachable | sudoku/stl/nurikabe.cpp:740-746 | the collected cells are unknown cells of the board |
| Nurikabe.Grid.AnalyzeUnreachableCells | sudoku/stl/nurikabe.cpp:736-749 | only blackens unknown cells; returns whether the board changed |
| Nurikabe.Grid.FirstUnknown | sudoku/stl/nurikabe.cpp:771-782 | the cell sorted first is an unknown cell of the square |
| Nurikabe.Grid.LoneUnknownCounts | sudoku/stl/nurikabe.cpp:771-782 | one unknown and three black cells are what the sorted-state test detects, and the unknown one is picked |
| Nurikabe.Grid.PoolSquare | sudoku/stl/nurikabe.cpp:764-800 | whitens only unknown cells, and always the lone unknown cell of three black ones |
| Nurikabe.Grid.PairSquare | sudoku/stl/nurikabe.cpp:784-800 | whitens only unknown cells |
| Nurikabe.Grid.Imagine | sudoku/stl/nurikabe.cpp:790-796 | a reported root is unknown |
| Nurikabe.Grid.PoolColumn | sudoku/stl/nurikabe.cpp:757-801 | as PoolSquare, over one column of squares |
| Nurikabe.Grid.CollectPools | sudoku/stl/nurikabe.cpp:756-802 | as PoolSquare, over all squares |
| Nurikabe.Grid.AnalyzePotentialPools | sudoku/stl/nurikabe.cpp:752-805 | only whitens unknown cells; every lone unknown cell among three black ones becomes white |
| Nurikabe.Grid.AnalyzeCompleteIslands | sudoku/stl/nurikabe.cpp:651-664 | marks black exactly the liberties of the complete islands, and reports whether there were any |
| Nurikabe.Grid.AnalyzeSingleLiberties | sudoku/stl/nurikabe.cpp:667-690 | marks exactly the single liberties of growing regions, in their colours |
| Nurikabe.Grid.AnalyzeDualLiberties | sudoku/stl/nurikabe.cpp:693-730 | marks black exactly the dual-liberty far corners |
| Nurikabe.Grid.Repoint | sudoku/stl/nurikabe.cpp:1305-1307 | the absorbed region's members point to the survivor, every other pointer unchanged |
| Nurikabe.Grid.FuseRegions | sudoku/stl/nurikabe.cpp:1261-1313 | absent, equal or opposite-coloured regions: no change; two numbered: contradiction; else the primary absorbs the other and the pointers follow |
| Nurikabe.Grid.FloodingShutIn | sudoku/stl/nurikabe.cpp:1477-1486 | when no cell is open, the closed cells shut the region in |
| Nurikabe.Grid.Confined | sudoku/stl/nurikabe.cpp:1430-1583 | a true answer means the region must grow and every area it could reach avoiding verboten is too small; the cache shortcut answers false; without liberties the answer is whether it must grow |
| Nurikabe.Grid.FloodFrom | sudoku/stl/nurikabe.cpp:1457-1583 | past the cache shortcut: a true answer means the region must grow and the area it could cover is shut in and too small; without liberties the answer is whether it must grow |
| Nurikabe.Grid.Flood | sudoku/stl/nurikabe.cpp:1477-1577 | the loop ends with an escape by a white region, or with the invariant and no open cell or enough size |
| Nurikabe.Grid.Turn | sudoku/stl/nurikabe.cpp:1483-1577 | one turn stops when nothing is open, or keeps the invariant while the measure decreases |
| Nurikabe.Grid.StartFlood | sudoku/stl/nurikabe.cpp:1457-1469 | the set-up establishes the loop invariant with the region's size |
| Nurikabe.Grid.StartFlooding | sudoku/stl/nurikabe.cpp:1457-1474 | the set-up flags satisfy the loop invariant |
| Nurikabe.Grid.Consider | sudoku/stl/nurikabe.cpp:1489-1576 | one open cell is refused, escapes or is consumed; the invariant holds and the measure decreases |
| Nurikabe.Grid.RefuseKeepsFlooding | sudoku/stl/nurikabe.cpp:1500-1538 | discarding a refused cell keeps the invariant |
| Nurikabe.Grid.OpenNumberedEscapes | sudoku/stl/nurikabe.cpp:1518-1544 | only a white region can meet a numbered cell, so the logic_error branch is unreachable |
| Nurikabe.Grid.ConsumeCell | sudoku/stl/nurikabe.cpp:1547-1561 | consuming an unknown cell keeps the invariant and closes one more cell |
| Nurikabe.Grid.TakeCell | sudoku/stl/nurikabe.cpp:1547-1561 | the cell is closed, its unflagged neighbours open, the size grows by one |
| Nurikabe.Grid.TakeArea | sudoku/stl/nurikabe.cpp:1562-1575 | consuming a whole region keeps the invariant and closes more cells |
| Nurikabe.Grid.TakeRegion | sudoku/stl/nurikabe.cpp:1562-1575 | the area's cells become closed and its new liberties open, the size grows by the area's size, and the flood invariant holds |
| Nurikabe.Grid.CellKeepsFlooding | sudoku/stl/nurikabe.cpp:1547-1557 | taking an unknown cell keeps the invariant |
| Nurikabe.Grid.CellOpensNoNumbered | sudoku/stl/nurikabe.cpp:1519-1557 | a numbered region's flood never opens a cell of a numbered region |
| Nurikabe.Grid.AreaFacts | sudoku/stl/nurikabe.cpp:1498-1541 | the region of an open cell holds it, is unclosed, and is joined by the flooding region |
| Nurikabe.Grid.AreaKeepsFlooding | sudoku/stl/nurikabe.cpp:1562-1575 | taking a whole region keeps the invariant |
| Nurikabe.Grid.PoolInColumn | sudoku/stl/nurikabe.cpp:1597-1605 | true iff some square of the column is all black |
| Nurikabe.Grid.FindPool | sudoku/stl/nurikabe.cpp:1596-1606 | true iff some 2x2 square is all black |
| Nurikabe.Grid.Inspect | sudoku/stl/nurikabe.cpp:1611-1628 | flags a region only when it is gigantic or shown confined, always when gigantic, and always when it has no liberties yet must grow |
| Nurikabe.Grid.ScanRegions | sudoku/stl/nurikabe.cpp:1611-1629 | finds a bad region only when one is gigantic or shown confined; otherwise none is gigantic, none without liberties must grow, and it returns the black and white cell totals |
| Nurikabe.Grid.FindContradiction | sudoku/stl/nurikabe.cpp:1585-1640 | true only when a pool, a gigantic or confined region, or too many black or white cells is shown; false means no pool, no excess and no gigantic region, and no region without liberties that must grow |
| Nurikabe.Grid.DetectContradictions | sudoku/stl/nurikabe.cpp:1585-1640 | as FindContradiction on the grid before the call, setting the contradiction report exactly when true |
| Nurikabe.Grid.ConfineCell | sudoku/stl/nurikabe.cpp:841-855 | a colour is concluded only when a region of it is shown confined without the cell |
| Nurikabe.Grid.ConfineColumn | sudoku/stl/nurikabe.cpp:840-857 | as ConfineCell, over the unknown cells of a column |
| Nurikabe.Grid.ConfineCells | sudoku/stl/nurikabe.cpp:839-858 | as ConfineCell, over all unknown cells |
| Nurikabe.Grid.ConfineLiberty | sudoku/stl/nurikabe.cpp:864-874 | a liberty is blackened only when another island is confined without it and its unknown neighbours |
| Nurikabe.Grid.ConfineIsland | sudoku/stl/nurikabe.cpp:863-875 | as ConfineLiberty, over one island's liberties |
| Nurikabe.Grid.ConfineIslands | sudoku/stl/nurikabe.cpp:860-877 | as ConfineLiberty, over the growing islands |
| Nurikabe.Grid.AnalyzeConfinement | sudoku/stl/nurikabe.cpp:835-880 | marks only unknown cells, each justified by a confined region |
| Nurikabe.Grid.Confinements | sudoku/stl/nurikabe.cpp:839-877 | every cell concluded black or white is an unknown cell on the board that a confined region justifies |
| Nurikabe.Grid.ColumnCells | sudoku/stl/nurikabe.cpp:896-907 | the unknown and white cells of one column, the unknown ones once each |
| Nurikabe.Grid.GuessableCells | sudoku/stl/nurikabe.cpp:895-908 | the unknown cells once each, and the white cells |
| Nurikabe.Grid.GuessingOrder | sudoku/stl/nurikabe.cpp:887-958 | every unknown cell once, ordered by distance to the nearest white cell |
| Nurikabe.Grid.SolvedRegions | sudoku/stl/nurikabe.cpp:605-614 | a solved board has no pool and no white region, every island is at its number and every black region is the whole sea |
| Nurikabe.Grid.Copy | sudoku/stl/nurikabe.cpp:1642-1661 | the copy has the same board, regions, report and generator state |
| Nurikabe.Grid.Suppose | sudoku/stl/nurikabe.cpp:978-986 | the copy ends stuck, contradicted or solved; solved gives a complete board extending this one with the guess |
| Nurikabe.Grid.SolveUntilStuck | sudoku/stl/nurikabe.cpp:982-986 | the loop ends in a state other than keep-going, only filling in unknown cells |
| Nurikabe.Grid.SolveStep | sudoku/stl/nurikabe.cpp:985 | one step only fills in unknown cells, strictly fewer unknown when it keeps going |
| Nurikabe.Grid.AnalyzeHypotheticals | sudoku/stl/nurikabe.cpp:960-1007 | no finding leaves the board and report as they were; a finding marks exactly one unknown cell black or white; progress when no contradiction |
| Nurikabe.Grid.Decide | sudoku/stl/nurikabe.cpp:988-998 | the guessed unknown cell alone becomes black when black holds and white otherwise, and the grid stays valid |
| Nurikabe.Grid.Guess | sudoku/stl/nurikabe.cpp:973-1003 | black is concluded iff the black copy was solved, or got stuck while the white copy was contradicted; white iff the black copy was contradicted, or got stuck while the white copy was solved |
| Nurikabe.Grid.Solve | sudoku/stl/nurikabe.cpp:599-648 | only fills in unknown cells; solved means complete and free of contradictions; keep-going means progress; cannot-proceed leaves the board |
| Nurikabe.Grid.Deduce | sudoku/stl/nurikabe.cpp:630-636 | the analyses short of hypotheticals make progress or leave the board |
| Nurikabe.Grid.Forced | sudoku/stl/nurikabe.cpp:630-634 | the five cheap analyses make progress or leave the board |
| Nurikabe.Grid.IslandRules | sudoku/stl/nurikabe.cpp:630-632 | the island analyses make progress or leave the board |
| Nurikabe.Grid.SoleThenDual | sudoku/stl/nurikabe.cpp:631-632 | the liberty analyses make progress or leave the board |
| SudokuCell.SolvedOrBlank | sudoku/Cell.h:95-108 | solved iff a single non-zero digit, blank iff {0}, never both |
| SudokuCell.SolutionOf | sudoku/Cell.h:54-65 | a solved square's digit, 0 for any other |
| SudokuCell.Assigned | sudoku/Cell.h:27-36 | a non-zero value solves the square as it, 0 leaves it |
| SudokuCell.SolutionsOfDigits | sudoku/Grid.h:404-414 | squares made from the digits ds contribute exactly ds |
| SudokuCell.NewCells | sudoku/Cell.h:10-21 | a new square is blank and unsolved; one made from a digit is solved as it; one made from 0 has no candidates |
| SudokuCell.Cell.constructor | sudoku/Cell.h:10-13 | a blank square |
| SudokuCell.Cell.Of | sudoku/Cell.h:14-21 | the digit alone, or no candidates for 0 |
| SudokuCell.Cell.Copy | sudoku/Cell.h:22-25 | the same candidates |
| SudokuCell.Cell.Assign | sudoku/Cell.h:27-36 | the candidates become Assigned(old, value) |
| SudokuCell.Cell.Equals | sudoku/Cell.h:38-46 | equal iff the candidates are equal, whatever the identity shortcut |
| SudokuCell.Cell.AddCandidate | sudoku/Cell.h:67-71 | value added, nothing else changes |
| SudokuCell.Cell.RemoveCandidate | sudoku/Cell.h:73-77 | value removed, nothing else changes |
| SudokuCell.Cell.AddCandidates | sudoku/Cell.h:80-93 | the candidates become exactly the solutions of the given squares |
| SudokuBoard.RCSMembers | sudoku/Grid.h:102-133 | the squares scanned are exactly those of the same row, column or box |
| SudokuBoard.FeasibleMeaning | sudoku/Grid.h:402-414 | a digit is feasible iff no square of the units is solved as it |
| SudokuBoard.SameSolvedFeasible | sudoku/Grid.h:391-423 | boards with the same solved squares give the same feasible digits |
| SudokuBoard.SingleOut | sudoku/Grid.h:268-299 | the square shrinks, ends unchanged or solved, is solved as a lonely candidate when the unit leaves one, and is unchanged when the unit holds nine digits |
| SudokuBoard.TriedStep | sudoku/Grid.h:283-289 | trying the next larger candidate assigns it iff the unit lacks it |
| SudokuBoard.RemovedNext | sudoku/Grid.h:437-449 | one square of remove_candidates keeps the pass invariant |
| SudokuBoard.SingledSolved | sudoku/Grid.h:290-295 | solving a square restarts the pass with one unsolved square fewer |
| SudokuBoard.SingledNext | sudoku/Grid.h:275-296 | a square the rule leaves alone moves the pass on |
| SudokuBoard.PairStep | sudoku/Grid.h:486-512 | removing one naked pair's two candidates from unsolved squares in the units of both keeps every candidate lost since the start justified by a naked pair, and the pair square itself unchanged |
| SudokuBoard.PairedTrans | sudoku/Grid.h:474-516 | losses justified by naked pairs from b0 to b and from b to b' are justified from b0 to b' |
| SudokuBoard.ValuesShrink | sudoku/Grid.h:218-266 | squares that only lose candidates never add to the candidates of a unit |
| SudokuBoard.GuessDigits | sudoku/Grid.h:654-655 | a guessed candidate is a digit and keeps the board of digits |
| SudokuBoard.CountShrinks | sudoku/Grid.h:706-714 | a board that only lost candidates never has a larger total |
| SudokuBoard.CountSingles | sudoku/Grid.h:706-714 | with no empty square the partial total is at least k, and exactly k iff those squares hold one candidate each |
| SudokuBoard.CountMeansSingles | sudoku/Grid.h:717 | with no empty square the total is 81 iff every square holds one candidate |
| SudokuGrid.RemoveSolutions | sudoku/Grid.h:440-447 | the square loses exactly the solutions of the solved squares |
| SudokuGrid.SingleOutCandidates | sudoku/Grid.h:281-289 | the candidate loop yields SingleOut |
| SudokuGrid.PairOf | sudoku/Grid.h:501-504 | the two candidates, the smaller first |
| SudokuGrid.Least | sudoku/Grid.h:654 | the first candidate is the smallest |
| SudokuGrid.Grid.constructor | sudoku/Grid.h:70-85 | every square blank |
| SudokuGrid.Grid.Copy | sudoku/Grid.h:86-100 | a new grid with the same candidates |
| SudokuGrid.Grid.RowCells | sudoku/Grid.h:169-182 | the eight other squares of the row |
| SudokuGrid.Grid.ColCells | sudoku/Grid.h:184-197 | the eight other squares of the column |
| SudokuGrid.Grid.SubgridCells | sudoku/Grid.h:199-216 | the eight other squares of the box |
| SudokuGrid.Grid.RowValues | sudoku/Grid.h:218-231 | all candidates of the other squares of the row |
| SudokuGrid.Grid.ColValues | sudoku/Grid.h:233-246 | all candidates of the other squares of the column |
| SudokuGrid.Grid.SubgridValues | sudoku/Grid.h:248-266 | all candidates of the other squares of the box |
| SudokuGrid.Grid.SolvedRCS | sudoku/Grid.h:102-133 | the candidate sets of the solved squares of the units |
| SudokuGrid.Grid.SolvedLines | sudoku/Grid.h:107-119 | the candidate sets of the solved squares of the row and the column |
| SudokuGrid.Grid.SolvedBox | sudoku/Grid.h:121-131 | adds the candidate sets of the solved squares of the box |
| SudokuGrid.Grid.UnsolvedRCSOf | sudoku/Grid.h:135-167 | the unsolved squares of the units |
| SudokuGrid.Grid.UnsolvedLines | sudoku/Grid.h:140-153 | the unsolved squares of the row and the column |
| SudokuGrid.Grid.UnsolvedBox | sudoku/Grid.h:155-165 | adds the unsolved squares of the box |
| SudokuGrid.Grid.Intersect | sudoku/Grid.h:454-466 | exactly the squares in both sets |
| SudokuGrid.Grid.TotalCandidates | sudoku/Grid.h:708-714 | the total number of candidates on the board |
| SudokuGrid.Grid.CountRow | sudoku/Grid.h:710-713 | the inner loop adds the candidates of one row to the count of the rows above it |
| SudokuGrid.Grid.InitialiseSquare | sudoku/Grid.h:397-420 | an unsolved square gets exactly its feasible digits; a solved one is left |
| SudokuGrid.Grid.Initialise | sudoku/Grid.h:391-423 | solved squares stay; every unsolved square ends holding exactly its feasible digits; every square it solved holds the one digit the other squares of its units leave free |
| SudokuBoard.ForcedStep | sudoku/Grid.h:399-419 | one square of initialise keeps every square solved since the start holding the only digit its units leave free |
| SudokuBoard.FeasibleSolve | sudoku/Grid.h:402-414 | solving an unsolved square as e removes e from the feasible digits of exactly the squares sharing a unit with it |
| SudokuGrid.FeasibleSources | sudoku/Grid.h:405-413 | one single-digit square for each digit from 1 to 9 that no solved square of the units holds |
| SudokuBoard.InitialiseStep | sudoku/Grid.h:399-419 | one square of initialise keeps the solved squares and the digit constraint; a newly solved square restarts the sweep with fewer unsolved squares |
| SudokuGrid.Grid.RemoveAt | sudoku/Grid.h:437-449 | an unsolved square loses the digits solved in its units |
| SudokuGrid.Grid.RemoveCandidates | sudoku/Grid.h:431-452 | solved squares stay, nothing gained, every lost digit is solved in the square's units, and squares unsolved at the start lose all digits solved then |
| SudokuGrid.Grid.SingleOutSquare | sudoku/Grid.h:275-295 | one square of a unit pass becomes SingleOut of its candidates, and reports whether it was solved |
| SudokuGrid.Grid.SolveForUnit | sudoku/Grid.h:268-367 | solved squares stay and nothing is gained; only unsolved squares change, each into a square solved as one of its candidates that no other square of its unit holds; at the end the unit rule applies to no unsolved square |
| SudokuBoard.SingledStep | sudoku/Grid.h:271-297 | one square of a unit pass either solves it and restarts with fewer unsolved squares, or leaves the board and moves the invariant to the next square |
| SudokuGrid.Grid.RemovePair | sudoku/Grid.h:505-509 | the squares of the intercept lose both pair candidates |
| SudokuGrid.Grid.NakedPairWith | sudoku/Grid.h:495-510 | when q holds the same two candidates as p, the unsolved squares in the units of both lose them; p keeps its candidates, every loss is justified by that pair, and if the pair held from the start of p's turn it is cleared |
| SudokuGrid.Grid.NakedPairsAt | sudoku/Grid.h:481-513 | solved squares stay, nothing gained, every candidate lost is justified by a naked pair of a board on the way, p keeps its candidates, and every pair p forms with a square of its units that still holds at the end has been cleared from the squares in the units of both |
| SudokuGrid.Grid.NakedPairs | sudoku/Grid.h:474-516 | soundness: solved squares stay, nothing gained, and every lost candidate of a square was held by a naked pair of two other squares sharing a unit with it, on a board between the first and the last; completeness (PairsCleared): two squares sharing a unit that hold the same two candidates at the start and at the end have taken both from every square in the units of both that is unsolved at the end |
| SudokuBoard.PairClears | sudoku/Grid.h:498-509 | the intercept of p's turn met with q's, stripped of the pair's candidates, leaves no square intercepted by the pair holding either |
| SudokuBoard.ClearedWithShrinks | sudoku/Grid.h:474-516 | a cleared pair stays cleared while squares only shrink and the solved ones stay |
| SudokuBoard.ClearedShrinks | sudoku/Grid.h:474-516 | every pair of one square stays cleared under later passes of the sweep |
| SudokuBoard.ClearedRebase | sudoku/Grid.h:474-516 | a pair that held from the start of the sweep held from the start of its square's turn, so clearing it there clears it for the whole sweep |
| SudokuGrid.Grid.HoldsOther | sudoku/Grid.h:572-587 | true iff some square holds a candidate outside the pair |
| SudokuGrid.Grid.InterceptHoldsOther | sudoku/Grid.h:560-628 | true iff some square of the row, box or column intercepts holds a candidate outside the pair |
| SudokuGrid.Grid.HiddenPairCandidates | sudoku/Grid.h:531-629 | the local copy is the square's candidates or two of them |
| SudokuGrid.Grid.SolveForHiddenPairs | sudoku/Grid.h:524-633 | the board is unchanged |
| SudokuGrid.Grid.Round | sudoku/Grid.h:702-706 | one round of the five passes keeps the solved squares and gains nothing, and a round that changes nothing leaves a stuck board |
| SudokuBoard.RoundStuck | sudoku/Grid.h:702-706 | a round that ends on the board it started from changed nothing at any pass, so what each pass leaves holds of that board: it is stuck |
| SudokuBoard.CountKeepsSquares | sudoku/Grid.h:706-714 | a board that only lost candidates, with the same total over the first k squares, lost none there |
| SudokuBoard.SameCountSame | sudoku/Grid.h:683-697 | the loop's stopping test: a round that only shrinks squares and keeps the total keeps the board |
| SudokuGrid.Grid.Solve | sudoku/Grid.h:683-718 | solved squares stay, the answer is whether the total reached 81, and false leaves a stuck board: no unsolved square holds the solution of a solved square of its units, none has a lonely candidate left in its row, column or box, and every naked pair is cleared |
| SudokuGrid.Grid.GuessAt | sudoku/Grid.h:648-676 | the copy with the smaller candidate is solved first; if it reaches 81 candidates the grid takes that candidate; otherwise the copy without it is solved and success is exactly its reaching 81, the grid then taking the other candidate; a copy short of 81 is stuck; no success leaves the grid |
| SudokuGrid.Grid.Settle | sudoku/Grid.h:658-673 | the square becomes exactly the assigned digit, and the solved squares of the grid with that assignment stay |
| SudokuGrid.Grid.GuessOther | sudoku/Grid.h:666-675 | after the first guess failed, the copy with that candidate removed is solved; success is exactly its reaching 81 candidates, the grid then taking the candidate the copy settled on; otherwise the grid is unchanged and the copy stuck |
| SudokuGrid.Grid.GuessSquare | sudoku/Grid.h:649-677 | a square without two candidates is passed over; a two-candidate square whose guesses both fail is recorded as failed with the grid unchanged; success solves that square as one of its two candidates |
| SudokuGrid.Grid.GuessRow | sudoku/Grid.h:647-678 | one row of the sweep: false leaves the grid with every two-candidate square up to the row's end recorded as failed; true solves a two-candidate square of the row after every earlier one failed |
| SudokuGrid.Grid.SolveByGuessing | sudoku/Grid.h:642-680 | every two-candidate square tried before the answer failed with both guesses, both copies stuck short of 81; false leaves the grid with every two-candidate square failed; true solves some two-candidate square as one of its candidates after all earlier ones failed |
| SudokuBoard.GuessSolved | sudoku/Grid.h:654-673 | a successful guess leaves the square solved as one of its two candidates |
| SudokuGrid.Grid.SolveCopyWith | sudoku/Grid.h:651-675 | the copy keeps the solved squares of this grid with the guess assigned, reports solved exactly when its total reached 81 and leaves it stuck otherwise, and returns what the guessed square holds in it |

## Left out

- Text parsing: the regular-expression tokeniser of the Nurikabe constructor is not modelled. The constructor takes the token sequence; its refusal of other characters, the joining of adjacent digits into one number and the dropping of newlines are assumed.
- Nurikabe.Grid.constructor: requires a description that `CheckInputCorrected` accepts, so it does not model the as-written acceptance of two clues side by side (see Findings). `CheckInput` and `CheckInputCorrected` model the refusals (`runtime_error`) as an error value.
- Nurikabe.LoadBoard: requires a description `CheckInputCorrected` accepts; the as-written loading of two clues side by side, whose regions take each other as liberties, is the Findings row (ClueLibertyNumberedAsWritten).
- Nurikabe.LoadColumns: the same precondition as LoadBoard, with no vertically or horizontally adjacent clues.
- Nurikabe.LoadColumn: the same precondition as LoadBoard.
- Nurikabe.LoadCell: the same precondition as LoadBoard.
- Nurikabe.ClueStep: the same precondition as LoadBoard.
- Nurikabe.ClueNeighborsBlank: the same precondition as LoadBoard; without it a clue's liberty can be another clue, as ClueLibertyNumberedAsWritten shows.
- Printing, HTML output (`write`, `print`, `m_output`, the verbose flags), timing and the program's `main` are not modelled. The Sudoku stream operators and `get_values_from_grid` are not modelled either.
- The Mersenne Twister generator: its output is a stream of numbers held in the field `prng`. `GuessOrder.Draw` reduces each number into range. An exhausted stream draws 0.
- Pointer identity: regions are ids in an arena, and Sudoku squares are positions. The `shared_ptr` aliasing of squares in `m_map_cell_to_row_col` is not modelled.
- The iteration order of `std::set` over regions and cells is chosen arbitrarily (`:|`). Contracts do not depend on it, except where the order is stated (guessing order, the dual-liberty pair, the first Sudoku candidate).
- Nurikabe.Grid.MarkAll: states the cells, the known set and the situation, and keeps Valid (the regions partition the known cells and their liberties are exactly the unknown cells next to them), but not which marked cells end up sharing a region; Mark states that for each cell.
- Nurikabe.Grid.MarkNext: the same limit as MarkAll, for one cell of the sweep.
- Nurikabe.Grid.Confined: the answer is characterised fully only for regions without liberties. For others the contract states soundness: a true answer means the region is shut in and too small.
- Nurikabe.Grid.Inspect: a false answer rules out confinement only for a region without liberties, as Confined does; for other regions only a true answer is characterised.
- Nurikabe.Grid.ScanRegions: the same limit as Inspect for the regions it passes.
- Nurikabe.Grid.FindContradiction: the same limit as Inspect; false does not state that no region with liberties is confined.
- Nurikabe.Grid.DetectContradictions: the same limit as FindContradiction.
- Nurikabe.Grid.ConfineCell: states only that each conclusion is justified by a confined region, not that every such conclusion is found. The same holds for ConfineColumn, ConfineCells, ConfineLiberty, ConfineIsland, ConfineIslands, Confinements and AnalyzeConfinement.
- Nurikabe.Grid.Confinements: states that each conclusion is justified, not that every justified conclusion is found.
- Nurikabe.Grid.PairSquare: states only that the cells it whitens are unknown, not which ones the imagined search selects. The same holds for Imagine and CollectUnreachable.
- Nurikabe.Grid.PoolSquare: states the whitening of a lone unknown cell among three black ones in full, but for a square with two unknown cells only that the cells whitened are unknown, as PairSquare.
- Nurikabe.Grid.PoolColumn: the same limit as PoolSquare.
- Nurikabe.Grid.CollectPools: the same limit as PoolSquare.
- Nurikabe.Grid.AnalyzePotentialPools: the same limit as PoolSquare; it states which lone cells turn white, not which cells of two-unknown squares do.
- Nurikabe.Grid.AnalyzeUnreachableCells: states that only unknown cells turn black, not which cells the search selects.
- Nurikabe.Grid.GuessingOrder: the order among cells at equal distance (the shuffle's order) is not stated, only that they are ordered by distance.
- GuessOrder.OrderGuesses: the same; ties keep the shuffled order (the sort is stable, StableSortCorrect), but the contract does not say so.
- GuessOrder.Shuffle: states that the result is a permutation, not which permutation the draws select.
- Nurikabe.Grid.AnalyzeHypotheticals: states that one unknown cell is decided, black or white, and that nothing changes when no cell is; which colour follows from which outcome of the two suppositions is stated by Guess and Decide, which it calls for that cell.
- Nurikabe.Grid.Suppose: states the copy's outcome, not which cells the copy fills in.
- Nurikabe.Grid.FuseNeighbors: states the fused regions by what they contain and which neighbours they join, not their ids nor which region survived each fusion. FuseRegions states those for each neighbour.
- Nurikabe.Grid.Solve: recursion through hypotheticals is bounded by the `guessing` flag (the copy solves without guessing), as in the source. Termination of `analyze_hypotheticals`'s `while (sr == KEEP_GOING)` loop is proved from the falling number of unknown cells.
- SudokuGrid.Grid.Solve: `true` means the total number of candidates is 81. That is every square holding one candidate only when no square is empty, which SudokuBoard.CountMeansSingles states.
- SudokuGrid.Grid.SolveByGuessing: states which square is solved and which guesses failed, not that this grid, solved again after the guess, reaches 81 candidates as the copy did.
- SudokuGrid.Grid.Initialise: states the end state and that each square it solved took the only digit left free, not the order in which squares were solved.
- SudokuGrid.Grid.HiddenPairCandidates: states only that the copy is the square's candidates or two of them, not which pair is chosen. The copy is dropped, so solve_for_hidden_pairs changes no square (SolveForHiddenPairs).
- The Sudoku grid is assumed to hold digits 1 to 9 or the blank marker (`Valid`). That is what the input reader produces, and every pass keeps it.
- The Sudoku passes remove several candidates from one square one at a time (`remove_candidate`, `operator=` per candidate). The model computes the result in a module-level loop (RemoveSolutions, SingleOutCandidates) and writes the square once. No other square is read in between, so the effect is the same.
- Nurikabe.Grid.EraseLiberty: `unk_erase` changes one region at a time in place. The model builds the new region map in a loop and assigns it once. Nothing reads the regions in between, so the effect is the same.
- The `mless` ordering of `get_solved_RCS` keeps one entry per distinct candidate set. The model returns the set of the solved squares' candidate sets, which has the same solutions.
- `solve_for_subgrid` returns `true` and the row and column passes return nothing. The three are one method, SolveForUnit, which returns nothing.

## Findings

| source | as written | input that shows it | evidently intended | confidence | as-written member | corrected member |
|---|---|---|---|---|---|---|
| sudoku/stl/nurikabe.cpp:539-577 | the tokeniser drops newlines and the constructor checks only vertically adjacent clues, its comment saying horizontally adjacent ones cannot occur; a clue's region then takes the clue beside it as a liberty, which is never unknown again | "1\n2 " with width 3 and height 1, the tokens 1, 2, 0 | two clues side by side are refused like two clues one above the other, so every liberty of a clue's region is a blank cell | high; not executed | NurikabeInput.HorizontalCluesAccepted, Nurikabe.ClueLibertyNumberedAsWritten | NurikabeInput.CheckInputCorrected, Nurikabe.ClueNeighborsBlank |
