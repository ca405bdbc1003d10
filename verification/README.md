# Reduction trees, butterflies and hybrid step tables, verified

DPLASMA factorizes a tiled matrix on many nodes. At every step `k` the tile rows `[k, mt)` are reduced to
row `k`: some row kills another one with an orthogonal transformation, until one is left. Which row kills
which, in what order and with what kernel is decided by a *reduction tree*. The tree is never stored as a
whole. Every node asks three lookup functions, independently of the others: who kills row `m` (`currpiv`),
whom does row `m` kill after `s` (`nextpiv`), whom before `s` (`prevpiv`). If the answers do not fit
together, the run deadlocks or loses rows.

This project models those functions for all tree families of the library, the generators of the tables they
read, the constructors, the consistency check and the kill loop of the debugging tools, and proves that they
fit together for every matrix size, every domain count, every height, every low-level and high-level tree,
with and without the domino tree and the round-robin permutation. It also models three smaller pieces: the
segment map and the block recursion of the random butterfly transform, and the table generator of the hybrid
LU/QR factorization.

How the files build on each other:

- `ReductionTree` says what a tree is (killer, kind, direction) and defines the next and previous victim from
  that alone. `KillProtocol` proves that any such tree, executed in any interleaving, neither stops early nor
  loses a row. `Rounds` bounds what any tree can achieve in parallel.
- `BinaryTree`, `LowTrees`, `HighTrees` prove the lookups of one level against that specification;
  `Fibonacci`, `GreedyColumn`, `PipelinedLow`, `PipelinedHigh` (with `Schedules`, `Tables`) do so for the
  table generators; `GreedyCut` treats greedy trees of which the last rows do not exist, `PipelinedTrees` the trees
  read off a pipeline, and `LateSurvivor` is an example of one.
- `Hierarchy` and `Composition` put the levels together: TS chains inside macro-tiles, the low-level tree of
  a domain, the domino chain, the high-level tree. `PanelIndex` and `RoundRobin` treat the closed forms for
  the list of factorized rows and the permutation of rows.
- `HqrTree`, `HqrPanel`, `HqrLookups`, `HqrInit` are the hierarchical tree, `AdaptiveTables` and `AdaptiveTree`
  the adaptive one, `Systolic` the systolic one. `AdaptiveLoad` says what the adaptive heights achieve,
  `DomainRounds` how many rounds the trees of a step take.
  `QrTree` is the interface over the three, `QrtreeCheck` and `KillLoop` the two debugging tools.
- `ButterflyMap`, `ButterflySegments`, `Zhebut` are the butterfly transform, `LuTable` the hybrid step table.
- `Integers`, `Counting`, `Bits` are arithmetic helpers.

Hypotheses: the matrix has at least one tile row and column; `p`, `a`, `q` are made positive by the
constructors as in the code; lookups are asked for `k < min(mt, nt)` and rows of the panel. No relation
between `p` and `mt` is needed. The round-robin option is documented as unsafe (src/dplasma_hqr.c:1771-1772),
but the lookups fit together with it on as well, so it is not excluded. With it, "row above" and "row
below" refer to places before the permutation.

Where the model differs from the documentation or the code in a way that matters:

- The kill loop reads `next[n]` before it tests `n != mt` (src/dplasma_hqr_dbg.c:549-551), one element past
  the array when `n == mt`. By `InBoundsOnlyWithOneRow` that happens in every matrix of more than one tile row.
  The model tests first.
- The type index folds the row number back by the number of *column* segments (src/butterfly_map.c:383-385),
  so the sizes it gives can be wrong. `TypesAreRightExactlyIfCountsAgree` says exactly when they are right;
  `TypesCanBeWrong` gives a matrix and a block where they are not.
- The butterfly driver accepts matrices for which the segment map is not a partition (`GuardsAreNotEnough`);
  `CutsUpExactlyIfItFits` and `CutUpExactlyIfAllFit` say exactly when it is one, and `FourTilesPerBlock` that
  four tiles per block on the deepest level are enough. Its message asks for divisibility by twice the number of
  blocks, its test only for divisibility by that number (src/zhebut_wrapper.c:393-394).
- The comment on the adaptive heights asks for a number of tasks per domain (src/dplasma_hqr.c:2191-2197). The
  second division is over the rows of all domains, and gives that number to all of them together
  (`AllDomainsMeetLoad`). At step 0, with three or more domains, a domain has it only if one row per domain would
  already be enough (`ThreeDomainsMeetLoad`); with two there is one more case (`TwoDomainsMeetLoad`). Later steps
  can be one head better off (`LaterSteps`, `LaterStepsCanGain`).
- In the pipelined low-level tables a row that survives a step as the root of the next one too is not available there
  at once, but only when the generator goes back to the first step that is not done (src/dplasma_hqr.c:679-692);
  until then a batch can be smaller than half of the rows available and alive (`SurvivorJoinsLate`).
- The greedy tables count the last macro-tile of the matrix also in domains that have no row in it. There they
  can take one round more than the best tree (`LowGreedyRounds`, `MissingMacroTileCostsARound`). So can the greedy
  tree over the domains where the band reaches past the end of the matrix (`HighGreedyRounds`).

## Model

| member | source | states |
|---|---|---|
| ReductionTrees.Next | src/dplasma_hqr.c:1313-1331 | In every tree the next victim after `s` exists or there is none left; it is the one before all other later victims |
| ReductionTrees.Previous | src/dplasma_hqr.c:1445-1462 | The same backward: no earlier victim lies between it and `s` |
| ReductionTrees.NextThenPrev | src/dplasma_hqr_dbg.c:262-298 | In every tree, one step forward and one step back lead to where the walk started; from the end marker one asks at the killer itself |
| ReductionTrees.PrevThenNext | src/dplasma_hqr_dbg.c:262-298 | The other direction: back, then forward |
| ReductionTrees.WalkMeetsEveryVictim | src/dplasma_hqr_dbg.c:262-298 | Asking for the next victim again and again meets exactly the victims still to come |
| ReductionTrees.WalkFollowsKillOrder | src/dplasma_hqr_dbg.c:262-298 | The walk is in kill order and as long as the number of victims left |
| ReductionTrees.KillOrderHasNoRepetition | src/dplasma_hqr_dbg.c:262-298 | Rows met in kill order are all different and their kinds never decrease |
| KillProtocol.StepKeepsInv | src/dplasma_hqr_dbg.c:538-583 | A kill keeps the invariant between pointers and log: each pointer stands at the first victim not yet logged, and the log is safe |
| KillProtocol.LiveRowMeansProgress | src/dplasma_hqr_dbg.c:538-583 | While a row other than the root is alive, some row can kill: no reachable state is a deadlock |
| KillProtocol.EveryRunIsSafe | src/dplasma_hqr_dbg.c:538-583 | In every interleaving no row dies twice, no dead row kills, each victim dies by its own killer |
| KillProtocol.RunsNeitherStopEarlyNorGoOn | src/dplasma_hqr_dbg.c:538-583 | A run of fewer than (rows - 1) kills can be continued, and no run is longer |
| KillProtocol.FinishedRunLeavesOnlyTheRoot | src/dplasma_hqr_dbg.c:538-583 | A run that cannot be continued has killed every row but the root exactly once, by the row the tree names |
| Rounds.RowsBound | src/dplasma_hqr.c:817-834 | No tree whatever reduces more than 2^r rows in r parallel rounds |
| BinaryTrees.FindKiller | src/dplasma_hqr.c:389-406 | The loop over the bits returns the row with the lowest set bit of the offset removed |
| BinaryTrees.FindNext | src/dplasma_hqr.c:408-432 | The bit search answers with the next victim of the binary tree, or none |
| BinaryTrees.FindPrev | src/dplasma_hqr.c:434-465 | The backward bit search answers with the previous victim |
| BinaryTrees.FindLast | src/dplasma_hqr.c:443-458 | Started at the killer, it answers with the last victim that is in range, also for the root, where the logarithm bounds the search |
| BinaryTrees.VictimHasAPlace | src/dplasma_hqr.c:408-432 | Every victim of a row is the row plus a power of two below its lowest set bit |
| BinaryTrees.PlaceHoldsAVictim | src/dplasma_hqr.c:408-432 | Conversely every such place in range is a victim, so the victims are exactly these |
| BinaryTrees.LastPlace | src/dplasma_hqr.c:443-458 | The largest free place in range is the last victim, even when the logarithm was rounded down once too often |
| BinaryTrees.BinaryExactly | src/dplasma_hqr.c:389-465 | A binary tree fits in a number of rounds if and only if that many doublings reach its number of rows, so no tree on as many rows is faster |
| LowTrees.FlatTreeIsFlat | src/dplasma_hqr.c:327-387 | In the flat low-level tree only the root has victims: all macro-tiles below it, met in increasing order |
| LowTrees.FlatNextpiv | src/dplasma_hqr.c:336-356 | Next victim of the flat low-level tree |
| LowTrees.FlatPrevpiv | src/dplasma_hqr.c:359-377 | Previous victim of the flat low-level tree |
| LowTrees.BinaryNextpiv | src/dplasma_hqr.c:408-432 | Next victim of the binary low-level tree |
| LowTrees.BinaryPrevpiv | src/dplasma_hqr.c:434-465 | Previous victim of the binary low-level tree |
| LowTrees.ScanDown | src/dplasma_hqr.c:496-505 | Scanning a killer table downwards finds the next victim of the tree the table spells out |
| LowTrees.ScanUp | src/dplasma_hqr.c:484-493 | Scanning it upwards finds the previous one |
| LowTrees.Currpiv | src/dplasma_hqr.c:478-481 | The table, bit or flat lookup gives the killer in the domain's tree |
| LowTrees.Nextpiv | src/dplasma_hqr.c:775-787 | For each kind of low-level tree the answer is the next victim in its tree |
| LowTrees.Prevpiv | src/dplasma_hqr.c:763-772 | For each kind of low-level tree the answer is the previous victim |
| HighTrees.FlatTreeIsFlat | src/dplasma_hqr.c:912-940 | In the flat high-level tree only row k has victims: all other rows of the band, met in increasing order |
| HighTrees.FlatNextpiv | src/dplasma_hqr.c:919-928 | Next victim of the flat tree on the band |
| HighTrees.FlatPrevpiv | src/dplasma_hqr.c:930-940 | Previous victim of the flat tree on the band |
| HighTrees.BinaryNextpiv | src/dplasma_hqr.c:968-990 | Next victim of the binary tree on the band |
| HighTrees.BinaryPrevpiv | src/dplasma_hqr.c:992-1020 | Previous victim of the binary tree on the band |
| HighTrees.OneColumnNextpiv | src/dplasma_hqr.c:1052-1060 | Next victim from one column of offsets shared by all steps |
| HighTrees.OneColumnPrevpiv | src/dplasma_hqr.c:1038-1049 | Previous victim from that column, never past the end of the matrix |
| HighTrees.GreedyNextpiv | src/dplasma_hqr.c:1153-1161 | Next victim from the pipelined greedy table |
| HighTrees.GreedyPrevpiv | src/dplasma_hqr.c:1163-1171 | Previous victim; the scan bounded by `p` instead of the matrix end reads only zeros there and still answers right |
| HighTrees.Currpiv | src/dplasma_hqr.c:1147-1151 | The killer on the band, for each kind of high-level tree |
| Fibonacci.FirstColumn | src/dplasma_hqr.c:525-535 | Row m of the first column is killed by m - f with f least such that the first f groups reach m |
| Fibonacci.LowInit | src/dplasma_hqr.c:507-543 | Column k is the first one moved down by k; every entry names a row between the root and the row itself |
| Fibonacci.HighInit | src/dplasma_hqr.c:1062-1092 | The offsets of the high-level tree follow the same rule |
| Fibonacci.TriangleFormula | src/dplasma_hqr.c:525-535 | The first f groups hold f(f+1)/2 rows |
| Fibonacci.OneRoundPerGroup | src/dplasma_hqr.c:525-535 | Rows of one group have different killers, all of them in earlier groups |
| Fibonacci.FibonacciRounds | src/dplasma_hqr.c:525-535 | The tree finishes n rows in F rounds with F least such that F(F+1)/2 is n - 1 or more |
| Fibonacci.FibonacciExactly | src/dplasma_hqr.c:525-535 | The tree on n rows fits in a number of rounds if and only if that many groups hold n - 1 rows |
| GreedyColumn.RoundsIsCeilLog2 | src/dplasma_hqr.c:823-832 | Halving the live rows takes the logarithm to base two of their number, rounded up |
| GreedyColumn.RoundsArePossible | src/dplasma_hqr.c:823-832 | Killers outlive the round they act in, and one killer's victims fall in different rounds |
| GreedyColumn.GreedyIsOptimal | src/dplasma_hqr.c:823-832 | The greedy tree fits in that many rounds and no other tree on as many rows needs fewer |
| GreedyColumn.NoTreeIsFaster | src/dplasma_hqr.c:823-832 | No tree whatever on n rows fits in fewer rounds than the logarithm to base two of n, rounded up |
| GreedyColumn.Fill | src/dplasma_hqr.c:862-872 | The loop writes exactly the entries below the root, each with its greedy killer, and nothing else in the array |
| GreedyCut.CutExactly | src/dplasma_hqr.c:823-832 | The first m of the s rows of a greedy tree, where the first round kills at least one of them, fit in a number of rounds if and only if it is that of all s rows or more, or of m alone when m is half of s plus one |
| GreedyCut.CutTree | src/dplasma_hqr.c:823-832 | For the first m rows of any greedy tree: the exact number of rounds, at most one more than the best tree on m rows, and when it is none more |
| GreedyCut.RoundsWithoutTheLast | src/dplasma_hqr.c:823-832 | Only the last row missing, it is one more exactly if the number of rows left is a power of two above two |
| PipelinedLow.RootStep | src/dplasma_hqr.c:624-633 | The remainder tests of the two variants fail exactly when the root macro-tile moves on, by one |
| PipelinedLow.CountersAfterKills | src/dplasma_hqr.c:636-639 | A batch keeps what the counters mean: killed rows never exceed available ones, and those of step k+1 are the killed ones of step k plus at most the root |
| PipelinedLow.KillBatch | src/dplasma_hqr.c:641-643 | Every kill of a batch is fair: both rows are available at that step and alive |
| PipelinedLow.KillHalf | src/dplasma_hqr.c:622-643 | Exactly half of the live available rows of the step are killed |
| PipelinedLow.Generate | src/dplasma_hqr.c:598-716 | The generator terminates. Its table holds the kills of the pipeline: batch after batch, the turn goes to the next step if it has two rows to work on and otherwise back to the first step not done, and a batch is the lower half of the rows ready, each killed by the row half of them above. Every kill is fair and each row below the root of each step is killed once |
| PipelinedLow.OneTable | src/dplasma_hqr.c:673-704 | Two tables filled like that for the same plan have the same killers |
| LateSurvivor.SurvivorJoinsLate | src/dplasma_hqr.c:679-692 | Batches of a pipeline after which a step takes one of its rows although four are available and alive: the root that survived the step before does not count until that step is left behind |
| PipelinedHigh.CountersAfterKills | src/dplasma_hqr.c:1218-1221 | The counters keep their meaning on the band |
| PipelinedHigh.KillHalf | src/dplasma_hqr.c:1207-1225 | Exactly half of the live available rows of the band are killed, fairly |
| PipelinedHigh.Generate | src/dplasma_hqr.c:1173-1234 | The generator terminates inside its p-wide columns and its table holds the kills of the pipeline over the bands, by the same rule for turns and batches; each row of each band but the first is killed once by an available row, places past the matrix stay zero |
| PipelinedHigh.OneTable | src/dplasma_hqr.c:1202-1228 | Two tables filled like that for the same band have the same killers |
| Schedules.PipelineIsUnique | src/dplasma_hqr.c:673-704 | The rule for the next batch leaves no choice: two pipelines that have ended are the same batch by batch |
| PipelinedTrees.OneTree | src/dplasma_hqr.c:673-704 | Two trees of a step of the same pipeline have the same killers |
| Hierarchy.KindByDiagonal | src/dplasma_hqr.c:299-322 | TS and low-level kills are exactly the rows below the diagonal row of their domain |
| Hierarchy.KindByRowAbove | src/dplasma_hqr.c:299-322 | The kind of a row by the row above it in its domain: kind 3 if that is not in the panel, 2 if it is above the local diagonal of a domino tree, 0 if it is in the same macro-tile, 1 otherwise |
| Hierarchy.HeadWithoutDomino | src/dplasma_hqr.c:1286-1298 | The head of the root macro-tile found from the distance to `k` is the domain's diagonal row, also where domains have different roots |
| Hierarchy.HeadIsUnique | src/dplasma_hqr.c:1241-1311 | A head row is the row computed for its macro-tile |
| Composition.KillerOfRow | src/dplasma_hqr.c:1241-1311 | The killer is a row of the panel above its victim, never of a lower kind, never a TS row; below kind 3 it is in the same domain |
| Composition.KillerOfTSRow | src/dplasma_hqr.c:1241-1311 | A TS row is killed by the first row of its own macro-tile and domain that is in the panel and not above the local diagonal |
| Composition.CrossesDomain | src/dplasma_hqr.c:1241-1311 | A kill leaves its domain if and only if it is of kind 3 |
| Composition.CrossDomainKills | src/dplasma_hqr.c:1241-1311 | Exactly min(p, mt - k) - 1 kills of a step cross domains |
| Composition.OnlyTheLastMayBeMissing | src/dplasma_hqr.c:1398-1400 | Every macro-tile but the last has a row in every domain |
| Composition.NextTS | src/dplasma_hqr.c:1377-1385 | The next local row, while it exists and opens no macro-tile, is the next TS victim |
| Composition.NextExisting | src/dplasma_hqr.c:1398-1400 | Asking once more when the last macro-tile does not exist for the rank gives the next victim that exists |
| Composition.NextLow | src/dplasma_hqr.c:1396-1403 | The answer of the low-level tree, translated to a row, is the next victim of kind 1 |
| Composition.NextDomino | src/dplasma_hqr.c:1417-1422 | A row above the local row k kills exactly the next row of its domain in the domino chain |
| Composition.NextHigh | src/dplasma_hqr.c:1434-1438 | The answer of the high-level tree is the next victim of kind 3 |
| Composition.PrevTS | src/dplasma_hqr.c:1553-1558 | The row `p` above, if still below the killer, is the previous TS victim |
| Composition.LastTS | src/dplasma_hqr.c:1547-1552 | Stepping up from the end of the macro-tile until inside the matrix finds the last TS victim |
| Composition.PrevLow | src/dplasma_hqr.c:1530-1537 | The previous victim of kind 1, skipping a last macro-tile that does not exist |
| Composition.PrevDomino | src/dplasma_hqr.c:1509-1517 | The only domino victim is the last one of its kind |
| PanelIndex.NbGeqrtCountsHeads | src/dplasma_hqr.c:182-220 | The announced number of factorizations is the number of rows that are not TS rows, also when the first block boundary lies past the last one |
| PanelIndex.CountInClosedForm | src/dplasma_hqr.c:182-220 | That number up to any row, in closed form |
| PanelIndex.RowsAreListed | src/dplasma_hqr.c:228-255 | The i-th listed row is in the panel and not a TS row, its index is i, and the list increases |
| PanelIndex.HeadsAreListed | src/dplasma_hqr.c:262-287 | Every row that is not a TS row is listed, at its index |
| PanelIndex.IndexCountsHeads | src/dplasma_hqr.c:262-287 | The index of such a row is the number of them above it |
| RoundRobin.PermutationIsABijection | src/dplasma_hqr.c:1570-1639 | The permutation maps the panel onto itself, keeps domain and block, has the stated inverse and fixes all rows before the rotated blocks |
| RoundRobin.RotatedByStep | src/dplasma_hqr.c:1617-1621 | A rotated row stays in its domain and macro-tile, where its local index moves on by k modulo a |
| RoundRobin.RotatedBlocks | src/dplasma_hqr.c:1599-1626 | Rotated are the rows of just those blocks that lie below the dense part and are complete |
| RoundRobin.RotateBlock | src/dplasma_hqr.c:1617-1621 | One block is rotated in place, the rest of the table is unchanged |
| RoundRobin.GenPerm | src/dplasma_hqr.c:1570-1639 | The table holds the permutation of every step, the end marker and, when off, the identity |
| HqrTrees.GetInvPerm | src/dplasma_hqr.c:1641-1664 | The search in one block and domain finds the position sent to `m` if there is one there, -1 otherwise |
| HqrTrees.Place | src/dplasma_hqr.c:1641-1664 | On the generated tables it always finds it: the inverse of the permutation |
| HqrPanel.GetType | src/dplasma_hqr.c:299-322 | The kind of the row's place in the step tree |
| HqrPanel.GetNbGeqrf | src/dplasma_hqr.c:182-220 | Equals the count of places that are not TS places |
| HqrPanel.GetM | src/dplasma_hqr.c:228-255 | The i-th such row, sent through the permutation |
| HqrPanel.GetI | src/dplasma_hqr.c:262-287 | Its inverse: the count of such places above, within the announced number |
| HqrLookups.KillerPlace | src/dplasma_hqr.c:1241-1311 | The four cases give the killer in the composed tree |
| HqrLookups.Currpiv | src/dplasma_hqr.c:1241-1311 | The killer of a row, with the round-robin on or off; domino and high-level killers need no permutation |
| HqrLookups.FlatLowKiller | src/dplasma_hqr.c:327-334 | With a flat low-level tree the diagonal row of a domain kills all rows of kind 1 in it |
| HqrLookups.FlatHighKiller | src/dplasma_hqr.c:912-917 | With a flat high-level tree row k kills all other rows of the band |
| HqrLookups.NextInLowTree | src/dplasma_hqr.c:1396-1403 | The low-level search with its fix-up answers with the next existing macro-tile |
| HqrLookups.VictimKinds | src/dplasma_hqr.c:1332-1443 | A row kills nobody of a higher kind, a TS row nobody at all; rows above the local row k of the domino tree kill by domino and high-level kernels only, and no other row by domino kernels |
| HqrLookups.NextPlace | src/dplasma_hqr.c:1358-1442 | On places, the fall-through over the kinds answers with the next victim in the composed tree |
| HqrLookups.PrevPlace | src/dplasma_hqr.c:1487-1562 | On places, the backward fall-through answers with the previous victim |
| HqrLookups.Nextpiv | src/dplasma_hqr.c:1332-1443 | The fall-through over the four kinds answers with the next victim in the composed tree, `mt` if there is none, -1 exactly when the pivot does not kill `start` |
| HqrLookups.Prevpiv | src/dplasma_hqr.c:1463-1563 | The same backward, with -1 exactly when `start` is neither the pivot nor killed by it |
| HqrInit.GreedySlab | src/dplasma_hqr.c:664-711 | The table of one domain holds the pipeline over exactly the steps at which the domain has a macro-tile |
| HqrInit.Greedy1pSlab | src/dplasma_hqr.c:846-874 | Each of those steps has a greedy column of its own |
| HqrInit.OnePanelOffsets | src/dplasma_hqr.c:1097-1142 | The offsets of the high-level tree computed for one panel are greedy and never name a row above it |
| HqrInit.LowTree | src/dplasma_hqr.c:1871-1887 | The tables are those of the kind asked for; unknown kinds give the pipelined greedy tree |
| HqrInit.HighTree | src/dplasma_hqr.c:1898-1920 | Likewise for the high level, with the default depending on the shape of the matrix |
| HqrInit.LowGreedyIsGreedy | src/dplasma_hqr.c:846-874 | The low-level table of every domain and step is the greedy tree on all macro-tiles from the root to the last of the matrix, whether or not the last one has a row in the domain |
| HqrInit.LowFibonacciIsFibonacci | src/dplasma_hqr.c:507-543 | The low-level fibonacci tables give the fibonacci tree of every domain and step |
| HqrInit.HighGreedyIsGreedy | src/dplasma_hqr.c:1097-1142 | The offsets of one panel give the greedy tree of every panel whose band is full, and its first rows where the band is cut off by the end of the matrix |
| HqrInit.LowGreedyFollowsPipeline | src/dplasma_hqr.c:664-711 | The pipelined low-level tables give at each step the tree that makes the kills of the pipeline over the steps with macro-tiles, victims of one killer in the same order |
| HqrInit.HighGreedyFollowsPipeline | src/dplasma_hqr.c:1173-1234 | The same for the pipelined high-level table |
| HqrInit.HighFibonacciIsFibonacci | src/dplasma_hqr.c:1062-1092 | The high-level offsets give the fibonacci tree of every band |
| HqrInit.MacroTilesFit | src/dplasma_hqr.c:1863-1866 | The number of macro-tiles is just enough for all rows: one less would not be |
| HqrInit.Init | src/dplasma_hqr.c:1790-1927 | For all parameters, with their defaults, the tree has tables the lookups can rely on at every step, and they are of the kinds asked for |
| HqrInit.LowOfStep | src/dplasma_hqr.c:1865-1888 | The low-level tree in every domain and step is flat, binary, fibonacci, greedy, or that of the pipeline, as the caller has asked |
| HqrInit.HighOfStep | src/dplasma_hqr.c:1890-1921 | The high-level tree of every step is of the kind the caller has asked for; the default is flat or fibonacci |
| AdaptiveTables.StepTable | src/dplasma_hqr.c:2225-2266 | One step's table has the height and the number of macro-tiles in front and a greedy column behind |
| AdaptiveTables.WidestTable | src/dplasma_hqr.c:2188-2208 | The row length of the table is enough for every step |
| AdaptiveTables.PiecesOfHeight | src/dplasma_hqr.c:2198-2203 | Evening the height out over the rows of all domains keeps the number of pieces the first height gave for one domain |
| AdaptiveTables.LeastHeight | src/dplasma_hqr.c:2201-2203 | Any smaller height cuts the rows into more pieces |
| AdaptiveLoad.StepFrameOfTree | src/dplasma_hqr.c:2191-2203 | A step of an adaptive tree has the macro-tiles its height and number of macro-tiles give, and no domino tree |
| AdaptiveLoad.DomainHeadsAre | src/dplasma_hqr.c:2191-2203 | The rows of a domain that get a factorization of their own are as many as the macro-tiles, cut at multiples of the height from row 0, from its first row in the panel to its last |
| AdaptiveLoad.AllHeadsAreOfDomains | src/dplasma_hqr.c:182-220 | The number of factorizations announced for a step is the sum over the domains |
| AdaptiveLoad.AllDomainsMeetLoad | src/dplasma_hqr.c:2191-2203 | If the largest domain has rows enough for the load, the factorizations of all domains, once for each column left, meet it together |
| AdaptiveLoad.OneDomainMeetsLoad | src/dplasma_hqr.c:2191-2203 | With one domain the load is met if and only if there are rows enough for it |
| AdaptiveLoad.DiagonalDomainShare | src/dplasma_hqr.c:2191-2203 | With rows enough, the domain of the diagonal row has at least a p-th of the load |
| AdaptiveLoad.DomainBounds | src/dplasma_hqr.c:2191-2203 | At every step and in every domain with rows: columns that alone reach the load are enough, and rows of the largest domain that do not reach it are not |
| AdaptiveLoad.ThreeDomainsMeetLoad | src/dplasma_hqr.c:2191-2203 | At step 0, with three or more domains, any domain meets the load if and only if the number of columns alone reaches it |
| AdaptiveLoad.TwoDomainsMeetLoad | src/dplasma_hqr.c:2191-2203 | At step 0, with two domains, a domain meets the load if and only if the columns alone reach it, or the rows do and the first height gives one piece less than twice the number of heads needed, with a further condition on a second domain that is one row short |
| AdaptiveLoad.LaterSteps | src/dplasma_hqr.c:2191-2203 | At any step a domain that meets the load needs at most two heads for it with four or more domains, at most three with three; with two domains at most two, or the first height gives at least twice the number of heads needed less three pieces |
| AdaptiveLoad.LoadCanBeMissed | src/dplasma_hqr.c:2191-2203 | An input with two domains where each gets half the tasks asked for, although half the height would give each of them all |
| AdaptiveLoad.LaterStepsCanGain | src/dplasma_hqr.c:2191-2203 | An input where both domains meet the load at step 2 although the condition of step 0 does not hold |
| AdaptiveTrees.AdaptiveIsGreedy | src/dplasma_hqr.c:2244-2266 | The low-level table of every domain and step is the greedy tree on all macro-tiles from the root to the last of the matrix |
| AdaptiveTrees.StepIsOk | src/dplasma_hqr.c:2307-2539 | A step of the adaptive tree, seen on its own, has all that the lookups of a hierarchical tree without domino tree rely on |
| DomainRounds.PresentAreThoseThatExist | src/dplasma_hqr.c:1398-1400 | The macro-tiles of a tree that have a row in a domain are all of them or all but the last |
| DomainRounds.LowGreedyRounds | src/dplasma_hqr.c:846-874 | The macro-tiles a domain has fit in a number of rounds if and only if it is the logarithm of their number, rounded up, or more, plus one if the last macro-tile is missing and the others are a power of two above two; no tree on as many macro-tiles fits in less than the logarithm |
| DomainRounds.AdaptiveRounds | src/dplasma_hqr.c:2244-2266 | The same for every step and domain of an adaptive tree |
| DomainRounds.FibonacciInDomain | src/dplasma_hqr.c:507-543 | The macro-tiles a domain has are a fibonacci tree themselves and fit in a number of rounds if and only if that many groups reach the last of them |
| DomainRounds.HighGreedyRounds | src/dplasma_hqr.c:1097-1142 | The band of every panel, full or cut off: the exact number of rounds of the greedy tree over the domains, at most one more than the best tree on its rows, and when it is none more |
| DomainRounds.AdaptiveHighRounds | src/dplasma_hqr.c:2701-2719 | The exact number of rounds over the domains of an adaptive tree, for every panel |
| DomainRounds.MissingMacroTileCostsARound | src/dplasma_hqr.c:846-874 | A matrix and a domain with four of five macro-tiles, where two rounds are enough for four but not with the greedy table the constructor makes |
| AdaptiveTrees.Init | src/dplasma_hqr.c:2634-2729 | Every step of the adaptive tree is a step of a hierarchical tree with its own height, and has all the lookups rely on; with several domains the high-level tables are of the kind asked for |
| AdaptiveTrees.TreesOfStep | src/dplasma_hqr.c:2701-2719 | The trees plugged into a step are greedy over the macro-tiles, and over the domains of the kind the caller has asked for |
| SystolicTrees.KillerOfRow | src/dplasma_systolic_qr.c:79-100 | The killer lies above its victim, in the panel, is never of a lower kind and never a TS row |
| SystolicTrees.ThreeLevels | src/dplasma_systolic_qr.c:56-100 | Row k kills the rows after it up to the p-th, each of those p rows every p-th row up to the (p q)-th, each of those p q rows every (p q)-th row after |
| SystolicTrees.GetNbGeqrf | src/dplasma_systolic_qr.c:29-33 | The rows that are not TS rows are exactly the first ones of the panel, as many as announced |
| SystolicTrees.Nextpiv | src/dplasma_systolic_qr.c:120-193 | The next victim in TS, local, distributed order; -1 exactly when the pivot does not kill `start` |
| SystolicTrees.Prevpiv | src/dplasma_systolic_qr.c:213-296 | The previous victim in that order |
| SystolicTrees.IntoMatrix | src/dplasma_systolic_qr.c:243-283 | The decrement loop stops at the last row of the right residue inside the matrix |
| QrTrees.HeadsByPlace | src/dplasma_hqr.c:1570-1639 | The permutation does not change how many rows of a panel are factorized |
| QrTrees.Currpiv | src/dplasma_hqr_dbg.c:337-368 | For all families: the killer of the row in the step's tree |
| QrTrees.Nextpiv | src/dplasma_hqr_dbg.c:187 | For all families: the next victim, as one function of rows |
| QrTrees.Prevpiv | src/dplasma_hqr_dbg.c:230 | For all families: the previous victim |
| QrTrees.ForwardThenBack | src/dplasma_hqr_dbg.c:262-298 | For all families, on rows: a step forward stays in the panel, arrives at a victim or the end, and is undone by a step back |
| QrTrees.BackThenForward | src/dplasma_hqr_dbg.c:262-298 | A step back is undone by a step forward |
| QrTrees.GetNbGeqrf | src/dplasma_hqr_dbg.c:103-120 | For all families: the number of rows of the panel that are not TS rows |
| QrTrees.GetM | src/dplasma_hqr_dbg.c:129-173 | For all families: the listed row has that index |
| QrTrees.GetI | src/dplasma_hqr_dbg.c:129-173 | For all families: the index of a listed row, within the announced number |
| QrTrees.IndexGrows | src/dplasma_hqr_dbg.c:148-157 | With height one, rows further down come later in the list |
| QrTrees.EveryRunCompletes | src/dplasma_hqr_dbg.c:538-583 | For all families and steps, every interleaving is safe, can be continued until mt - k - 1 kills are done, and then each row is dead by its own killer |
| QrtreeCheck.CheckNumber | src/dplasma_hqr_dbg.c:96-121 | The count of the loop is the number of rows that are not TS rows, and it equals the announced one |
| QrtreeCheck.CheckIndices | src/dplasma_hqr_dbg.c:123-174 | `geti` undoes `getm`; the rows met are as many as there are rows that are not TS rows, each at its index, from top to bottom where the height is one |
| QrtreeCheck.OneExitForward | src/dplasma_hqr_dbg.c:176-217 | Exactly one start value makes `nextpiv` answer `mt` |
| QrtreeCheck.OneExitBackward | src/dplasma_hqr_dbg.c:219-260 | Exactly one start value makes `prevpiv` answer `mt` |
| QrtreeCheck.CheckExitNext | src/dplasma_hqr_dbg.c:184-210 | The loop counts the exits, and there is one |
| QrtreeCheck.CheckExitPrev | src/dplasma_hqr_dbg.c:227-253 | Likewise backward |
| QrtreeCheck.CheckWalk | src/dplasma_hqr_dbg.c:270-296 | The walk over the victims of a row terminates back at `mt` with every step undone |
| QrtreeCheck.LinksAreOk | src/dplasma_hqr_dbg.c:176-298 | What checks three to five look for holds at every step and row of every tree |
| QrtreeCheck.Check | src/dplasma_hqr_dbg.c:87-301 | The whole check returns 0 on every tree that can be built |
| KillLoop.TryRow | src/dplasma_hqr_dbg.c:549-581 | A row kills exactly when the protocol enables it, and pointers, graph and clock stay in step with the protocol |
| KillLoop.Sweep | src/dplasma_hqr_dbg.c:546-583 | Every sweep kills at least one row, so the loop on `nb2reduce` ends |
| KillLoop.RunStep | src/dplasma_hqr_dbg.c:538-583 | The graph of a step kills each row but the first once, by its killer, and no dead row kills |
| KillLoop.LastTick | src/dplasma_hqr_dbg.c:586-589 | The largest clock entry |
| KillLoop.Run | src/dplasma_hqr_dbg.c:519-602 | Over all steps the ticks respect every dependency, no kill waits longer than it must, and the length is the last tick |
| KillLoop.SomeRowKillsNobody | src/dplasma_hqr_dbg.c:541-550 | In every step some row of the panel has nobody to kill and starts with the end marker as its pointer |
| KillLoop.InBoundsOnlyWithOneRow | src/dplasma_hqr_dbg.c:548-551 | Reading `next[n]` before testing `n` stays inside the array if and only if the matrix has one tile row |
| ButterflyMap.AxisConstants | src/butterfly_map.c:31-40 | The bounds of a block are multiples of its size, the middle is half-way, and the center has a size wherever it has segments |
| ButterflyMap.AxisSizes | src/butterfly_map.c:42-182 | Sizes and counts, computed step by step, in terms of start, half length and tile size |
| ButterflyMap.CutsUpExactlyIfItFits | src/butterfly_map.c:16-182 | The segments cut up the block in pieces that are not empty, abut, and stay in one tile in either half, if and only if the half has more than one tile of room after its first tile boundary, or the room is exactly nothing, the piece up to the cut, or one tile |
| ButterflyMap.BlocksOfAButterfly | src/butterfly_map.c:31-40 | Halves of two tiles or more always have room enough |
| ButterflyMap.BlockCutsUpExactlyIfItFits | src/butterfly_map.c:16-182 | The same equivalence for a block given by matrix size, level and number |
| ButterflySegments.ConstantsMakeABlock | src/butterfly_map.c:16-182 | The constants of a row and a column of blocks are what the segment map relies on if and only if both have a fitting amount of room |
| ButterflySegments.SegmentToTile | src/butterfly_map.c:184-258 | The tile and offset from which the row and column of the corner of the segment can be read back, and those of every element from the same tile and the offset moved by its distance; nothing for numbers out of range |
| ButterflySegments.SegmentsPartitionTheBlock | src/butterfly_map.c:184-258 | An element is in segment (m, n) if and only if it is in the block and (m, n) is the pair of numbers computed for it: each element in exactly one segment |
| ButterflySegments.SegmentIsARectangle | src/butterfly_map.c:253-255 | A segment lies in one tile, its elements at the distance from the corner that a rectangle stored by columns has; different elements are at different places |
| ButterflySegments.FourTranslates | src/butterfly_map.c:199-206 | Segments half the count apart are translates by half a block: the four segments combined have the same shape |
| ButterflySegments.SegmentToTypeIndex | src/butterfly_map.c:372-427 | -1 out of range, otherwise an index whose sizes are those of the segment whenever there are as many row as column segments |
| ButterflySegments.TypeIndexToSizes | src/butterfly_map.c:260-363 | The sizes of a type; for the index of a segment, its height and width with success, whenever the types are right |
| ButterflySegments.TypesAreRightExactlyIfCountsAgree | src/butterfly_map.c:372-427 | The type index gives every segment its own size if and only if there are as many row segments as column segments |
| ButterflySegments.CountsCanDiffer | src/butterfly_map.c:380-385 | Constants of two axes with different counts, and a segment whose type has size zero |
| Zhebut.IterateOps | src/zhebut_wrapper.c:323-362 | The recursion treats the slots from `subop` on in the order of the blocks, makes or destroys each by the kind of its block, and leaves all other slots alone |
| Zhebut.EveryBlockOnce | src/zhebut_wrapper.c:348-358 | Each block below a block, in the lower triangle, is visited once, no other is |
| Zhebut.BlockCount | src/zhebut_wrapper.c:414-431 | The number of blocks visited is the number of slots allocated |
| Zhebut.VisitCoversTheLowerTriangle | src/zhebut_wrapper.c:431-432 | From the top: every (i, j) with j <= i < 2^level once, filling the array exactly |
| Zhebut.AcceptedBelow | src/zhebut_wrapper.c:413-424 | The guards inside the level loop cannot fail once the outer ones have passed |
| Zhebut.ApplyLevel | src/zhebut_wrapper.c:431-435 | Every pool made on a level is destroyed by the destructor matching its constructor |
| Zhebut.PoolsOfPass | src/zhebut_wrapper.c:331-343 | One pool of a level is Hermitian for each row of blocks and all others are general; a pool is Hermitian if and only if an element of the diagonal of the matrix lies in its block |
| Zhebut.Apply | src/zhebut_wrapper.c:375-450 | The size is refused and nothing done, or the levels are applied from the deepest up to the first that reports a problem |
| Zhebut.CutUpExactlyIfAllFit | src/zhebut_wrapper.c:413-435 | All blocks visited on all levels are cut up by their segments if and only if every block of every level has one of the fitting amounts of room |
| Zhebut.VisitedBlocksAreBlocks | src/zhebut_wrapper.c:413-435 | The same condition is necessary and sufficient for every block visited to have what the segment map relies on |
| Zhebut.EveryElementOnce | src/zhebut_wrapper.c:413-435 | Then an element of the matrix is in one segment of the block that its row and column number give, and in no segment of another block visited on that level |
| Zhebut.FourTilesPerBlock | src/zhebut_wrapper.c:413-435 | Four tiles or more per block on the deepest level are enough for that |
| Zhebut.GuardsAreNotEnough | src/zhebut_wrapper.c:389-396 | A matrix the guards accept although the segments of one block do not cut it up |
| Zhebut.TypesCanBeWrong | src/butterfly_map.c:380-385 | A matrix the guards accept and a block visited in it whose type index gives wrong sizes |
| LuTable.Split | src/zgetrf_qrf_wrapper.c:29-40 | The split point and share of C's divisions leave both parts not empty, and their lengths and numbers of LU steps differ by at most one |
| LuTable.SplitIsBalanced | src/zgetrf_qrf_wrapper.c:29-40 | Neither part is empty, they differ by at most one in length and in LU steps, and no share is lost to a part that is full while the other is not |
| LuTable.GenRandomLutab | src/zgetrf_qrf_wrapper.c:21-46 | The recursion terminates, writes the interval and nothing else |
| LuTable.AsManyOnesAsAsked | src/zgetrf_qrf_wrapper.c:21-46 | All entries are 0 or 1 and as many are 1 as asked for, or all of them |
| LuTable.EvenlySpread | src/zgetrf_qrf_wrapper.c:21-46 | After d splits each interval has a 2^d-th of the steps and of the LU steps, rounded up or down, and the table holds that many ones there |
| LuTable.OddOneAlternates | src/zgetrf_qrf_wrapper.c:32-40 | On even depths the left part has the smaller half of the steps and of the LU steps, on odd depths the larger |
| LuTable.SingleOne | src/zgetrf_qrf_wrapper.c:21-46 | Where the one of a table with a single LU step is |
| LuTable.AfterTwoThirds | src/zgetrf_qrf_wrapper.c:21-46 | In a table of 4^m steps it comes after two thirds of them |
| LuTable.RandomCriterion | src/zgetrf_qrf_wrapper.c:189-193 | The caller's table is the one of the rounded share, with alpha percent ones to the nearest number, all ones from 100 percent on |

## Left out

- The LQ variants (`trans` other than `dplasmaNoTrans`), which only exchange `mt` and `nt`, and the argument errors of the constructors.
- Overflow of machine integers, failing allocation, and the value of `currpiv(k, k)`, which the code leaves unspecified.
- Tables are modelled as one sequence per domain and step instead of one flat array with computed offsets, and `arg->minMN` is not changed after the fact; reads outside a table row are therefore not modelled as reads of the next row.
- `log(x)/log(2.)` is the integer part of the logarithm to base two; BinaryTrees.LastPlace tolerates a result that is one too small at a power of two.
- LowTrees.BinaryNextpiv: without the domino tree the code still computes the killer of `start_pa`, with the root of domain 0, for an assertion that then holds whatever it is (src/dplasma_hqr.c:414); the model computes it only with the domino tree, where the assertion depends on it.
- HqrInit.OnePanelOffsets: the `firstk` bookkeeping of the outer loop is dropped; all it does is end the loop.
- AdaptiveTrees: the `svd_*` lookups repeat the `hqr_*` ones with the domino tree off and per-step height; they are modelled as the `hqr_*` lookups of that step seen as a hierarchical tree. `ratio * nbcores` is assumed positive.
- HqrLookups.Nextpiv: with the round-robin on, kill order is proved on places; that a killer's row number is smaller than its victim's holds only with it off.
- KillLoop.Run: the text of the drawing, including the edges found with `prevpiv`, is not modelled; nodes and ticks are. The `done` array is written but never read and is left out.
- ButterflyMap.AxisConstants: blocks of odd size, which the driver does not exclude, have halves of different length and are not modelled.
- ButterflySegments.SegmentToTile: tiles are square and `lm` equals the order of the matrix, as the code assumes; negative segment numbers are not modelled, and the result for numbers out of range is "no place" where the code leaves its outputs unset.
- Zhebut.Apply: what the tasks of a level do to the matrix, the random vectors and their scaling are not modelled; `info` is a parameter.
- LuTable.RandomCriterion: `alpha` is a real number, not a double, and not negative; an empty matrix, on which the recursion of the code would not end, is excluded.
- The other criteria of the hybrid factorization, all task pool construction, GPU and memory heuristics, kernels, norms and Fortran bindings.
- The `FLAT_UP` alternative and the disabled `#if 0` blocks.
