# Diagonal Sudoku solver, modelled in Dafny

This project models the solver in `Projects/1_Sudoku/solution.py`. It solves diagonal 9×9 Sudoku by constraint propagation and depth-first search.

A puzzle state is the candidate mapping. It maps each of the 81 boxes to the digits still possible there. The source keeps candidates as strings such as `'1789'`; here they are a set of digits.

The model has these parts:

- **Topology** (`topology.dfy`, module `Topology`):
  - the 29 units: 9 rows, 9 columns, 9 squares and the two main diagonals;
  - the units of each box;
  - the peers of each box.

  Boxes are indexed `9 * row + column`, which is the row-major order of `boxes`.
- **The candidate mapping** (`grid.dfy`, module `Grids`). It defines:
  - refinement: no box gains a digit;
  - the solved count and the total candidate count;
  - what a solution is: every box holds one digit and no two peers share a digit.
- **The three strategies**:
  - `eliminate` (`eliminate.dfy`);
  - `only_choice` (`onlychoice.dfy`);
  - `naked_twins` (`nakedtwins.dfy`).

  Each becomes a method that updates an `array` of candidate sets in place, with the source's nested loops. Each method is proved equal to a specification function: a fold that records the mapping after each turn of the outer loop. The properties of each strategy are lemmas about that fold. They cover:
  - what a turn may change;
  - what it guarantees afterwards;
  - that a solution contained in the input is still contained in the output (soundness).
- **`reduce_puzzle`** (`reduce.dfy`): the `while not stalled` loop, proved equal to the recursive function `Reduced`. `Reduced` terminates because 81 minus the solved count decreases.
- **`search`** (`search.dfy`): recursion over a fresh copy of the mapping for each candidate of the chosen box, proved equal to `SearchSpec`. It terminates because the total candidate count decreases. `search` is:
  - sound: whatever it returns is a solution inside its input;
  - complete: it succeeds exactly when such a solution exists.
- **Naked twins as documented** (`snapshot.dfy`): the variant the docstring of `naked_twins` asks for, plus a concrete puzzle on which the code as written differs from it (see "## Findings").

Both failure results of the source are modelled as `None`: the `False` from `reduce_puzzle` and `search`, and the implicit `None` that `search` returns when no branch succeeds.

`utils` (`cross`, `rows`, `cols`, `boxes`, `extract_units`, `extract_peers`) is not part of this model. Its functions are modelled from their evident meaning:
- `cross` is the concatenation product, rows first;
- the units of a box are the units of the unit list that contain it, in unit-list order;
- the peers of a box are the union of its units without the box itself.

## Model

| member | source | states |
|---|---|---|
| `Topology.Rows` | Projects/1_Sudoku/solution.py:4-5 | `rows`, the labels A to I, as the row indices 0 to 8 in order |
| `Topology.Cols` | Projects/1_Sudoku/solution.py:4-5 | `cols`, the labels 1 to 9, as the column indices 0 to 8 in order |
| `Topology.Bands` | Projects/1_Sudoku/solution.py:6 | the row groups `('ABC', 'DEF', 'GHI')`, as index triples in that order |
| `Topology.Stacks` | Projects/1_Sudoku/solution.py:7 | the column groups `('123', '456', '789')`, as index triples in that order |
| `Topology.Cross` | Projects/1_Sudoku/solution.py:4-7 | the product of `r` row labels and `c` column labels has `r * c` boxes |
| `Topology.CrossMembers` | Projects/1_Sudoku/solution.py:4-7 | a box is in `cross(rs, cs)` exactly when its row is in `rs` and its column is in `cs` |
| `Topology.CrossDistinct` | Projects/1_Sudoku/solution.py:4-7 | `cross` of distinct labels lists no box twice |
| `Topology.RowUnit` | Projects/1_Sudoku/solution.py:4 | the unit of row `r`: `cross` of that row label with all nine column labels |
| `Topology.ColumnUnit` | Projects/1_Sudoku/solution.py:5 | the unit of column `c`: `cross` of all nine row labels with that column label |
| `Topology.SquareUnit` | Projects/1_Sudoku/solution.py:6-7 | square `k`: `cross` of row group `k / 3` with column group `k % 3`, row groups outermost |
| `Topology.Diagonal` | Projects/1_Sudoku/solution.py:12 | `zip(rows, cols)`: the boxes A1, B2, …, I9 in row order |
| `Topology.AntiDiagonal` | Projects/1_Sudoku/solution.py:13 | `zip(rows, cols[::-1])`: the boxes A9, B8, …, I1 in row order |
| `Topology.UnitAt` | Projects/1_Sudoku/solution.py:8-13 | unit `k` of `unitlist`: rows for 0-8, columns for 9-17, squares for 18-26, the diagonal at 27, the anti-diagonal at 28 |
| `Topology.UnitsOf` | Projects/1_Sudoku/solution.py:17 | `units[box]`: the units of `unitlist` that contain the box, in unit-list order (its contents are stated by `UnitsFrom`) |
| `Topology.Peers` | Projects/1_Sudoku/solution.py:18 | `peers[box]`: every box of a unit of the box, except the box itself (characterised by `PeersShareUnit` and `PeersByPosition`) |
| `Topology.RowUnitMembers` | Projects/1_Sudoku/solution.py:4 | a row unit holds exactly the boxes of that row |
| `Topology.ColumnUnitMembers` | Projects/1_Sudoku/solution.py:5 | a column unit holds exactly the boxes of that column |
| `Topology.SquareUnitMembers` | Projects/1_Sudoku/solution.py:6-7 | square `k` holds exactly the boxes of row group `k / 3` and column group `k % 3` |
| `Topology.DiagonalMembers` | Projects/1_Sudoku/solution.py:12 | the diagonal unit holds exactly the boxes whose row equals their column |
| `Topology.AntiDiagonalMembers` | Projects/1_Sudoku/solution.py:13 | the anti-diagonal unit holds exactly the boxes whose row and column add up to 8 |
| `Topology.RowUnitShape` | Projects/1_Sudoku/solution.py:4 | every row unit has 9 distinct boxes |
| `Topology.ColumnUnitShape` | Projects/1_Sudoku/solution.py:5 | every column unit has 9 distinct boxes |
| `Topology.SquareUnitShape` | Projects/1_Sudoku/solution.py:6-7 | every square unit has 9 distinct boxes |
| `Topology.DiagonalShape` | Projects/1_Sudoku/solution.py:11-13 | both diagonal units have 9 distinct boxes |
| `Topology.UnitAtShape` | Projects/1_Sudoku/solution.py:4-13 | each of the 29 units has 9 distinct boxes |
| `Topology.UnitList` | Projects/1_Sudoku/solution.py:8-13 | `unitlist`: the 29 units `UnitAt(0)` to `UnitAt(28)` in that order, so rows, columns, squares, then the two diagonals (the shape of its units is stated by `UnitListShape`, the diagonals by `DiagonalUnits`) |
| `Topology.UnitListShape` | Projects/1_Sudoku/solution.py:4-18 | 29 units of 9 distinct boxes each; every unit of a box has 9 distinct boxes and contains the box |
| `Topology.DiagonalUnits` | Projects/1_Sudoku/solution.py:11-13 | the diagonals are A1, B2, …, I9 and A9, B8, …, I1 |
| `Topology.UnitsFrom` | Projects/1_Sudoku/solution.py:17 | `units[box]` holds exactly the units of the unit list that contain the box |
| `Topology.UnitAtOf` | Projects/1_Sudoku/solution.py:17 | every unit containing a box is one of its units |
| `Topology.OwnUnitsDiffer` | Projects/1_Sudoku/solution.py:4-8 | the row, column and square of a box are three different units |
| `Topology.RowUnitOf` | Projects/1_Sudoku/solution.py:17 | the row of a box is one of its units |
| `Topology.ColumnUnitOf` | Projects/1_Sudoku/solution.py:17 | the column of a box is one of its units |
| `Topology.SquareUnitOf` | Projects/1_Sudoku/solution.py:17 | the square of a box is one of its units |
| `Topology.CellHasThreeUnits` | Projects/1_Sudoku/solution.py:17 | every box has its row, column and square among its units, so at least three units |
| `Topology.PeersShareUnit` | Projects/1_Sudoku/solution.py:18 | `p` is a peer of `c` exactly when they differ and share a unit; no box is its own peer; the relation is symmetric |
| `Topology.UnitMembersArePeers` | Projects/1_Sudoku/solution.py:18 | two different boxes of one unit are peers |
| `Topology.UnitAtMembers` | Projects/1_Sudoku/solution.py:4-13 | membership of unit `k`, in terms of the row, column, square and diagonals of the box |
| `Topology.PeersByPosition` | Projects/1_Sudoku/solution.py:4-18 | `b` is a peer of `a` exactly when they differ and share a row, column, square or diagonal |
| `Grids.AllDigits` | Projects/1_Sudoku/solution.py:118 | the digit string `'123456789'` as the set of all nine digits |
| `Grids.HasEmpty` | Projects/1_Sudoku/solution.py:164 | the sanity check of `reduce_puzzle`: some box has no candidate left |
| `Grids.AllSolved` | Projects/1_Sudoku/solution.py:194 | `all(len(v) == 1 for v in values.values())`: every box holds exactly one digit |
| `Grids.CountSolved` | Projects/1_Sudoku/solution.py:146-147 | the solved count of the first `n` boxes is at most `n` |
| `Grids.SolvedCount` | Projects/1_Sudoku/solution.py:146-147 | `solved_values_before` is at most 81 |
| `Grids.CountSolvedGrows` | Projects/1_Sudoku/solution.py:146-160 | if every box solved in `g` is solved in `h`, the count does not fall, and equal counts mean the same solved boxes |
| `Grids.SolvedCountGrows` | Projects/1_Sudoku/solution.py:146-160 | the same for all 81 boxes: the `stalled` test detects that no new box was solved |
| `Grids.SizeSumShrinks` | Projects/1_Sudoku/solution.py:203-206 | a refined mapping has no more candidates, and strictly fewer once one box shrinks |
| `Grids.VolumeShrinks` | Projects/1_Sudoku/solution.py:203-206 | the same for the whole mapping: the measure under which `search` terminates |
| `EliminateStrategy.RemoveFrom` | Projects/1_Sudoku/solution.py:89-91 | the effect of the peer loop: the digits `v` leave every box of `ps`, and no other box changes |
| `EliminateStrategy.Visit` | Projects/1_Sudoku/solution.py:86-91 | one turn of the outer loop at box `k`: if `k` holds a single digit at that moment, that digit leaves every peer of `k`; otherwise nothing changes |
| `EliminateStrategy.EliminateUpTo` | Projects/1_Sudoku/solution.py:86-91 | the mapping after the outer loop has visited the first `n` boxes in `boxes` order, each turn reading the mapping left by the previous turns |
| `EliminateStrategy.Eliminated` | Projects/1_Sudoku/solution.py:86-93 | the mapping `eliminate` returns: all 81 turns |
| `EliminateStrategy.Eliminate` | Projects/1_Sudoku/solution.py:86-93 | the in-place pass leaves exactly the mapping of the fold over `boxes` order, each box read when it is visited |
| `EliminateStrategy.RemoveFromAll` | Projects/1_Sudoku/solution.py:89-91 | removing the digit from every peer, in any order, gives the same mapping |
| `EliminateStrategy.RemoveFromEffect` | Projects/1_Sudoku/solution.py:89-91 | removing digits adds none, changes only the chosen boxes, and leaves them without those digits |
| `EliminateStrategy.VisitEffect` | Projects/1_Sudoku/solution.py:88-91 | a visit adds no digit, leaves the visited box alone, changes only its peers, and clears its single digit from all of them |
| `EliminateStrategy.EliminateUpToShrinks` | Projects/1_Sudoku/solution.py:86-91 | later stages of the pass refine earlier ones |
| `EliminateStrategy.EliminatedRefines` | Projects/1_Sudoku/solution.py:86-93 | `eliminate` keeps all 81 boxes and never adds a digit |
| `EliminateStrategy.EliminateClearsPeers` | Projects/1_Sudoku/solution.py:86-91 | a box single-valued when visited keeps its value through its visit, and its digit is absent from every peer at the end |
| `EliminateStrategy.EliminateDetectsClash` | Projects/1_Sudoku/solution.py:86-91 | unless the pass empties a box, no digit single in the input survives in a peer |
| `EliminateStrategy.EliminateUpToKeepsSolution` | Projects/1_Sudoku/solution.py:86-91 | every stage of the pass keeps a solution contained in its input |
| `EliminateStrategy.EliminateKeepsSolution` | Projects/1_Sudoku/solution.py:73-74 | `eliminate` is sound: a solution inside the input is inside the output |
| `OnlyChoiceStrategy.Locations` | Projects/1_Sudoku/solution.py:120 | `d_locations` holds exactly the boxes of the unit that allow `d`, without repeats |
| `OnlyChoiceStrategy.Assign` | Projects/1_Sudoku/solution.py:120-123 | one turn of the digit loop: if digit `d` is allowed at exactly one box of the unit, that box becomes `{d}`; otherwise nothing changes |
| `OnlyChoiceStrategy.DigitsUpTo` | Projects/1_Sudoku/solution.py:118-123 | the mapping after digits 1 to `n` have been tried, in that order, on one unit |
| `OnlyChoiceStrategy.UnitsUpTo` | Projects/1_Sudoku/solution.py:117-123 | the mapping after the first `n` units of `unitlist` have been processed, each on the mapping left by the previous ones |
| `OnlyChoiceStrategy.OnlyChosen` | Projects/1_Sudoku/solution.py:117-125 | the mapping `only_choice` returns: all 29 units |
| `OnlyChoiceStrategy.OnlyChoice` | Projects/1_Sudoku/solution.py:117-125 | the in-place pass leaves exactly the mapping of the fold over `unitlist` |
| `OnlyChoiceStrategy.ChooseInUnit` | Projects/1_Sudoku/solution.py:118-123 | the loop over digits 1-9 of one unit leaves exactly the fold over those digits |
| `OnlyChoiceStrategy.Place` | Projects/1_Sudoku/solution.py:123 | the assignment sets that one box to `{d}` and nothing else |
| `OnlyChoiceStrategy.AssignEffect` | Projects/1_Sudoku/solution.py:120-123 | a turn changes at most the single location of `d` in the unit, and sets it to `{d}` |
| `OnlyChoiceStrategy.DigitsUpToStep` | Projects/1_Sudoku/solution.py:118-123 | the digits loop of one unit only narrows boxes to one of their own digits |
| `OnlyChoiceStrategy.UnitsUpToStep` | Projects/1_Sudoku/solution.py:117-123 | so does every prefix of the loop over units |
| `OnlyChoiceStrategy.OnlyChosenEffect` | Projects/1_Sudoku/solution.py:117-125 | each box keeps its set or becomes one of its own digits; the pass adds no digit, empties no box and keeps single-valued boxes |
| `OnlyChoiceStrategy.NineCellsFillDigits` | Projects/1_Sudoku/solution.py:99-100 | nine distinct single-digit boxes sharing no digit hold every digit exactly once |
| `OnlyChoiceStrategy.OneLocation` | Projects/1_Sudoku/solution.py:120-122 | a digit allowed at one box and at no other box of the unit has exactly one location |
| `OnlyChoiceStrategy.SolutionFillsUnits` | Projects/1_Sudoku/solution.py:99-100 | in a solution every unit holds each digit exactly once |
| `OnlyChoiceStrategy.AssignKeepsSolution` | Projects/1_Sudoku/solution.py:120-123 | a turn keeps a solution inside the mapping |
| `OnlyChoiceStrategy.DigitsUpToKeepsSolution` | Projects/1_Sudoku/solution.py:118-123 | so does the loop over the digits of a unit |
| `OnlyChoiceStrategy.UnitsUpToKeepsSolution` | Projects/1_Sudoku/solution.py:117-123 | so does every prefix of the loop over units |
| `OnlyChoiceStrategy.OnlyChoiceKeepsSolution` | Projects/1_Sudoku/solution.py:99-100 | `only_choice` is sound: a solution inside the input is inside the output |
| `NakedTwinsStrategy.Twins` | Projects/1_Sudoku/solution.py:59 | `bs` holds exactly the boxes of the unit whose set equals `v`, without repeats |
| `NakedTwinsStrategy.Others` | Projects/1_Sudoku/solution.py:63 | the boxes of the unit not in `bs` |
| `NakedTwinsStrategy.ClearUnit` | Projects/1_Sudoku/solution.py:59-65 | one turn of the units loop: if exactly two boxes of the unit hold the pair `v`, both digits of `v` leave every other box of the unit; otherwise nothing changes |
| `NakedTwinsStrategy.ClearUnits` | Projects/1_Sudoku/solution.py:58-65 | the mapping after the first `n` units of the visited box have been processed with the pair held fixed |
| `NakedTwinsStrategy.VisitTwin` | Projects/1_Sudoku/solution.py:54-65 | one turn of the outer loop at box `k`: if `k` holds two digits at that moment, every unit of `k` is processed with that pair |
| `NakedTwinsStrategy.NakedTwinsUpTo` | Projects/1_Sudoku/solution.py:54-65 | the mapping after the outer loop has visited the first `n` boxes in `boxes` order, each pair read from the mapping as already changed |
| `NakedTwinsStrategy.NakedTwinned` | Projects/1_Sudoku/solution.py:54-67 | the mapping `naked_twins` returns: all 81 turns |
| `NakedTwinsStrategy.NakedTwins` | Projects/1_Sudoku/solution.py:54-67 | the in-place pass leaves exactly the mapping of the fold over `boxes` order, each pair read when its box is visited |
| `NakedTwinsStrategy.ClearUnitsOf` | Projects/1_Sudoku/solution.py:58-65 | the loop over the units of one box leaves exactly the fold over those units |
| `NakedTwinsStrategy.ClearTwinsIn` | Projects/1_Sudoku/solution.py:59-65 | the turn on one unit leaves exactly its specified mapping |
| `NakedTwinsStrategy.RemoveDigits` | Projects/1_Sudoku/solution.py:64-65 | the loop over the two digits removes them from that box and changes nothing else |
| `NakedTwinsStrategy.ClearUnitEffect` | Projects/1_Sudoku/solution.py:59-65 | a turn adds no digit; it removes only the digits of `v`, only from non-twins of a unit with exactly two twins; afterwards they share no digit with `v`; the twins are unchanged |
| `NakedTwinsStrategy.ClearUnitKeepsOthers` | Projects/1_Sudoku/solution.py:59-65 | a turn never makes a box equal to the pair when it was not already |
| `NakedTwinsStrategy.ClearUnitKeepsSolution` | Projects/1_Sudoku/solution.py:24-27 | a turn on a unit keeps a solution inside the mapping |
| `NakedTwinsStrategy.UnitOfSolution` | Projects/1_Sudoku/solution.py:58 | in a solution, the boxes of any unit of a box are distinct and take pairwise different digits |
| `NakedTwinsStrategy.UnitAtOfSolution` | Projects/1_Sudoku/solution.py:8-13 | the same for every unit of the unit list |
| `NakedTwinsStrategy.ClearUnitsEffect` | Projects/1_Sudoku/solution.py:58-65 | the loop over units adds no digit and changes no box to or from the pair `v` |
| `NakedTwinsStrategy.ClearUnitsKeepsSolution` | Projects/1_Sudoku/solution.py:58-65 | the loop over units keeps a solution inside the mapping |
| `NakedTwinsStrategy.NakedTwinsUpToShrinks` | Projects/1_Sudoku/solution.py:54-65 | later stages of the pass refine earlier ones |
| `NakedTwinsStrategy.NakedTwinnedRefines` | Projects/1_Sudoku/solution.py:54-67 | `naked_twins` keeps all boxes and no set ever grows |
| `NakedTwinsStrategy.NakedTwinsClearsUnit` | Projects/1_Sudoku/solution.py:54-65 | once a pair with exactly two twins in a unit is processed, no other box of that unit holds either digit at any later stage, in particular at the end |
| `NakedTwinsStrategy.VisitTwinEffect` | Projects/1_Sudoku/solution.py:54-65 | a visit leaves its own box alone and changes only peers, each of which loses exactly the digits of the pair |
| `NakedTwinsStrategy.ClearUnitsLocal` | Projects/1_Sudoku/solution.py:58-65 | the loop over units touches only boxes that share a unit with the visited box, removing the pair from them |
| `NakedTwinsStrategy.ClearUnitsRest` | Projects/1_Sudoku/solution.py:58-65 | later units of the loop refine earlier stages |
| `NakedTwinsStrategy.NakedTwinsUpToKeepsSolution` | Projects/1_Sudoku/solution.py:54-65 | every stage of the pass keeps a solution inside the mapping |
| `NakedTwinsStrategy.NakedTwinsKeepsSolution` | Projects/1_Sudoku/solution.py:24-27 | `naked_twins` is sound: a solution inside the input is inside the output |
| `Reduction.Round` | Projects/1_Sudoku/solution.py:150-153 | one round of the loop: `eliminate`, then `only_choice` |
| `Reduction.Reduced` | Projects/1_Sudoku/solution.py:143-167 | the value of `reduce_puzzle`: `None` (for `False`) once a round leaves an empty box, the mapping once a round solves no new box, and otherwise another round |
| `Reduction.ReducedState` | Projects/1_Sudoku/solution.py:143-167 | the mapping `reduce_puzzle` leaves behind, also when it returns `False`: the mapping after the last round run |
| `Reduction.RoundEffect` | Projects/1_Sudoku/solution.py:146-160 | a round adds no digit; unless it empties a box, it keeps every solved box, so the solved count cannot fall |
| `Reduction.ReducedStateAgrees` | Projects/1_Sudoku/solution.py:143-167 | the result is `False` exactly when the mapping left behind has an empty box; otherwise the result is that mapping |
| `Reduction.ReducePuzzle` | Projects/1_Sudoku/solution.py:128-167 | the loop returns `false` exactly when the reduction fails, and leaves the mapping the reduction leaves |
| `Reduction.ReducedRefines` | Projects/1_Sudoku/solution.py:143-167 | a successful result has no empty box, adds no digit and keeps every single-valued input box |
| `Reduction.ReducedSolvedDiffer` | Projects/1_Sudoku/solution.py:146-165 | in a successful result no two peers are solved with the same digit, because the stalling round ran `eliminate` |
| `Reduction.ReducedSolvedIsSolution` | Projects/1_Sudoku/solution.py:143-167 | a successful, fully solved result is a solution, and each unit holds every digit exactly once |
| `Reduction.ReducedKeepsSolution` | Projects/1_Sudoku/solution.py:128-167 | if a solution lies inside the input, the reduction does not fail and keeps the solution inside its result |
| `DepthFirstSearch.ChooseCell` | Projects/1_Sudoku/solution.py:198-199 | `m`: an unsolved box with the fewest candidates, the first such box in `boxes` order |
| `DepthFirstSearch.Branch` | Projects/1_Sudoku/solution.py:204-205 | the mapping of one branch: the reduced mapping with box `m` set to the single digit |
| `DepthFirstSearch.SearchSpec` | Projects/1_Sudoku/solution.py:170-208 | the value of `search`: failure if the reduction fails, the reduced mapping if it is fully solved, and otherwise the candidate loop at the chosen box |
| `DepthFirstSearch.TryDigits` | Projects/1_Sudoku/solution.py:203-208 | the candidate loop from digit `d` on, in ascending order: the first branch whose search succeeds gives the result, and failure if none does |
| `DepthFirstSearch.Smallest` | Projects/1_Sudoku/solution.py:198-199 | `min` finds an unsolved box exactly when one exists; the box has the fewest candidates, and is the first such box in `boxes` order |
| `DepthFirstSearch.BranchShrinks` | Projects/1_Sudoku/solution.py:203-205 | a branch differs from the reduced mapping only at the chosen box, which keeps one of its candidates, so the candidate total strictly falls |
| `DepthFirstSearch.Search` | Projects/1_Sudoku/solution.py:170-208 | the recursive search returns the specified result and leaves its own mapping reduced in place |
| `DepthFirstSearch.SearchBranches` | Projects/1_Sudoku/solution.py:203-208 | the loop over candidates returns the first successful branch in ascending digit order, or failure |
| `DepthFirstSearch.CopyWith` | Projects/1_Sudoku/solution.py:204-205 | each branch works on a fresh copy with the chosen box set to the digit |
| `DepthFirstSearch.TryDigitsStep` | Projects/1_Sudoku/solution.py:203-208 | one turn of the candidate loop: skip a non-candidate, return a success, or go on after a failure |
| `DepthFirstSearch.SearchSound` | Projects/1_Sudoku/solution.py:191-208 | a non-failure result is a solution, with every digit drawn from the input's candidates |
| `DepthFirstSearch.TryDigitsSound` | Projects/1_Sudoku/solution.py:203-208 | a successful branch loop returns a solution inside the reduced mapping |
| `DepthFirstSearch.SearchComplete` | Projects/1_Sudoku/solution.py:170-208 | if a solution lies inside the input, `search` does not fail |
| `DepthFirstSearch.SolutionBranch` | Projects/1_Sudoku/solution.py:203-205 | a solution inside the mapping lies inside the branch for its own digit at the chosen box |
| `DepthFirstSearch.TryDigitsReaches` | Projects/1_Sudoku/solution.py:203-208 | if the branch for candidate `e` succeeds, the loop succeeds at or before `e` |
| `DepthFirstSearch.SearchSucceedsIff` | Projects/1_Sudoku/solution.py:170-208 | `search` succeeds exactly when some solution lies inside its input |
| `NakedTwinsSnapshot.SnapshotTwins` | Projects/1_Sudoku/solution.py:41-47 | the documented convention: every naked pair of the input mapping is applied to its unit, whatever the other pairs remove |
| `NakedTwinsSnapshot.SnapshotProcessesAllPairs` | Projects/1_Sudoku/solution.py:41-47 | the documented promise for `SnapshotTwins`: no digit is added, and every pair of the input is cleared from the rest of its unit; this holds directly by the definition of `SnapshotTwins`, and `SnapshotKeepsSolution` is what is proved about it |
| `NakedTwinsSnapshot.SnapshotKeepsSolution` | Projects/1_Sudoku/solution.py:24-27 | that processing is sound: a solution inside the input is inside the result |
| `NakedTwinsSnapshot.ExampleCells` | Projects/1_Sudoku/solution.py:41-47 | in the example, only B1 and B2 hold `'12'`, and only A1 and A2 hold `'13'` |
| `NakedTwinsSnapshot.TwoTwins` | Projects/1_Sudoku/solution.py:59-62 | a unit holding `v` at exactly two boxes has exactly two twins |
| `NakedTwinsSnapshot.ExampleRowPair` | Projects/1_Sudoku/solution.py:41-47 | B1 and B2 are a naked pair of row B in the input, and B4 lies outside it |
| `NakedTwinsSnapshot.ExampleSquare` | Projects/1_Sudoku/solution.py:6-7 | the square of A1 holds `'13'` exactly at A1 and A2, and contains B1 and B2 |
| `NakedTwinsSnapshot.FirstPairClears` | Projects/1_Sudoku/solution.py:54-65 | a pair met before any change, alone in its unit, clears the rest of the unit for the rest of the pass |
| `NakedTwinsSnapshot.ExampleClearsSquare` | Projects/1_Sudoku/solution.py:54-65 | the turn at A1 removes 1 and 3 from B1 and B2 |
| `NakedTwinsSnapshot.VisitTwinKeepsEqual` | Projects/1_Sudoku/solution.py:59-62 | a visit does not change a box equal to the visited pair |
| `NakedTwinsSnapshot.TwoVisitsEffect` | Projects/1_Sudoku/solution.py:54-65 | two visits with the same pair only remove that pair, and only from peers of the two boxes |
| `NakedTwinsSnapshot.ExampleSizes` | Projects/1_Sudoku/solution.py:56 | after those visits, no box from A3 on holds two candidates |
| `NakedTwinsSnapshot.ExampleAfterA2` | Projects/1_Sudoku/solution.py:54-65 | after the turns at A1 and A2, B4 is still `'125'` and no box from A3 on holds two candidates |
| `NakedTwinsSnapshot.ExampleInertTail` | Projects/1_Sudoku/solution.py:54-56 | the rest of the outer loop changes nothing in the example |
| `NakedTwinsSnapshot.InterleavingMissesPair` | Projects/1_Sudoku/solution.py:54-65 | on the example, B4 keeps the digit 1 of the input's row-B pair, which the documented processing removes |

## Left out

- `solve`, `grid2values` and `display` (solution.py:211-230 and `utils`) are left out. They parse and print grid strings. The model takes the initial candidate mapping as an input.
- The `__main__` block and the PySudoku/pygame visualisation with `history` are left out. They are user interface and I/O.
- `utils` is not part of this model. `cross`, `rows`, `cols`, `boxes`, `extract_units` and `extract_peers` are modelled from their evident meaning. In particular, the units of a box are listed in unit-list order. That order decides the order in which `naked_twins` visits them.
- Candidate strings are modelled as sets of digits. This rests on one assumption: every string stays in ascending digit order. Strings are `'123456789'` or a single digit when created; `replace` and single-digit assignment keep the order. Under that assumption:
  - string equality in `naked_twins` is set equality;
  - `for v in values[m]` in `search` tries the digits in ascending order.
- The mapping is assumed to iterate in `boxes` order. `eliminate` and `naked_twins` loop over `values.items()` (solution.py:54, :86), whose order is the key order `grid2values` in `utils` built the mapping with. `values.copy()` (solution.py:204) and the in-place writes keep that order. `search` also relies on it: `min` at solution.py:198-199 scans the dictionary built by `{b: … for b in boxes …}`, and keeps the first of several smallest boxes in that dictionary's order. Python guarantees that a dictionary iterates in insertion order only from version 3.7 on. `ChooseCell` takes the first such box in `boxes` order, which is that insertion order. The folds `EliminateUpTo` and `NakedTwinsUpTo` visit boxes 0 to 80, and the results of both strategies depend on that order.
- `peers[box]` is a Python set, so its iteration order is unspecified. `RemoveFromAll` picks the cells in any order, and its result does not depend on the order.
- `reduce_puzzle` and `search` do not call `naked_twins`, although the docstring at solution.py:186-187 suggests `search` should; the model follows the code. `naked_twins` is a standalone operation, and no other operation uses either naked-twins variant.
- The number of peers of a box is not proved; the model characterises the peers themselves (`Topology.PeersByPosition`).
- The returned dictionaries are modelled as the in-place array. `eliminate`, `only_choice` and `naked_twins` return the object they were given. `reduce_puzzle` returns it or `False`, modelled as the array plus a boolean.
- Python object identity and aliasing are left out beyond what the source relies on. `search` reduces its argument in place, and `Search` states that final mapping. Each branch works on a fresh array.
- Non-diagonal variants are not modelled: the code always appends both diagonals.

## Findings

| source | as written | input that shows it | evidently intended | confidence | as-written member | corrected member |
|---|---|---|---|---|---|---|
| Projects/1_Sudoku/solution.py:54-65 | The outer loop reads each box's pair from the mapping as already changed by earlier turns. An earlier pair can therefore destroy a later pair of the input before that pair is processed. | A1 and A2 hold `'13'`, B1 and B2 hold `'12'`, B4 holds `'125'`, every other box `'123456789'`. The turn at A1 clears 1 and 3 from B1 and B2 (same square), so the row-B pair is never seen, and B4 keeps 1. | Every naked pair of the original input is processed, as the docstring at lines 41-47 requires. On this input, B4 loses 1 and 2. | high, not executed | `NakedTwinsSnapshot.InterleavingMissesPair` | `NakedTwinsSnapshot.SnapshotTwins` (its promise stated by `SnapshotProcessesAllPairs`, holding by definition; soundness proved by `SnapshotKeepsSolution`) |
