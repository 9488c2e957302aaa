# Sudoku solver and validity check, modelled in Dafny

This project models the two source files of a TypeScript Sudoku solver.

`sudokuSolver.ts` treats the 9x9 board as a graph-colouring problem:
- cells are numbered 0..80, row by row (`rcToNode` / `nodeToRc`);
- an adjacency table `adjList` lists, for every cell, the cells sharing its row, column or 3x3 block;
- the puzzle's non-zero cells seed a colour map;
- a recursive backtracking search completes that map. It picks the cell with the fewest candidate digits (the minimum-remaining-values, or MRV, heuristic) and mutates one shared assignment in place: it writes a trial digit, and deletes it when the recursion fails;
- the final assignment is written into a fresh 9x9 grid.

`isValidSudoku.ts` checks that no row, column or 3x3 block repeats a non-zero digit.

Modules:
- `Board` (board.dfy): the cell numbering and the neighbour relation.
- `Adjacency` (adjacency.dfy): the neighbour list each cell ends up with, as the functions `RowColPart`, `BlockPart` and `NeighbourList`. Each lists the cells in the order the construction loops push them. The lemmas prove what those lists hold.
- `Validator` (validator.dfy): `isValidSudoku`, as a conjunction of quantified predicates over rows, columns and blocks. Its lemmas prove it equivalent to "no two neighbouring cells share a non-zero digit".
- `Solver` (solver.dfy): the imperative parts, in the source's own form:
  - the table construction loops, as methods over a `seq<seq<int>>`;
  - the seeding loop;
  - `possibleColors`, as a method with two loops;
  - `backtrack`, as a recursive method on a class `Assignment` whose `colors` map it updates in place;
  - result assembly and `sudokuSolver` itself.
  The MRV `reduce` and the `filter` are functions.
- `Seqs` (seqs.dfy): facts about sequences, the sets of their elements and repeat-freedom.

The model follows the code where it differs from what the tests expect (`sudoku.test.ts:50-58`) or from what a reader might assume:
- The tests expect `null` for an unsolvable puzzle and for a puzzle with repeated givens. The code returns no `null`: failure throws `Error("No solution ...")` (`sudokuSolver.ts:144-146`). The model returns the datatype value `Solver.Outcome.NoSolution` for that throw, and `Solver.Outcome.Solved` carries the grid otherwise.
- The code never calls `isValidSudoku` before searching, so a puzzle with repeated givens simply reaches the search.
- A reader might assume only the blank cells are searched. In the code all 81 cells are pending (`sudokuSolver.ts:142`), so a given cell can be overwritten during search and deleted again on backtrack. `SudokuSolver` promises a valid filled grid, not one that keeps the givens.
- The result grid is a fresh grid of zeros filled from the assignment (`sudokuSolver.ts:149-154`).
- Ties in the MRV choice go to the earliest pending cell, because the `reduce` comparison is a strict `<`.

## Model

| member | source | states |
|---|---|---|
| Board.RcToNode | sudoku-solver/src/sudokuSolver.ts:15-17 | a position (r, c) of the 9x9 board maps to a cell index in 0..80 |
| Board.NodeToRc | sudoku-solver/src/sudokuSolver.ts:20-24 | a cell index 0..80 maps to a row and a column in 0..8 |
| Board.RcToNodeRoundTrip | sudoku-solver/src/sudokuSolver.ts:15-24 | `nodeToRc(rcToNode(r, c))` is (r, c) for every position on the board |
| Board.NodeToRcRoundTrip | sudoku-solver/src/sudokuSolver.ts:15-24 | `rcToNode` inverts `nodeToRc` on every index 0..80 |
| Board.BlockStartSpec | sudoku-solver/src/sudokuSolver.ts:62-67 | the block band of row `x` starts at or before `x`, covers it within 3 rows, and stays on the board |
| Board.SameBlockIff | sudoku-solver/src/sudokuSolver.ts:62-67 | two positions share a block exactly when each lies in the 3x3 square whose corner is the other's block start |
| Adjacency.RowColPart | sudoku-solver/src/sudokuSolver.ts:49-60 | the entries the row-and-column loop pushes for cell (r, c) in its first k rounds, in push order; `RowColPartLength`, `RowColPartMembers` and `RowColPartNoDup` state what they are |
| Adjacency.BlockCell | sudoku-solver/src/sudokuSolver.ts:62-68 | the cell `rcToNode(br * n + dr, bc * n + dc)` of the block loop; `BlockCellAt` states its position |
| Adjacency.BlockRowPart | sudoku-solver/src/sudokuSolver.ts:65-73 | the entries the inner block loop pushes for one block row, in push order; `BlockRowPartLength` and `BlockRowPartMembers` state what they are |
| Adjacency.BlockPart | sudoku-solver/src/sudokuSolver.ts:62-74 | the entries the block loop pushes for cell (r, c), in push order; `BlockPartLength` and `BlockPartMembers` state what they are |
| Adjacency.NeighbourList | sudoku-solver/src/sudokuSolver.ts:43-76 | `adjList[i]` once construction is done; `NeighbourListSpec`, `NeighbourListSymmetric` and `NeighbourListDistinct` state what it holds |
| Adjacency.RowColPartLength | sudoku-solver/src/sudokuSolver.ts:49-60 | after k rounds the row-and-column loop has pushed 2k entries, less one for the cell's own column and one for its own row once passed; 16 in all |
| Adjacency.RowColPartMembers | sudoku-solver/src/sudokuSolver.ts:49-60 | the row-and-column loop pushes exactly the other cells of the row and of the column reached so far |
| Adjacency.RowColPartNoDup | sudoku-solver/src/sudokuSolver.ts:49-60 | the row-and-column loop never pushes the same cell twice |
| Adjacency.BlockRowPartLength | sudoku-solver/src/sudokuSolver.ts:65-73 | one row of the block loop pushes one entry per column, less one for the cell itself |
| Adjacency.BlockRowPartMembers | sudoku-solver/src/sudokuSolver.ts:65-73 | one row of the block loop pushes exactly the cells of that block row, other than the cell itself |
| Adjacency.BlockPartLength | sudoku-solver/src/sudokuSolver.ts:62-74 | the block loop pushes 3 entries per block row, less one for the cell itself; 8 in all |
| Adjacency.BlockPartMembers | sudoku-solver/src/sudokuSolver.ts:62-74 | the block loop pushes exactly the other cells of the cell's block |
| Adjacency.NeighbourListAt | sudoku-solver/src/sudokuSolver.ts:43-76 | the final list of cell (r, c) is its row-and-column pushes followed by its block pushes |
| Adjacency.NeighbourListSpec | sudoku-solver/src/sudokuSolver.ts:43-76 | `adjList[i]` has 24 entries, and holds cell j exactly when j is not i and shares i's row, column or block |
| Adjacency.NeighbourListSymmetric | sudoku-solver/src/sudokuSolver.ts:43-76 | j is in `adjList[i]` exactly when i is in `adjList[j]`, and no cell is in its own list |
| Adjacency.NeighbourListDistinct | sudoku-solver/src/sudokuSolver.ts:43-76 | the 24 entries of `adjList[i]` hold 20 distinct cells: the 4 block cells sharing i's row or column are pushed twice |
| Solver.BuildAdjList | sudoku-solver/src/sudokuSolver.ts:35-76 | the construction loops leave in every cell's list exactly its neighbour list: 24 entries holding exactly its neighbours |
| Solver.FillAdjList | sudoku-solver/src/sudokuSolver.ts:43-76 | the nested construction loops turn the table of 81 empty lists into the full adjacency table |
| Solver.FillRow | sudoku-solver/src/sudokuSolver.ts:44-75 | one row of the outer loop extends the filled part of the table by the 9 cells of that row |
| Solver.PushCellNeighbours | sudoku-solver/src/sudokuSolver.ts:45-74 | one round of the outer loop appends the row-and-column pushes, then the block pushes, to the list of its own cell and leaves every other list unchanged |
| Solver.PushRowColNeighbours | sudoku-solver/src/sudokuSolver.ts:49-60 | the row-and-column loop appends exactly the row-and-column pushes, in order |
| Solver.PushBlockNeighbours | sudoku-solver/src/sudokuSolver.ts:62-74 | the block loop appends exactly the block pushes, in order |
| Solver.PushBlockRow | sudoku-solver/src/sudokuSolver.ts:65-73 | the inner block loop appends the cells of one block row, skipping the cell itself |
| Solver.SeedColors | sudoku-solver/src/sudokuSolver.ts:79-88 | `colors` has a key for index r*9+c exactly when `puzzle[r][c]` is non-zero, and that key holds the puzzle value |
| Solver.UsedColors | sudoku-solver/src/sudokuSolver.ts:124-131 | the `usedColors` set gathered over the neighbour list; `UsedColorsSpec` states what it holds |
| Solver.FreeDigits | sudoku-solver/src/sudokuSolver.ts:132-137 | the `availableColors` list built by the digit loop; `FreeDigitsSpec` states what it holds |
| Solver.Candidates | sudoku-solver/src/sudokuSolver.ts:123-139 | the value `possibleColors` returns for a neighbour list and an assignment; `CandidatesSpec` states what it holds |
| Solver.NoneHolds | sudoku-solver/src/sudokuSolver.ts:106 | the `neighbors.every(neighbor => assign[neighbor] !== color)` test; `RecheckRedundant` proves it always passes |
| Solver.UsedColorsSpec | sudoku-solver/src/sudokuSolver.ts:124-131 | a digit is missing from `usedColors` exactly when no assigned neighbour holds it |
| Solver.FreeDigitsSpec | sudoku-solver/src/sudokuSolver.ts:132-137 | the digit loop lists, in strictly ascending order, exactly the digits below its bound that are not in the used set |
| Solver.CandidatesSpec | sudoku-solver/src/sudokuSolver.ts:123-139 | the candidate list holds, in strictly ascending order, exactly the digits 1..9 that no assigned neighbour holds |
| Solver.PossibleColors | sudoku-solver/src/sudokuSolver.ts:119-139 | `possibleColors(node, assign)` returns, in strictly ascending order, exactly the digits 1..9 held by no assigned neighbour in `adjList[node]` |
| Solver.RecheckRedundant | sudoku-solver/src/sudokuSolver.ts:103-106 | the neighbour check before each trial always passes: the candidate was computed on entry, and a failed trial only deletes entries |
| Solver.CandidateCount | sudoku-solver/src/sudokuSolver.ts:98-99 | `possibleColors(node, assign).length`, the quantity the MRV choice minimises |
| Solver.MrvFold | sudoku-solver/src/sudokuSolver.ts:97-101 | the `reduce` returns its initial value or one of the cells it scanned |
| Solver.MrvFoldMin | sudoku-solver/src/sudokuSolver.ts:97-101 | no scanned cell, and not the initial value, has fewer candidates than the `reduce` result |
| Solver.MrvFoldKeep | sudoku-solver/src/sudokuSolver.ts:97-101 | a cell with as many candidates as the accumulator never replaces it, because the comparison is strict |
| Solver.MrvFoldFirst | sudoku-solver/src/sudokuSolver.ts:97-101 | among scanned cells with the result's candidate count, the result comes no later than the first |
| Solver.SelectMrv | sudoku-solver/src/sudokuSolver.ts:97-101 | the `reduce` from `nodes[0]` picks a cell of `nodes`; `SelectMrvSpec` states which one |
| Solver.SelectMrvSpec | sudoku-solver/src/sudokuSolver.ts:97-101 | the MRV choice is a pending cell with the fewest candidates, and on a tie the earliest in `nodes` |
| Solver.Without | sudoku-solver/src/sudokuSolver.ts:109 | `nodes.filter(n => n !== node)` holds every other pending cell and is strictly shorter when `node` was pending, which bounds the recursion depth by `nodes.length` |
| Solver.Assignment.constructor | sudoku-solver/src/sudokuSolver.ts:142 | `cloneDeep(colors)` yields a store holding a copy of the seeded colours |
| Solver.ExtendProper | sudoku-solver/src/sudokuSolver.ts:106-109 | assigning a digit no neighbour holds, and removing the cell from `nodes`, keeps the settled cells properly coloured |
| Solver.TrialSucceeded | sudoku-solver/src/sudokuSolver.ts:108-112 | a successful recursion after a trial assignment completes every pending cell and leaves the cells outside `nodes` as they were on entry |
| Solver.TrialFailed | sudoku-solver/src/sudokuSolver.ts:108-113 | deleting the trial digit after a failed recursion leaves a sub-map of the entry assignment that agrees with it outside `nodes` |
| Solver.Backtrack | sudoku-solver/src/sudokuSolver.ts:91-117 | returns the store itself or null. Cells outside `nodes` are never changed. On null the store is a sub-map of its entry state, so given cells may have been deleted. On success every cell of `nodes` holds a digit 1..9 and no two neighbouring assigned cells share a digit |
| Solver.AssembleGrid | sudoku-solver/src/sudokuSolver.ts:148-154 | the solved grid is 9x9; each cell holds the solution's digit for its index, or 0 when that index has none |
| Solver.SolutionGridValid | sudoku-solver/src/sudokuSolver.ts:142-156 | a complete proper colouring of all 81 cells, written out as a grid, passes `isValidSudoku` |
| Solver.SudokuSolver | sudoku-solver/src/sudokuSolver.ts:141-156 | the solver either signals "no solution", as the throw at line 145 does, or returns a 9x9 grid of digits 1..9 that passes `isValidSudoku` |
| Solver.SolvedRowsDistinct | sudoku-solver/tests/sudokuSolver.test.ts:21-23 | every row of a valid grid filled with non-zero digits holds nine distinct values, so `new Set(row).size === row.length` |
| Validator.NonZero | sudoku-solver/src/isValidSudoku.ts:5 | `num.filter(n => n !== 0)` keeps exactly the non-zero values |
| Validator.IsValidUnit | sudoku-solver/src/isValidSudoku.ts:4-7 | the `isValid` helper, filtered length equal to set size; `IsValidUnitIff` states what it means |
| Validator.NoDupNonZero | sudoku-solver/src/isValidSudoku.ts:5-6 | the filtered list repeats no value exactly when no non-zero value of the unit occurs twice |
| Validator.IsValidUnitIff | sudoku-solver/src/isValidSudoku.ts:4-7 | `isValid(xs)` holds exactly when the non-zero entries of `xs` are pairwise distinct; zeros never count as duplicates |
| Validator.BlockAt | sudoku-solver/src/isValidSudoku.ts:26 | the `slice`/`flatMap` block read from corner (r0, c0) has 9 entries, entry t being cell (r0 + t / 3, c0 + t % 3) |
| Validator.Column | sudoku-solver/src/isValidSudoku.ts:18 | `puzzle.map(row => row[col])`, the column read by the second loop |
| Validator.FlatSlices | sudoku-solver/src/isValidSudoku.ts:26 | `rows.flatMap(row => row.slice(col, col + 3))` over the sliced rows |
| Validator.Block | sudoku-solver/src/isValidSudoku.ts:26 | `puzzle.slice(row, row + 3).flatMap(...)`, the block read by the third loop; `BlockAt` states its entries |
| Validator.IsValidSudoku | sudoku-solver/src/isValidSudoku.ts:1-34 | `isValidSudoku`, every row, column and block at corners 0, 3, 6 passing `isValid`; `ValidIffNoRepeats` states what it means |
| Validator.RowRepeatInvalid | sudoku-solver/src/isValidSudoku.ts:10-14 | a row with a repeated non-zero digit makes the check return false |
| Validator.ColumnRepeatInvalid | sudoku-solver/src/isValidSudoku.ts:17-21 | a column with a repeated non-zero digit makes the check return false |
| Validator.BlockRepeatInvalid | sudoku-solver/src/isValidSudoku.ts:24-30 | a 3x3 block with a repeated non-zero digit makes the check return false |
| Validator.ValidAt | sudoku-solver/src/isValidSudoku.ts:10-30 | on a grid that passes, two distinct cells sharing a row, column or block never hold the same non-zero digit |
| Validator.ValidIffNoRepeats | sudoku-solver/src/isValidSudoku.ts:1-34 | a 9x9 grid passes exactly when no two cells sharing a row, a column or a block hold the same non-zero digit |
| Validator.BlankGridValid | sudoku-solver/src/isValidSudoku.ts:5-6 | the all-zero grid passes, because zeros are filtered before the duplicate check |

## Left out

- The `ts-graphviz` graph (`Graph`, `Node`, `Edge`, lines 1, 27, 36-38, 52, 57, 70 of `sudokuSolver.ts`) is not modelled: it is written but never read, and `adjList` carries the same neighbour information.
- `cloneDeep` from lodash is not modelled as a library call. It is a value copy of the seeded map into a fresh `Assignment`.
- String keys are not modelled: `toString` and `parseInt` on cell indices become `int` keys of a `map<int, int>`, and the table is indexed by cell number. `getNeighbors(node)` is the table lookup `adj[node]`.
- The adjacency table is a value (`seq<seq<int>>`) that the construction methods return updated, not a dictionary object mutated in place. Nothing else holds a reference to it during construction, so no aliasing is lost.
- `Object.entries(solution)` is walked in ascending index order. JavaScript lists integer-like keys in that order, and each write goes to a different cell, so the order does not change the grid.
- The console demonstration at lines 159-196 of `sudokuSolver.ts` is not modelled: it only prints.
- The tests' expectation of `null` for unsolvable or repeated-digit puzzles (`sudoku.test.ts:50-58`) is not encoded. The code throws instead, and it does not check validity first.
- Solver.SudokuSolver: does not promise that given cells keep their values, and does not reject invalid puzzles up front. All 81 cells are searched, so the code does neither.
- The concrete test puzzles are not solved in the model. Their outcomes need the exponential search to be run; the general contracts are proved instead.
- Grids other than 9x9 are not modelled. `isValidSudoku` reads `puzzle.length`, but its block loop steps by 3 and slices three rows at a time. Every validator member requires a 9x9 grid.
- The order in which `isValidSudoku` scans its three loops, and its early `return false`, are not modelled. The check is one conjunction of quantified predicates, and its result does not depend on the order.
