# Sudoku by simulated annealing, modelled in Dafny

The solver works on generalised Sudoku boards. A board of order `o` has
`n = o * o` rows and columns and is split into `o * o` sub-squares of
`o x o` cells. The solver reads a board and treats every cell whose
value is greater than -1 as a fixed clue. It can reject the instance when
two clues in one row or one column hold the same value. It then fills
every sub-square so that each one holds 1..n exactly once, and runs
simulated annealing: it swaps two free cells of one sub-square, recomputes
the conflict count (the repeated values summed over rows and columns),
keeps the swap when the count does not grow, and otherwise keeps it with
a probability that falls stage by stage. It stops when the count reaches
zero.

The project has four modules:

- `Arith` (arith.dfy) holds the integer facts the block layout needs: the
  bounds of a block, the uniqueness of Euclidean division, and the rolling
  cursor `x % n` of the fill loop.
- `Grids` (grid.dfy) is the specification vocabulary. A board is a
  `seq<seq<int>>`. The module defines rows, columns, sub-squares,
  permutations of 1..n, the conflict count `Cost`, the exchange `Swap`,
  and the clue predicates. It proves what the cost means and that a swap
  inside a sub-square keeps every sub-square a permutation.
- `Annealing` (annealing.dfy) is the annealing loop as a state machine
  over boards. A `Step` records a move, the cost before and after it, and
  whether it was kept. `NextStep` is the iteration the solver takes for a
  given stream of `rand()` draws. `Follows` says that a trace is the run
  those draws produce. The module proves that every such run keeps the
  clues and the sub-square permutations.
- `SudokuSolver` (sudoku.dfy) holds the `Sudoku` class. It has the
  source's fields (`board`, `fixeds`, `order`, `n`) as arrays and
  integers, and each operation is an imperative method with loop
  invariants. Each method is proved against the functions of `Grids` and
  `Annealing`.

Randomness enters as a parameter. `draws: seq<nat>` stands for the values
`rand()` returns, in the order the solver consumes them. The acceptance
test for a worse candidate, `r <= exp(-deltaS / temperature)`, is an
oracle `accept(stage, deltaS, draw)`. It receives the number of
completed stages (the number of times the temperature has been
multiplied by alpha), the increase in cost and the draw that the source
scales into `r`.

## Model

| member | source | states |
|---|---|---|
| SudokuSolver.Sudoku.constructor | src/sudoku.cpp:37-42 | A new object is unloaded: order and n are -1 and the board and flags are empty. |
| SudokuSolver.Sudoku.Order | include/sudoku.h:39 | The order is -1 exactly while nothing is loaded. Once loaded, it lies in 1..49, its square is n, and both grids are n x n (the fields at include/sudoku.h:70-73). |
| SudokuSolver.Sudoku.Board | include/sudoku.h:38 | The copy of the board has the array's dimensions and holds exactly the array's entries. |
| SudokuSolver.Sudoku.IsCellFixed | src/sudoku.cpp:120-125 | Out-of-range indices and an unloaded object are ruled out by the precondition. A cell is fixed exactly when its loaded value is greater than -1, and a fixed cell holds that value. |
| SudokuSolver.Sudoku.LoadInstance | src/sudoku.cpp:67-117 | After loading, the order and n = order² are set. The board read row after row is the input (`Flatten(clues) == values`), and fixed cells are the values above -1. With `checkValidity` (true by default, include/sudoku.h:50) the result is -1 exactly when some row or column holds a clue twice, and 1 otherwise. |
| SudokuSolver.Sudoku.Allocate | src/sudoku.cpp:67-68 | n becomes order², and the board and the flags are fresh n x n grids. |
| SudokuSolver.Sudoku.ReadCells | src/sudoku.cpp:69-77 | The loaded board, flattened row by row, is the input sequence. Every cell holds its value and is fixed exactly when that value exceeds -1. |
| SudokuSolver.Sudoku.ReadRows | src/sudoku.cpp:69-77 | The loop over rows reads the n rows in order. The rows read, flattened, are the input, and each cell holds its value and fixed flag. |
| SudokuSolver.Sudoku.ReadRow | src/sudoku.cpp:72-76 | Row i receives the next n input values and their fixed flags. Every other row is unchanged. |
| SudokuSolver.FlattenHolds | src/sudoku.cpp:69-77 | Every cell of the loaded grid is one of the input values. |
| SudokuSolver.Sudoku.CheckValidity | src/sudoku.cpp:78-117 | The result is 1 or -1, and it is -1 exactly when a row or a column holds two clues with the same value. |
| SudokuSolver.Sudoku.ScanRow | src/sudoku.cpp:87-100 | The scan of row i reports a clash exactly when two fixed cells of the row hold the same value. |
| SudokuSolver.Sudoku.ScanColumn | src/sudoku.cpp:102-115 | The scan of column j reports a clash exactly when two fixed cells of the column hold the same value. |
| SudokuSolver.ClueScanStep | src/sudoku.cpp:89-98 | One step of the scan: the prefix gains a clash exactly when the new cell is a clue already marked in `usedNumbers`. The marked set grows by that clue. |
| SudokuSolver.ClashInPrefix | src/sudoku.cpp:92-94 | A clash found in a prefix is a clash of the whole line, so the early return of -1 is right. |
| SudokuSolver.Sudoku.GenInitSolution | src/sudoku.cpp:131-175 | Every clue keeps its value. Every free cell of every sub-square gets a value of 1..n that no other cell of its sub-square holds. When the clues of each sub-square are distinct values of 1..n, every sub-square becomes a permutation of 1..n. The board is exactly `FillFrom` of the board on entry: the sub-squares are filled row of squares by row of squares, each by the cursor fill `FilledSquare`. |
| SudokuSolver.Sudoku.FillSquare | src/sudoku.cpp:140-172 | Sub-square (bi, bj) is filled as above. No cell outside it changes. The board becomes exactly `FilledSquare`: the cursor fill of the sub-square, starting from cursor 0 and from the clue values marked. |
| SudokuSolver.Sudoku.MarkSquareClues | src/sudoku.cpp:140-152 | `usedNumbers` has n + 1 entries and equals `ClueMarks`: a value is marked exactly when some clue of the sub-square holds it. The marked values plus the free cells number at most n. |
| SudokuSolver.Sudoku.MarkRowClues | src/sudoku.cpp:144-151 | Marking row p of the sub-square: every clue of rows 0..p is marked, and every marked value is a clue seen so far. |
| SudokuSolver.OnlyCluesMarkedStep | src/sudoku.cpp:145-148 | Marking one more cell keeps every mark justified by a clue already visited. |
| SudokuSolver.MarksAreClueMarks | src/sudoku.cpp:140-152 | Once every clue is marked and every mark is a clue, the marks are exactly `ClueMarks`. |
| SudokuSolver.MarkingDone | src/sudoku.cpp:140-158 | At the end of the marking pass, the marks are `ClueMarks`, and the marked values plus the free cells of the sub-square number at most n. |
| SudokuSolver.Sudoku.FillSquareRow | src/sudoku.cpp:157-172 | One row of the sub-square is filled. The fill invariant holds for the next row: clues are kept, and the filled cells hold distinct values of 1..n, all marked. The cursor fill `FillBlock` of the rest of the sub-square is the same from the state before the row and from the state after it. |
| SudokuSolver.Sudoku.FillCell | src/sudoku.cpp:159-170 | A free cell gets the candidate `(x - 1) % n + 1` of the first cursor position x - 1 >= x0 whose candidate is unused; every position passed over was used. The value is marked, the cursor ends one past it, and no other cell changes. A fixed cell leaves the board, the marks and the cursor unchanged. The fill invariant moves one cell forward, and so does `FillBlock`. |
| SudokuSolver.FirstAvailable | src/sudoku.cpp:160-166 | Starting from the cursor x, the loop ends at the first y >= x whose candidate `y % n + 1` is unused. Every candidate passed over was used, and y is `NextFree(used, n, x, n)`. |
| SudokuSolver.NextFreeIsFirst | src/sudoku.cpp:160-166 | The first position from x whose candidate is unused is the one `NextFree` finds. |
| SudokuSolver.FirstFreeWithinRound | src/sudoku.cpp:162-166 | The first unused candidate is found within n steps of the cursor, because the candidates repeat with period n. |
| SudokuSolver.FillBlockFree | src/sudoku.cpp:159-169 | At a free cell, the cursor fill writes the candidate `NextFree` finds, marks it, and moves the cursor past it. |
| SudokuSolver.FillBlockClue | src/sudoku.cpp:159 | At a clue, the cursor fill moves to the next cell with the board, the marks and the cursor unchanged. |
| SudokuSolver.UnusedValueExists | src/sudoku.cpp:162-166 | While fewer than n values are used, some value of 1..n is free, so the cursor search ends. |
| SudokuSolver.Sudoku.SetCell | src/sudoku.cpp:167 | Writing a free cell changes that cell alone and keeps the object invariant. |
| SudokuSolver.CellsFrom | src/sudoku.cpp:143-158 | The free cells and the clue cells of a sub-square, counted from any offset, add up to the cells left. |
| SudokuSolver.FillProgressDone | src/sudoku.cpp:156-172 | Once the last row of a sub-square is done, the sub-square is filled. |
| SudokuSolver.FilledSquareKept | src/sudoku.cpp:138-139 | Filling one sub-square leaves the sub-squares filled before it filled. |
| SudokuSolver.FilledSquaresArePermutations | src/sudoku.cpp:127-130 | A filled board that keeps consistent clues has every sub-square a permutation of 1..n. |
| Grids.FilledBlockIsPermutation | src/sudoku.cpp:127-130 | A filled sub-square around distinct clues of 1..n holds every value of 1..n exactly once. |
| Grids.SquareHoldsEveryValue | src/sudoku.cpp:129-130 | A sub-square that is a permutation contains each value of 1..n. |
| Grids.PermutationHoldsEveryValue | src/sudoku.cpp:129-130 | A permutation of 1..n contains each value, and each value only once. |
| Grids.SquaresDisjoint | src/sudoku.cpp:138-139 | A cell lies in at most one sub-square. |
| Grids.CellInSquare | src/sudoku.cpp:138-144 | Every cell of the board lies in a sub-square, the one at (r / o, c / o). With `SquaresDisjoint`, a cell lies in exactly one sub-square, so the fill loops over sub-squares cover the board. |
| Arith.BlockOf | src/sudoku.cpp:138-144 | An index below o² lies in block `r / o`, which is one of the o blocks `o * i .. o * i + o - 1` the loops visit. |
| SudokuSolver.Sudoku.SwapCells | src/sudoku.cpp:177-182 | When both cells are free, the board becomes the swapped board. Otherwise the board is unchanged. The invariant, and with it every clue, is kept. |
| Grids.SwapTwice | src/sudoku.cpp:248-250 | Swapping the same two cells twice gives back the board. |
| Grids.SwapKeepsSquares | src/sudoku.cpp:216-232 | Swapping two cells of one sub-square keeps every sub-square a permutation. |
| Grids.SwapOutsideBlock | src/sudoku.cpp:232 | A swap that touches no cell of a sub-square leaves that sub-square a permutation. |
| SudokuSolver.Sudoku.EvaluateCurrentSolution | src/sudoku.cpp:316-349 | The result is the conflict count of the board, and the board is unchanged. |
| SudokuSolver.Sudoku.AnalyzeRows | src/sudoku.cpp:323-335 | The row pass fails (the -1 return) exactly when a cell lies outside 1..n. Otherwise it sums the repeats of every row. |
| SudokuSolver.Sudoku.AnalyzeRow | src/sudoku.cpp:325-334 | Row i is in range exactly when all its cells are in 1..n, and then the count is the row's repeats. |
| SudokuSolver.Sudoku.AnalyzeColumns | src/sudoku.cpp:337-347 | On an in-range board, the column pass sums the repeats of every column. |
| SudokuSolver.Sudoku.AnalyzeColumn | src/sudoku.cpp:339-346 | The count for column j is the column's repeats. |
| Grids.CostMeaning | src/sudoku.cpp:314-349 | The count is -1 exactly when some cell is outside 1..n, and it is never negative otherwise. It is 0 exactly when every row and every column is a permutation of 1..n. |
| Grids.RepeatsZeroIffDistinct | src/sudoku.cpp:329-333 | A line's repeat count is non-negative, and it is zero exactly when the line's values are distinct. |
| Grids.PermutationIffCovers | src/sudoku.cpp:314-315 | A line is a permutation of 1..n exactly when it has n cells and its values are 1..n. |
| SudokuSolver.Sudoku.Solve | src/sudoku.cpp:189-262 | The initial board fills every sub-square, and `initialSolution` is its cost. The trace of iterations is exactly the run the draws produce, in stages of `stagesLength` iterations, and the board is that run's result. The run ends when the cost is not positive or the draws run out. `finalSolution` is the final cost, and the result is true exactly when it is 0. Clues are kept. With consistent sub-square clues, every sub-square of the final board is a permutation, solved or not, and a true result means the board is a solution. The initial board is `FillFrom` of the board on entry. |
| SudokuSolver.Sudoku.Start | src/sudoku.cpp:204-207 | The initial solution is generated and its cost measured: the board is `FillFrom` of the board on entry, it keeps the clues and fills every sub-square, and the cost is its conflict count. |
| SudokuSolver.Sudoku.RunStage | src/sudoku.cpp:211-253 | One stage runs `stagesLength` iterations, or fewer once the cost reaches 0. Each iteration extends the trace by the step the draws dictate. A halt happens only where no next step exists. |
| SudokuSolver.Sudoku.AnnealStep | src/sudoku.cpp:213-252 | One inner iteration performs exactly the step `NextStep` defines. A kept step leaves the board swapped and the cost at the candidate's value. A rejected step leaves the board and the cost as they were. |
| SudokuSolver.Sudoku.SelectMove | src/sudoku.cpp:216-228 | The do-while loop finds exactly the first drawn pair of free cells, and where the draws stand after it. It fails only when `Pick` finds none. |
| SudokuSolver.Sudoku.TryMove | src/sudoku.cpp:232-233 | The board becomes the swapped board, and the candidate is its cost. |
| SudokuSolver.Sudoku.UndoMove | src/sudoku.cpp:248-250 | Swapping back restores the board from before the move. |
| Annealing.DrawnMove | src/sudoku.cpp:218-227 | Six draws select a sub-square in range and two cells inside it, all on the board. |
| Annealing.Pick | src/sudoku.cpp:216-228 | A selection found is a legal move: two free cells of one sub-square. It uses at least six draws, and no more than exist. |
| Annealing.NextStep | src/sudoku.cpp:211-252 | An iteration taken is a legal step. It measures the cost before and after, keeps every move that does not raise the cost, and uses up its draws. |
| Annealing.NextStepPicked | src/sudoku.cpp:236-251 | Once a move is picked: a move that does not raise the cost is kept; a worse one is decided by the next draw; without a draw there is no step. |
| Annealing.FollowsSnoc | src/sudoku.cpp:209-253 | Appending the step the draws dictate extends the run, and the draw position moves to that step's end. |
| Annealing.FollowsIsValid | src/sudoku.cpp:209-253 | Every run the draws produce is a valid trace of legal steps. |
| Annealing.TraceSnoc | src/sudoku.cpp:236-250 | Replaying one more step applies its move when kept and leaves the board otherwise. The trace stays valid exactly when the step is legal there. |
| Annealing.LegalMoveKeepsClues | src/sudoku.cpp:177-182 | Swapping two free cells keeps every clue. |
| Annealing.TraceKeepsClues | src/sudoku.cpp:209-253 | Every valid trace keeps every clue. |
| Annealing.TraceKeepsSquares | src/sudoku.cpp:209-253 | Every valid trace keeps every sub-square a permutation. |
| Annealing.UndoRestores | src/sudoku.cpp:248-250 | A rejected move swapped back leaves the board as it was. |
| Annealing.RunOutcome | src/sudoku.cpp:209-261 | A finished run keeps the clues. When the initial sub-squares were permutations, they stay permutations whatever the final cost, and a final cost of 0 means a full solution: rows, columns and sub-squares are all permutations. |
| Arith.CursorStep | src/sudoku.cpp:162-164 | Each advance of the cursor brings `x % n` one step closer to a free value, so the search terminates. |

## Left out

- Reading the instance from a file or standard input is not modelled, nor are the failure paths that return 0 (a file that cannot be opened, an order that cannot be read) or the messages printed. `LoadInstance` takes the order and the n·n values already parsed.
- LoadInstance: requires exactly n·n values. The source ignores a failed `fscanf` for a cell and stores whatever the buffer held.
- LoadInstance: the source's `assert(_order > 0 && _order < 50)` becomes a precondition.
- LoadInstance: requires an object not loaded before. A second load in the source appends new rows after the old ones.
- LoadInstance: with `checkValidity`, requires every clue to be at most n. A larger clue indexes past `usedNumbers` in the source, which is undefined behaviour. GenInitSolution and Solve require the same, for the same reason.
- IsCellFixed: its three `assert`s become preconditions.
- A value greater than -1 makes a cell fixed, following the code, so a 0 in the input is a clue. Such a board has a cost of -1, and the solver returns at once with that cost.
- The feasibility check covers rows and columns only, as in the source. Two equal clues in one sub-square pass it. So the guarantees about sub-squares (GenInitSolution, Solve) assume `CluesConsistent`: the clues of each sub-square are distinct values of 1..n.
- Solve: the temperature, `exp`, `initialTemp`, `alpha` and the scaling of `rand()` by `RAND_MAX` are folded into the `accept` oracle. The oracle sees the stage number, the cost increase and the draw.
- Solve: `srand` and `rand()` are replaced by the finite sequence `draws`. The source loops until the cost reaches 0, and may loop forever. The selection loop draws a new sub-square on every attempt, and its two cells may coincide, so it can spin forever only when no cell of the board is free while the cost is positive. The model stops when the draws run out: during selection, or before the acceptance draw of a worse candidate, whose swap is then undone. Termination of the real loop is not modelled.
- Solve: requires `stagesLength > 0`. With a smaller value and a positive cost, the source spins in its outer loop without ever running an iteration.
- Solve: the `seconds` output and the `clock()` measurement are not modelled.
- GenInitSolution: the filled board is stated as `FillFrom` of the board on entry. After `LoadInstance` that board is the clue grid. That the fill ignores the old contents of free cells is not proved as a separate lemma.
- Integers are unbounded. The source's `int`s cannot overflow for orders below 50: the cost is at most 2·n² ≤ 11 529 602, and the cursor `x` restarts at 0 in every sub-square.
- `dump`, `dumpBoardToFile`, the command line program in src/main.cpp and the output parser are not part of this model.
