# Sudoku engine of sudoku.py, in Dafny

This project models the engine of a Sudoku solver and generator written in
Python with a tkinter front end. The board is an N x N grid of integers. A 0
marks an empty cell. The subgrids are S x S squares, where S is the integer
square root of N.

The modelled operations are:

- `is_safe`: may a value go in a cell?
- `find_empty`: the first empty cell in row-major order.
- `solve_sudoku`: the backtracking solver. It writes into the grid in place
  and resets a cell to 0 when a branch fails.
- From class `SudokuGUI`:
  - `fill_grid`: the same search with shuffled candidates.
  - `remove_numbers`: blanks random filled cells.
  - `solve_sudoku_animated`: the solver that also shows every write in the
    cell entries.
  - The rule by which `get_grid_values` turns cell text into a value.
  - `validate_input`: which texts an entry accepts.

The model is split into six modules:

- `Grid` (grid.dfy): the board as a value (`seq<seq<int>>`). It holds the
  rules (row, column and subgrid uniqueness), valid partial and solved
  boards, solutions of a puzzle, and the facts about writing or clearing one
  cell.
- `Sudoku` (sudoku.dfy): the engine functions over a mutable `array2<int>`,
  each proved against the `Grid` predicates. The ghost function `Cells` gives
  the board an array holds.
- `SudokuGUI` (gui.dfy): `fill_grid`, `remove_numbers` and
  `solve_sudoku_animated` over the same array.
  - The body of `fill_grid`'s candidate loop is its own method (`TryShuffle`
    for the loop, `TryValue` for one candidate).
  - The animated solver has one method for one candidate (`AnimateValue`).
  - These methods and the search call each other recursively, as the Python
    functions do.
- `CellText` (celltext.dfy): the text of a cell entry. It covers digit
  strings, their value, `str` of a number, the reading rule and the input
  check.
- `Perm` and `SolvedBoard` (solved.dfy): the solver and the generator only
  apply the pairwise rule of `is_safe`. These modules show that a full board
  obeying that rule holds each of 1..N exactly once in every row and every
  column, and also in every subgrid when N is a perfect square.

The solver, the generator and the animated solver share the same contract:

- A grid with no empty cell is accepted as it stands, even if it holds
  duplicates.
- A success leaves a completion of the input in the grid: givens are kept and
  every empty cell holds a value in 1..N. When the input was a valid partial
  board, the completion is a solution.
- A failure leaves the grid exactly as it was, and happens only when the input
  has no solution.
- Recursion ends because each recursive call sees one empty cell fewer.

The generator's contract holds for every sequence of shuffles.

## Model

| member | source | states |
|---|---|---|
| Grid.SubgridSize | sudoku.py:12 | the subgrid side S is the integer square root of N: S*S <= N < (S+1)*(S+1), and S >= 1 when N >= 1 |
| Grid.FirstEmpty | sudoku.py:39-45 | None exactly when no cell is 0; otherwise the cell is in the grid, holds 0, and every cell before it in row-major order is non-zero |
| Grid.FirstEmptyFrom | sudoku.py:40-44 | the same row-major scan started at (i, j): None exactly when no cell from there on is 0, otherwise the first such cell |
| Grid.PlaceCells | sudoku.py:31 | writing a value changes that one cell and leaves every other cell as it was |
| Grid.PlaceZeroCount | sudoku.py:31-34 | writing a value into an empty cell makes one empty cell fewer; resetting a filled cell to 0 makes one more |
| Grid.ZeroCountBounds | sudoku.py:22-36 | the number of empty cells is at most N*N and is 0 exactly when the board is full, so the recursion (one empty cell fewer per call) is at most N*N deep |
| Grid.PlaceKeepsValid | sudoku.py:30-31 | writing a value in 1..N that passes the safety check into an empty cell of a valid partial board gives a valid partial board |
| Grid.BlankingKeepsValid | sudoku.py:227-229 | setting any cells of a valid partial board to 0 leaves a valid partial board |
| Grid.SolutionValueIsSafe | sudoku.py:30 | the value any solution holds at an empty cell passes the safety check there, so skipping unsafe values loses no solution |
| Grid.SolutionValueInRange | sudoku.py:29 | a solution holds a value in 1..N in every cell |
| Grid.SolutionsOfPlace | sudoku.py:31-32 | the solutions of the board with v written into an empty cell are exactly the solutions of the board that hold v there |
| Grid.PlaceUndo | sudoku.py:34 | writing a value into an empty cell and resetting it to 0 gives back the original board |
| Grid.FillsAfterPlace | sudoku.py:31-33 | a completion of the board after a write into an empty cell is a completion of the board before it |
| Sudoku.SetCell | sudoku.py:31 | the grid afterwards holds the old board with the one cell written |
| Sudoku.BoxRange | sudoku.py:13-15 | the row (or column) range scanned for the subgrid, S*(row div S) up to S*(row div S)+S, holds exactly the indices in the same subgrid as row |
| Sudoku.BoxFits | sudoku.py:13-15 | when S divides N, the subgrid scanned lies within rows (columns) 0..N-1, so the safety check reads only cells of the grid |
| Sudoku.IsSafe | sudoku.py:6-19 | returns true exactly when the value occurs nowhere in the row, nowhere in the column and nowhere in the subgrid of the cell; it changes nothing |
| Sudoku.FindEmpty | sudoku.py:39-45 | returns the first cell holding 0 in row-major order, or None when there is none; it changes nothing |
| Sudoku.Solve | sudoku.py:22-36 | a full grid gives true and is untouched; true means the grid is a completion of the input, and a solution when the input was a valid partial board; false means the grid is unchanged and the input has no solution |
| SudokuGUI.AllTriedNoSolution | sudoku.py:212-219 | when every value of the shuffled list is ruled out at an empty cell, the board has no solution |
| SudokuGUI.FillGrid | sudoku.py:205-219 | for any stream of shuffles of 1..N: a full grid gives true, is untouched and draws no shuffle; true means a completion (a solution for a valid partial input); false means the grid is unchanged and no solution exists |
| SudokuGUI.TryShuffle | sudoku.py:209-218 | at the first empty cell, one shuffle is drawn; success is a completion (a solution for a valid input), failure leaves the grid unchanged and means no solution exists |
| SudokuGUI.TryValue | sudoku.py:213-217 | one candidate: success is a completion (a solution for a valid input); failure leaves the grid unchanged and means no solution holds that value at the cell |
| SudokuGUI.NumToRemove | sudoku.py:223 | the count int(N*N*difficulty) for difficulty numer/denom: the product truncated toward zero |
| SudokuGUI.BlankPicks | sudoku.py:224-229 | a non-positive count changes nothing. Otherwise the cells blanked are exactly the filled cells among the picks used, count - left of them; every other cell is unchanged; left > 0 only when the picks ran out; when the count is reached, the last pick used is a filled cell not picked before, so the loop stops at the first pick that completes the count |
| SudokuGUI.RemoveNumbers | sudoku.py:221-229 | the same outcome for the count int(N*N*difficulty), and a valid partial grid stays valid |
| SudokuGUI.OnEmptyCellsAfterPlace | sudoku.py:181-187 | a cell empty after a write into another empty cell was empty before it |
| SudokuGUI.ReplayAppend | sudoku.py:183-191 | showing two runs of entry updates one after the other is showing their concatenation |
| SudokuGUI.SolveAnimated | sudoku.py:174-195 | the grid outcome of the solver; in addition every entry update it shows touches a cell that was empty, and replaying the updates on the input gives the final grid |
| SudokuGUI.AnimateValue | sudoku.py:181-193 | one candidate of the animated solver: the grid outcome of one candidate of the solver, with its entry updates touching only cells that were empty and replaying to the new grid |
| CellText.DecimalString | sudoku.py:184 | str of a number is a non-empty digit string without a leading zero (except for 0 itself) |
| CellText.DecimalStringValue | sudoku.py:184 | reading back str(v) gives v |
| CellText.ValueDecimalString | sudoku.py:126-130 | a digit string without leading zeros is str of its value |
| CellText.CellValue | sudoku.py:126-130 | the value read from a cell is 0 or in 1..N |
| CellText.ZerosPrefixValue | sudoku.py:130 | int ignores leading zeros: zeros before a digit string leave its value unchanged |
| CellText.StripLeadingZeros | sudoku.py:127-130 | a digit string with a positive value is a run of zeros followed by str of that value |
| CellText.CellValueCases | sudoku.py:126-130 | for v >= 1, a cell reads as v exactly when v <= N and its text is str(v) after some (possibly no) leading zeros |
| CellText.CellValueRoundTrip | sudoku.py:126-130 | a value in 1..N written as str(v) into an entry is read back as v |
| CellText.CellValueText | sudoku.py:126-130 | a text read as a non-zero value and not starting with 0 is str of that value |
| CellText.GetGridValues | sudoku.py:120-132 | the board read from the entries is N x N, every cell is 0 or in 1..N, and each cell is the value read from its entry's text |
| CellText.ValidateInput | sudoku.py:142-148 | an entry accepts exactly the empty text and the texts a 9 x 9 grid reads as a non-empty cell |
| CellText.AcceptedButReadAsEmpty | sudoku.py:146-147 | the limit 9 does not follow the grid size: on an N x N grid, str(v) for every N < v <= 9 is accepted but read as an empty cell |
| CellText.LeadingZeroAccepted | sudoku.py:143-147 | any run of zeros before a digit 1..9, such as "07", is accepted and read as that digit, although the docstring of validate_input speaks of a single digit |
| Perm.Pigeonhole | sudoku.py:29 | N pairwise distinct values, each in 1..N, include every value of 1..N |
| SolvedBoard.PeersDiffer | sudoku.py:8-17 | on a solved board, two different cells in the same row, column or subgrid hold different values |
| SolvedBoard.RowsComplete | sudoku.py:8-10 | every row of a solved board has no repeated value and contains each of 1..N |
| SolvedBoard.ColumnsComplete | sudoku.py:8-10 | every column of a solved board has no repeated value and contains each of 1..N |
| SolvedBoard.BoxPairDistinct | sudoku.py:12-17 | when N = S*S, two different positions of one subgrid of a solved board hold different values |
| SolvedBoard.BoxesComplete | sudoku.py:12-17 | when N = S*S, every subgrid of a solved board has no repeated value and contains each of 1..N |

## Left out

- The tkinter front end is not modelled: window, combobox, entries, buttons, message boxes, `set_grid_values`, `clear_grid`, `solve_puzzle`, `animate_solution`, `generate_random_sudoku` and the `__main__` block. `get_grid_values` takes the entries' texts as a parameter. `solve_sudoku_animated` returns its entry updates as a list of events instead of showing them. Its `update()` and `after(100)` pauses are left out.
- The random module is not modelled. Each `random.shuffle` result is the next element of a stream of orderings of 1..N passed in by the caller. The cells `random.randint` would pick are a finite sequence passed in by the caller.
- SudokuGUI.RemoveNumbers: the Python loop keeps picking until enough cells are blanked, and never ends if too few filled cells remain. The model stops when the supplied picks run out and reports how many cells were still to go.
- Floating point is not modelled. `int(grid_size ** 0.5)` is the integer square root, which is the same for the grid sizes offered (2, 3, 4, 6, 8, 9). The difficulty is a fraction numer/denom instead of a float. The default 0.5 is 1/2.
- Grid sizes whose subgrid side does not divide N are excluded by a precondition (`Tiles`). On them the Python safety check would index past the grid. Every size the combobox offers satisfies it.
- The grid is a two-dimensional array. Python's list of rows could alias rows, but the source never builds aliased rows, so aliasing is not modelled.
- `str.isdigit` also accepts non-ASCII digits, for which `int` may fail or read another value. The model only knows the ASCII digits 0-9.
- Sudoku.Solve: the contract does not say which completion is returned when there are several. The source returns the first one in the order 1..N, and the model does not pin it down.
- SudokuGUI.FillGrid: the contract does not say which completion a given stream of shuffles produces. It only says that the outcome guarantees hold for every stream.
- SudokuGUI.FillGrid: it is not proved that filling an empty grid always succeeds. That needs a complete valid board to exist for each size, which the code never checks.
- Valid sizes are not restricted to perfect squares. The program offers sizes 2, 3, 6 and 8, which are not squares, and uses S x S subgrids with S the integer square root. The model follows the code and rejects no size.
- SolvedBoard.BoxesComplete: it is stated only when N is a perfect square. For the other offered sizes an S x S subgrid has fewer than N cells, so it cannot hold all of 1..N.
