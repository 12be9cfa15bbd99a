/**
 * The engine functions of sudoku.py over a mutable grid: the safety check,
 * the row-major scan for an empty cell and the backtracking solver, which
 * writes into the grid in place and resets a cell to 0 when a branch fails.
 */
module Sudoku {
  import opened Grid

  /** The board a grid currently holds. */
  ghost function Cells(grid: array2<int>): (b: Board)
    reads grid
    ensures |b| == grid.Length0
    ensures forall i :: 0 <= i < |b| ==> |b[i]| == grid.Length1
    ensures forall i, j :: 0 <= i < grid.Length0 && 0 <= j < grid.Length1 ==> b[i][j] == grid[i, j]
  {
    seq(grid.Length0, i requires 0 <= i < grid.Length0 reads grid =>
      seq(grid.Length1, j requires 0 <= j < grid.Length1 reads grid => grid[i, j]))
  }

  /** Writes one cell of the grid. */
  method SetCell(grid: array2<int>, row: int, col: int, v: int)
    requires grid.Length0 == grid.Length1 && InGrid(grid.Length0, row, col)
    modifies grid
    ensures Cells(grid) == Place(old(Cells(grid)), row, col, v)
  {
    grid[row, col] := v;
    BoardsEqual(Cells(grid), Place(old(Cells(grid)), row, col, v));
  }

  lemma {:induction false} MulAtLeast(s: int, k: int)
    requires s > 0 && k >= 1
    ensures s * k >= s
    decreases k
  {
    if k > 1 {
      MulAtLeast(s, k - 1);
      assert s * k == s * (k - 1) + s;
    }
  }

  /** Multiplying by a positive factor keeps the order of integers. */
  lemma MulOrder(s: int, x: int, y: int)
    requires s > 0
    ensures x < y ==> s * x + s <= s * y
    ensures s * x < s * y ==> x < y
  {
    if x < y {
      MulAtLeast(s, y - x);
      assert s * y == s * x + s * (y - x);
    } else if y < x {
      MulAtLeast(s, x - y);
      assert s * x == s * y + s * (x - y);
    }
  }

  /** For a cell index `r`, the indices of its subgrid lie in [s * (r / s), s * (r / s) + s). */
  lemma BoxRange(s: int, r: int, a: int)
    requires s > 0 && r >= 0 && a >= 0
    ensures s * (r / s) <= a < s * (r / s) + s <==> a / s == r / s
  {
    var q, d := r / s, a / s;
    assert a == s * d + a % s;
    MulOrder(s, d, q);
    MulOrder(s, q, d);
  }

  /** When the subgrid side divides the size, a subgrid never reaches past the last row. */
  lemma BoxFits(n: int, s: int, r: int)
    requires s > 0 && n % s == 0 && 0 <= r < n
    ensures 0 <= s * (r / s) && s * (r / s) + s <= n
  {
    var q, m := r / s, n / s;
    assert n == s * m;
    assert r == s * q + r % s;
    MulOrder(s, q, m);
  }

  /**
   * is_safe: whether `num` may go in (row, col). It only reads the grid, and
   * since the subgrids tile the grid every index it reads lies in [0, N).
   */
  method IsSafe(grid: array2<int>, row: int, col: int, num: int) returns (safe: bool)
    requires grid.Length0 == grid.Length1 && Tiles(grid.Length0)
    requires InGrid(grid.Length0, row, col)
    ensures safe == Safe(Cells(grid), row, col, num)
  {
    var n := grid.Length0;
    for i := 0 to n
      invariant forall k :: 0 <= k < i ==> grid[row, k] != num && grid[k, col] != num
    {
      if grid[row, i] == num || grid[i, col] == num {
        return false;
      }
    }
    var s := SubgridSize(n);
    var boxRow, boxCol := s * (row / s), s * (col / s);
    BoxFits(n, s, row);
    BoxFits(n, s, col);
    for i := boxRow to boxRow + s
      invariant forall a, c :: boxRow <= a < i && boxCol <= c < boxCol + s ==> grid[a, c] != num
    {
      for j := boxCol to boxCol + s
        invariant forall a, c ::
          ((boxRow <= a < i && boxCol <= c < boxCol + s) || (a == i && boxCol <= c < j)) ==> grid[a, c] != num
      {
        if grid[i, j] == num {
          assert SameBox(s, i, j, row, col) by {
            BoxRange(s, row, i);
            BoxRange(s, col, j);
          }
          return false;
        }
      }
    }
    forall a, c | InGrid(n, a, c) && SameBox(s, a, c, row, col)
      ensures grid[a, c] != num
    {
      BoxRange(s, row, a);
      BoxRange(s, col, c);
    }
    return true;
  }

  /** find_empty: the first cell holding 0 in row-major order, or None when there is none. */
  method FindEmpty(grid: array2<int>) returns (cell: Option<Cell>)
    requires grid.Length0 == grid.Length1
    ensures cell == FirstEmpty(Cells(grid))
  {
    var n := grid.Length0;
    for i := 0 to n
      invariant forall a, c :: 0 <= a < i && 0 <= c < n ==> grid[a, c] != 0
    {
      for j := 0 to n
        invariant forall a, c :: ((0 <= a < i && 0 <= c < n) || (a == i && 0 <= c < j)) ==> grid[a, c] != 0
      {
        if grid[i, j] == 0 {
          assert !Before(i, j, FirstEmpty(Cells(grid)).value);
          return Some(Cell(i, j));
        }
      }
    }
    return None;
  }

  /** Every solution of `b` holds a value of at least `num` at (row, col). */
  ghost predicate NoSolutionBelow(b: Board, row: int, col: int, num: int)
    requires IsSquare(b) && InGrid(|b|, row, col)
  {
    forall c :: IsSolutionOf(c, b) ==> c[row][col] >= num
  }

  /**
   * solve_sudoku: backtracking at the first empty cell with the candidates
   * 1..N in ascending order. A full grid is reported solved as it stands. A
   * success leaves a completion of the input in the grid, and a solution of
   * it whenever the input was a valid partial board; a failure leaves the
   * grid as it was and happens only when the input has no solution.
   */
  method Solve(grid: array2<int>) returns (solved: bool)
    requires grid.Length0 == grid.Length1 && Tiles(grid.Length0)
    modifies grid
    ensures Full(old(Cells(grid))) ==> solved && Cells(grid) == old(Cells(grid))
    ensures solved ==> Fills(old(Cells(grid)), Cells(grid)) && Full(Cells(grid))
    ensures solved && ValidPartial(old(Cells(grid))) ==> IsSolutionOf(Cells(grid), old(Cells(grid)))
    ensures !solved ==> Cells(grid) == old(Cells(grid)) && NoSolution(old(Cells(grid)))
    decreases ZeroCount(Cells(grid))
  {
    var n := grid.Length0;
    ghost var b := Cells(grid);
    var empty := FindEmpty(grid);
    if empty.None? {
      return true;
    }
    var row, col := empty.value.row, empty.value.col;
    var num := 1;
    while num <= n
      invariant 1 <= num <= n + 1
      invariant Cells(grid) == b
      invariant NoSolutionBelow(b, row, col, num)
    {
      var safe := IsSafe(grid, row, col, num);
      if safe {
        SetCell(grid, row, col, num);
        PlaceZeroCount(b, row, col, num);
        solved := Solve(grid);
        if solved {
          FillsAfterPlace(b, row, col, num, Cells(grid));
          if ValidPartial(b) {
            PlaceKeepsValid(b, row, col, num);
            SolutionsOfPlace(Cells(grid), b, row, col, num);
          }
          return;
        }
        SetCell(grid, row, col, 0);
        PlaceUndo(b, row, col, num);
        forall c | IsSolutionOf(c, b)
          ensures c[row][col] != num
        {
          SolutionsOfPlace(c, b, row, col, num);
        }
      } else {
        forall c | IsSolutionOf(c, b)
          ensures c[row][col] != num
        {
          if c[row][col] == num {
            SolutionValueIsSafe(c, b, row, col);
          }
        }
      }
      num := num + 1;
    }
    return false;
  }
}
