/**
 * The board of the Sudoku engine as a value: an N x N grid of integers in
 * which 0 marks an empty cell, together with the rules the engine checks
 * (row, column and subgrid uniqueness) and the facts about placing and
 * clearing a single cell that the search and the generator rely on.
 */
module Grid {

  datatype Option<T> = None | Some(value: T)

  /** A cell reference (row, col), 0-indexed. */
  datatype Cell = Cell(row: int, col: int)

  /** Rows of cells; board[i][j] is the cell in row i, column j. */
  type Board = seq<seq<int>>

  predicate IsSquare(b: Board) {
    forall i :: 0 <= i < |b| ==> |b[i]| == |b|
  }

  predicate InGrid(n: nat, row: int, col: int) {
    0 <= row < n && 0 <= col < n
  }

  /** The side of a subgrid: the integer square root of the grid size. */
  function SubgridSize(n: nat): (s: nat)
    ensures s * s <= n < (s + 1) * (s + 1)
    ensures n >= 1 ==> s >= 1
  {
    if n == 0 then 0
    else
      var r := SubgridSize(n - 1);
      if (r + 1) * (r + 1) <= n then r + 1 else r
  }

  /** The subgrids tile the board exactly: the subgrid side divides the size. */
  predicate Tiles(n: nat) {
    n == 0 || n % SubgridSize(n) == 0
  }

  predicate SameBox(s: nat, r1: int, c1: int, r2: int, c2: int) {
    s > 0 && r1 / s == r2 / s && c1 / s == c2 / s
  }

  /** Two different cells that share a row, a column or a subgrid. */
  predicate Peers(s: nat, r1: int, c1: int, r2: int, c2: int) {
    (r1 != r2 || c1 != c2) && (r1 == r2 || c1 == c2 || SameBox(s, r1, c1, r2, c2))
  }

  /**
   * `v` may go in (row, col): it occurs nowhere in the row, nowhere in the
   * column and nowhere in the subgrid of the cell (the cell itself included).
   */
  predicate Safe(b: Board, row: int, col: int, v: int)
    requires IsSquare(b) && InGrid(|b|, row, col)
  {
    var n, s := |b|, SubgridSize(|b|);
    (forall j :: 0 <= j < n ==> b[row][j] != v) &&
    (forall i :: 0 <= i < n ==> b[i][col] != v) &&
    (forall i, j :: 0 <= i < n && 0 <= j < n && SameBox(s, i, j, row, col) ==> b[i][j] != v)
  }

  /** Every cell holds 0 or a value in 1..N. */
  predicate InRange(b: Board)
    requires IsSquare(b)
  {
    forall i, j :: 0 <= i < |b| && 0 <= j < |b| ==> 0 <= b[i][j] <= |b|
  }

  /** No non-zero value occurs twice in a row, a column or a subgrid. */
  ghost predicate NoDuplicates(b: Board)
    requires IsSquare(b)
  {
    var n, s := |b|, SubgridSize(|b|);
    forall r1, c1, r2, c2 ::
      InGrid(n, r1, c1) && InGrid(n, r2, c2) && Peers(s, r1, c1, r2, c2) && b[r1][c1] != 0 ==>
        b[r1][c1] != b[r2][c2]
  }

  /** A valid partial board. */
  ghost predicate ValidPartial(b: Board) {
    IsSquare(b) && InRange(b) && NoDuplicates(b)
  }

  /** No cell is empty. */
  predicate Full(b: Board) {
    forall i, j :: 0 <= i < |b| && 0 <= j < |b[i]| ==> b[i][j] != 0
  }

  /** A solved board: full, values in 1..N, no duplicates. */
  ghost predicate Solved(b: Board) {
    ValidPartial(b) && Full(b)
  }

  /** `c` keeps every non-zero cell of `b`. */
  predicate KeepsGivens(b: Board, c: Board)
    requires IsSquare(b) && IsSquare(c) && |c| == |b|
  {
    forall i, j :: 0 <= i < |b| && 0 <= j < |b| && b[i][j] != 0 ==> c[i][j] == b[i][j]
  }

  /** `c` keeps the non-zero cells of `b` and writes a value in 1..N into each empty one. */
  predicate Fills(b: Board, c: Board)
    requires IsSquare(b)
  {
    IsSquare(c) && |c| == |b| && KeepsGivens(b, c) &&
    forall i, j :: 0 <= i < |b| && 0 <= j < |b| && b[i][j] == 0 ==> 1 <= c[i][j] <= |b|
  }

  /** `c` is a solution of the puzzle `b`. */
  ghost predicate IsSolutionOf(c: Board, b: Board) {
    IsSquare(b) && Solved(c) && |c| == |b| && KeepsGivens(b, c)
  }

  /** The puzzle `b` has no solution. */
  ghost predicate NoSolution(b: Board) {
    forall c :: !IsSolutionOf(c, b)
  }

  /** The board with `v` written at (row, col). */
  function Place(b: Board, row: int, col: int, v: int): (r: Board)
    requires IsSquare(b) && InGrid(|b|, row, col)
    ensures IsSquare(r) && |r| == |b|
  {
    b[row := b[row][col := v]]
  }

  /** Placing changes the one cell and leaves every other cell as it was. */
  lemma PlaceCells(b: Board, row: int, col: int, v: int)
    requires IsSquare(b) && InGrid(|b|, row, col)
    ensures forall i, j :: InGrid(|b|, i, j) ==>
      Place(b, row, col, v)[i][j] == if i == row && j == col then v else b[i][j]
  {
  }

  /** Two square boards with the same cells are the same board. */
  lemma BoardsEqual(a: Board, b: Board)
    requires IsSquare(a) && IsSquare(b) && |a| == |b|
    requires forall i, j :: InGrid(|a|, i, j) ==> a[i][j] == b[i][j]
    ensures a == b
  {
    forall i | 0 <= i < |a|
      ensures a[i] == b[i]
    {
      assert forall j :: 0 <= j < |a| ==> a[i][j] == b[i][j];
    }
  }

  /** (i, j) comes before `cell` in row-major order. */
  predicate Before(i: int, j: int, cell: Cell) {
    i < cell.row || (i == cell.row && j < cell.col)
  }

  /** The first empty cell at or after (i, j) in row-major order. */
  function FirstEmptyFrom(b: Board, i: nat, j: nat): (r: Option<Cell>)
    requires IsSquare(b) && i <= |b| && j <= |b|
    ensures r.None? <==>
      forall a, c :: InGrid(|b|, a, c) && !Before(a, c, Cell(i, j)) ==> b[a][c] != 0
    ensures r.Some? ==>
      InGrid(|b|, r.value.row, r.value.col) && b[r.value.row][r.value.col] == 0 &&
      !Before(r.value.row, r.value.col, Cell(i, j)) &&
      forall a, c :: InGrid(|b|, a, c) && !Before(a, c, Cell(i, j)) && Before(a, c, r.value) ==> b[a][c] != 0
    decreases |b| - i, |b| - j
  {
    if i == |b| then None
    else if j == |b| then FirstEmptyFrom(b, i + 1, 0)
    else if b[i][j] == 0 then Some(Cell(i, j))
    else FirstEmptyFrom(b, i, j + 1)
  }

  /**
   * The first empty cell in row-major order: None exactly when the board is
   * full; otherwise an empty cell before which every cell is filled.
   */
  function FirstEmpty(b: Board): (r: Option<Cell>)
    requires IsSquare(b)
    ensures r.None? <==> Full(b)
    ensures r.Some? ==>
      InGrid(|b|, r.value.row, r.value.col) && b[r.value.row][r.value.col] == 0 &&
      forall a, c :: InGrid(|b|, a, c) && Before(a, c, r.value) ==> b[a][c] != 0
  {
    FirstEmptyFrom(b, 0, 0)
  }

  /** The number of empty cells of one row. */
  function CountZeros(row: seq<int>): nat {
    if row == [] then 0 else (if row[0] == 0 then 1 else 0) + CountZeros(row[1..])
  }

  /** The number of empty cells of a board. */
  function ZeroCount(b: Board): nat {
    if b == [] then 0 else CountZeros(b[0]) + ZeroCount(b[1..])
  }

  lemma {:induction false} CountZerosUpdate(row: seq<int>, j: nat, v: int)
    requires j < |row|
    ensures CountZeros(row[j := v]) ==
      CountZeros(row) - (if row[j] == 0 then 1 else 0) + (if v == 0 then 1 else 0)
  {
    if j == 0 {
      assert row[j := v][1..] == row[1..];
    } else {
      assert row[j := v][1..] == row[1..][j - 1 := v];
      CountZerosUpdate(row[1..], j - 1, v);
    }
  }

  lemma {:induction false} ZeroCountUpdate(b: Board, i: nat, x: seq<int>)
    requires i < |b|
    ensures ZeroCount(b[i := x]) == ZeroCount(b) - CountZeros(b[i]) + CountZeros(x)
  {
    if i == 0 {
      assert b[i := x][1..] == b[1..];
    } else {
      assert b[i := x][1..] == b[1..][i - 1 := x];
      ZeroCountUpdate(b[1..], i - 1, x);
    }
  }

  /**
   * Writing a non-zero value into an empty cell leaves one empty cell fewer;
   * clearing a filled cell leaves one more.
   */
  lemma PlaceZeroCount(b: Board, row: int, col: int, v: int)
    requires IsSquare(b) && InGrid(|b|, row, col)
    ensures b[row][col] == 0 && v != 0 ==> ZeroCount(Place(b, row, col, v)) == ZeroCount(b) - 1
    ensures b[row][col] != 0 && v == 0 ==> ZeroCount(Place(b, row, col, v)) == ZeroCount(b) + 1
  {
    CountZerosUpdate(b[row], col, v);
    ZeroCountUpdate(b, row, b[row][col := v]);
  }

  lemma {:induction false} CountZerosBounds(row: seq<int>)
    ensures CountZeros(row) <= |row|
    ensures CountZeros(row) == 0 <==> forall j :: 0 <= j < |row| ==> row[j] != 0
  {
    if row != [] {
      CountZerosBounds(row[1..]);
      assert forall j :: 1 <= j < |row| ==> row[j] == row[1..][j - 1];
    }
  }

  lemma MulSucc(r: int, m: int)
    ensures (r + 1) * m == r * m + m
  {
  }

  lemma {:induction false} ZeroCountRows(b: Board, m: nat)
    requires forall i :: 0 <= i < |b| ==> |b[i]| == m
    ensures ZeroCount(b) <= |b| * m
    ensures ZeroCount(b) == 0 <==> forall i, j :: 0 <= i < |b| && 0 <= j < m ==> b[i][j] != 0
  {
    if b != [] {
      var rest := b[1..];
      CountZerosBounds(b[0]);
      ZeroCountRows(rest, m);
      assert ZeroCount(b) == CountZeros(b[0]) + ZeroCount(rest);
      var r := |rest|;
      assert |b| == r + 1;
      MulSucc(r, m);
      forall i, j | 1 <= i < |b| && 0 <= j < m
        ensures b[i][j] == rest[i - 1][j]
      {
      }
    }
  }

  /**
   * The empty cells of an N x N board number at most N * N, and none exactly
   * when the board is full: the bound on the depth of the backtracking search.
   */
  lemma ZeroCountBounds(b: Board)
    requires IsSquare(b)
    ensures ZeroCount(b) <= |b| * |b|
    ensures ZeroCount(b) == 0 <==> Full(b)
  {
    ZeroCountRows(b, |b|);
  }

  /** Writing a value that is safe into an empty cell keeps a valid partial board valid. */
  lemma PlaceKeepsValid(b: Board, row: int, col: int, v: int)
    requires ValidPartial(b) && InGrid(|b|, row, col) && b[row][col] == 0
    requires 1 <= v <= |b| && Safe(b, row, col, v)
    ensures ValidPartial(Place(b, row, col, v))
  {
    var n, s, p := |b|, SubgridSize(|b|), Place(b, row, col, v);
    forall r1, c1, r2, c2 |
      InGrid(n, r1, c1) && InGrid(n, r2, c2) && Peers(s, r1, c1, r2, c2) && p[r1][c1] != 0
      ensures p[r1][c1] != p[r2][c2]
    {
      if r1 == row && c1 == col {
        assert p[r2][c2] == b[r2][c2];
        assert r2 == row || c2 == col || SameBox(s, r2, c2, row, col);
      } else if r2 == row && c2 == col {
        assert p[r1][c1] == b[r1][c1];
        assert r1 == row || c1 == col || SameBox(s, r1, c1, row, col);
      } else {
        assert p[r1][c1] == b[r1][c1] && p[r2][c2] == b[r2][c2];
      }
    }
  }

  /** Blanking any cells of a valid partial board leaves a valid partial board. */
  lemma BlankingKeepsValid(b: Board, c: Board)
    requires ValidPartial(b) && IsSquare(c) && |c| == |b|
    requires forall i, j :: InGrid(|b|, i, j) ==> c[i][j] == b[i][j] || c[i][j] == 0
    ensures ValidPartial(c)
  {
    var n, s := |b|, SubgridSize(|b|);
    forall r1, c1, r2, c2 |
      InGrid(n, r1, c1) && InGrid(n, r2, c2) && Peers(s, r1, c1, r2, c2) && c[r1][c1] != 0
      ensures c[r1][c1] != c[r2][c2]
    {
      assert c[r1][c1] == b[r1][c1];
    }
  }

  /** The value a solution puts into an empty cell is safe there. */
  lemma SolutionValueIsSafe(c: Board, b: Board, row: int, col: int)
    requires IsSolutionOf(c, b) && InGrid(|b|, row, col) && b[row][col] == 0
    ensures Safe(b, row, col, c[row][col])
  {
    var n, s, v := |b|, SubgridSize(|b|), c[row][col];
    assert v != 0;
    forall i, j | InGrid(n, i, j) && (i == row || j == col || SameBox(s, i, j, row, col))
      ensures b[i][j] != v
    {
      if b[i][j] == v {
        assert (i, j) != (row, col);
        assert c[i][j] == v;
        assert Peers(s, row, col, i, j);
      }
    }
  }

  /** A solution holds a value in 1..N in every cell. */
  lemma SolutionValueInRange(c: Board, b: Board, row: int, col: int)
    requires IsSolutionOf(c, b) && InGrid(|b|, row, col)
    ensures 1 <= c[row][col] <= |b|
  {
  }

  /**
   * For an empty cell, the solutions of the board with `v` written there are
   * exactly the solutions of the board that hold `v` in that cell.
   */
  lemma SolutionsOfPlace(c: Board, b: Board, row: int, col: int, v: int)
    requires IsSquare(b) && InGrid(|b|, row, col) && b[row][col] == 0 && v != 0
    ensures IsSolutionOf(c, Place(b, row, col, v)) <==> IsSolutionOf(c, b) && c[row][col] == v
  {
    var p := Place(b, row, col, v);
    if IsSolutionOf(c, p) {
      assert c[row][col] == v;
      assert KeepsGivens(b, c);
    }
    if IsSolutionOf(c, b) && c[row][col] == v {
      assert KeepsGivens(p, c);
    }
  }

  /** Writing a value and then clearing the same empty cell gives back the board. */
  lemma PlaceUndo(b: Board, row: int, col: int, v: int)
    requires IsSquare(b) && InGrid(|b|, row, col) && b[row][col] == 0
    ensures Place(Place(b, row, col, v), row, col, 0) == b
  {
    BoardsEqual(Place(Place(b, row, col, v), row, col, 0), b);
  }

  /**
   * A completion of the board with a value in 1..N written into an empty cell
   * is a completion of the board.
   */
  lemma FillsAfterPlace(b: Board, row: int, col: int, v: int, c: Board)
    requires IsSquare(b) && InGrid(|b|, row, col) && b[row][col] == 0 && 1 <= v <= |b|
    requires Fills(Place(b, row, col, v), c)
    ensures Fills(b, c)
  {
    var p := Place(b, row, col, v);
    forall i, j | InGrid(|b|, i, j)
      ensures b[i][j] != 0 ==> c[i][j] == b[i][j]
      ensures b[i][j] == 0 ==> 1 <= c[i][j] <= |b|
    {
      assert p[i][j] == if i == row && j == col then v else b[i][j];
    }
  }
}
