/**
 * The grid side of class SudokuGUI: fill_grid, the backtracking search that
 * tries the candidates of each empty cell in a shuffled order;
 * remove_numbers, which blanks randomly picked filled cells; and
 * solve_sudoku_animated, the solver that also shows every write in the cell
 * entries. The random module is not modelled: every call of random.shuffle
 * is answered by a stream of orderings of 1..N supplied by the caller, and
 * the cells random.randint picks are a finite sequence supplied by the
 * caller.
 */
module SudokuGUI {
  import opened Grid
  import opened Sudoku

  /** `p` lists every value of 1..N, and nothing else: a shuffle of 1..N. */
  predicate IsOrdering(p: seq<int>, n: nat) {
    |p| == n && (forall k :: 0 <= k < n ==> 1 <= p[k] <= n) && (forall v :: 1 <= v <= n ==> v in p)
  }

  /** `shuffles(k)` is the list the k-th call of random.shuffle leaves behind. */
  ghost predicate Orderings(shuffles: nat -> seq<int>, n: nat) {
    forall k :: IsOrdering(shuffles(k), n)
  }

  /** No solution of `b` holds one of the values `tried` at (row, col). */
  ghost predicate NoSolutionAmong(b: Board, row: int, col: int, tried: seq<int>)
    requires IsSquare(b) && InGrid(|b|, row, col)
  {
    forall c :: IsSolutionOf(c, b) ==> c[row][col] !in tried
  }

  /** When every value of 1..N is ruled out at a cell, the board has no solution. */
  lemma AllTriedNoSolution(b: Board, row: int, col: int, tried: seq<int>)
    requires IsSquare(b) && InGrid(|b|, row, col)
    requires NoSolutionAmong(b, row, col, tried)
    requires forall v :: 1 <= v <= |b| ==> v in tried
    ensures NoSolution(b)
  {
    forall c
      ensures !IsSolutionOf(c, b)
    {
      if IsSolutionOf(c, b) {
        SolutionValueInRange(c, b, row, col);
      }
    }
  }

  /**
   * fill_grid: scans the grid in row-major order; at the first empty cell it
   * draws one shuffle and tries its values in that order, recursing after
   * each safe one, and gives up when none leads to a completion. It draws
   * from `shuffles` starting at index `drawn` and returns the index of the
   * next undrawn shuffle. Whatever the shuffles, the outcome guarantees of the
   * solver hold: a full grid is accepted unchanged, a success is a
   * completion (a solution when the input was a valid partial board) and a
   * failure leaves the grid as it was and happens only when no solution
   * exists.
   */
  method FillGrid(grid: array2<int>, shuffles: nat -> seq<int>, drawn: nat) returns (filled: bool, drawnAfter: nat)
    requires grid.Length0 == grid.Length1 && Tiles(grid.Length0)
    requires Orderings(shuffles, grid.Length0)
    modifies grid
    ensures drawn <= drawnAfter
    ensures Full(old(Cells(grid))) ==> filled && Cells(grid) == old(Cells(grid)) && drawnAfter == drawn
    ensures filled ==> Fills(old(Cells(grid)), Cells(grid)) && Full(Cells(grid))
    ensures filled && ValidPartial(old(Cells(grid))) ==> IsSolutionOf(Cells(grid), old(Cells(grid)))
    ensures !filled ==> Cells(grid) == old(Cells(grid)) && NoSolution(old(Cells(grid)))
    decreases ZeroCount(Cells(grid)), 2
  {
    var n := grid.Length0;
    ghost var b := Cells(grid);
    for i := 0 to n
      invariant Cells(grid) == b
      invariant forall a, c :: 0 <= a < i && 0 <= c < n ==> grid[a, c] != 0
    {
      for j := 0 to n
        invariant Cells(grid) == b
        invariant forall a, c :: ((0 <= a < i && 0 <= c < n) || (a == i && 0 <= c < j)) ==> grid[a, c] != 0
      {
        if grid[i, j] == 0 {
          filled, drawnAfter := TryShuffle(grid, i, j, shuffles, drawn);
          return;
        }
      }
    }
    return true, drawn;
  }

  /**
   * The body of fill_grid at its first empty cell (i, j): one shuffle is
   * drawn and its values are tried in that order until one leads to a
   * completion.
   */
  method TryShuffle(grid: array2<int>, i: int, j: int, shuffles: nat -> seq<int>, drawn: nat)
    returns (filled: bool, drawnAfter: nat)
    requires grid.Length0 == grid.Length1 && Tiles(grid.Length0)
    requires Orderings(shuffles, grid.Length0)
    requires InGrid(grid.Length0, i, j) && grid[i, j] == 0
    modifies grid
    ensures drawn < drawnAfter
    ensures filled ==> Fills(old(Cells(grid)), Cells(grid)) && Full(Cells(grid))
    ensures filled && ValidPartial(old(Cells(grid))) ==> IsSolutionOf(Cells(grid), old(Cells(grid)))
    ensures !filled ==> Cells(grid) == old(Cells(grid)) && NoSolution(old(Cells(grid)))
    decreases ZeroCount(Cells(grid)), 1
  {
    var n := grid.Length0;
    ghost var b := Cells(grid);
    var numList := shuffles(drawn);
    assert IsOrdering(numList, n);
    drawnAfter := drawn + 1;
    for t := 0 to n
      invariant Cells(grid) == b
      invariant drawn < drawnAfter
      invariant NoSolutionAmong(b, i, j, numList[..t])
    {
      filled, drawnAfter := TryValue(grid, i, j, numList[t], shuffles, drawnAfter);
      if filled {
        return;
      }
      assert numList[..t + 1] == numList[..t] + [numList[t]];
    }
    assert numList[..n] == numList;
    AllTriedNoSolution(b, i, j, numList);
    filled := false;
  }

  /**
   * One candidate `num` at the empty cell (i, j): if it is safe it is
   * written and fill_grid recurses; when that fails the cell is reset to 0.
   * A failure means no solution holds `num` at (i, j).
   */
  method TryValue(grid: array2<int>, i: int, j: int, num: int, shuffles: nat -> seq<int>, drawn: nat)
    returns (filled: bool, drawnAfter: nat)
    requires grid.Length0 == grid.Length1 && Tiles(grid.Length0)
    requires Orderings(shuffles, grid.Length0)
    requires InGrid(grid.Length0, i, j) && grid[i, j] == 0 && 1 <= num <= grid.Length0
    modifies grid
    ensures drawn <= drawnAfter
    ensures filled ==> Fills(old(Cells(grid)), Cells(grid)) && Full(Cells(grid))
    ensures filled && ValidPartial(old(Cells(grid))) ==> IsSolutionOf(Cells(grid), old(Cells(grid)))
    ensures !filled ==> Cells(grid) == old(Cells(grid))
    ensures !filled ==> forall c :: IsSolutionOf(c, old(Cells(grid))) ==> c[i][j] != num
    decreases ZeroCount(Cells(grid)), 0
  {
    ghost var b := Cells(grid);
    var safe := IsSafe(grid, i, j, num);
    if !safe {
      forall c | IsSolutionOf(c, b)
        ensures c[i][j] != num
      {
        if c[i][j] == num {
          SolutionValueIsSafe(c, b, i, j);
        }
      }
      return false, drawn;
    }
    SetCell(grid, i, j, num);
    PlaceZeroCount(b, i, j, num);
    filled, drawnAfter := FillGrid(grid, shuffles, drawn);
    if filled {
      FillsAfterPlace(b, i, j, num, Cells(grid));
      if ValidPartial(b) {
        PlaceKeepsValid(b, i, j, num);
        SolutionsOfPlace(Cells(grid), b, i, j, num);
      }
      return;
    }
    SetCell(grid, i, j, 0);
    PlaceUndo(b, i, j, num);
    forall c | IsSolutionOf(c, b)
      ensures c[i][j] != num
    {
      SolutionsOfPlace(c, b, i, j, num);
    }
  }

  /**
   * int(grid_size * grid_size * difficulty) for a difficulty given as the
   * fraction numer / denom: the product truncated toward zero.
   */
  function NumToRemove(cells: nat, numer: int, denom: int): (k: int)
    requires denom > 0
    ensures cells * numer >= 0 ==> k * denom <= cells * numer < (k + 1) * denom
    ensures cells * numer <= 0 ==> (k - 1) * denom < cells * numer <= k * denom
  {
    var p := cells * numer;
    if p >= 0 then p / denom else -((-p) / denom)
  }

  /** Extending a prefix by one element keeps what it held and adds that element. */
  lemma PrefixGrows<T>(s: seq<T>, i: nat)
    requires i < |s|
    ensures forall x :: x in s[..i + 1] <==> x in s[..i] || x == s[i]
    ensures s[i] in s[..i + 1]
  {
    assert s[..i + 1] == s[..i] + [s[i]];
  }

  /** Cell `x` lies on `b` and holds a value. */
  ghost predicate FilledAt(b: Board, x: Cell) {
    0 <= x.row < |b| && 0 <= x.col < |b[x.row]| && b[x.row][x.col] != 0
  }

  /**
   * The loop of remove_numbers: while `count` cells remain to be removed, a
   * cell is picked and, if it holds a value, blanked. The picks
   * random.randint would make are `picks`; when they run out the loop stops,
   * and `left` says how many cells still had to go (0 when all were removed).
   * `cleared` is the set of cells blanked: exactly the filled cells among
   * the picks used, as many as `count` minus `left`. The loop stops at the
   * pick that blanks the last cell wanted, and every other cell is unchanged.
   */
  method BlankPicks(grid: array2<int>, count: int, picks: seq<Cell>)
    returns (left: int, used: nat, ghost cleared: set<Cell>)
    requires grid.Length0 == grid.Length1
    requires forall k :: 0 <= k < |picks| ==> InGrid(grid.Length0, picks[k].row, picks[k].col)
    modifies grid
    ensures used <= |picks|
    ensures (count <= 0 ==> left == count && used == 0) && (count > 0 ==> 0 <= left <= count)
    ensures |cleared| == count - left
    ensures left > 0 ==> used == |picks|
    ensures forall x :: x in cleared ==> FilledAt(old(Cells(grid)), x) && x in picks[..used]
    ensures forall x :: x in picks[..used] && FilledAt(old(Cells(grid)), x) ==> x in cleared
    ensures count > 0 && left == 0 ==>
      0 < used && FilledAt(old(Cells(grid)), picks[used - 1]) && picks[used - 1] !in picks[..used - 1]
    ensures forall i, j :: InGrid(grid.Length0, i, j) ==>
      grid[i, j] == if Cell(i, j) in cleared then 0 else old(grid[i, j])
  {
    var n := grid.Length0;
    ghost var b := Cells(grid);
    left, used, cleared := count, 0, {};
    while left > 0 && used < |picks|
      invariant used <= |picks|
      invariant count <= 0 ==> left == count && used == 0
      invariant count > 0 ==> 0 <= left <= count
      invariant |cleared| == count - left
      invariant forall x :: x in cleared ==> FilledAt(b, x) && x in picks[..used]
      invariant forall x :: x in picks[..used] && FilledAt(b, x) ==> x in cleared
      invariant count > 0 && left == 0 ==>
        0 < used && FilledAt(b, picks[used - 1]) && picks[used - 1] !in picks[..used - 1]
      invariant forall i, j :: InGrid(n, i, j) ==> grid[i, j] == if Cell(i, j) in cleared then 0 else b[i][j]
    {
      var row, col := picks[used].row, picks[used].col;
      if grid[row, col] != 0 {
        grid[row, col] := 0;
        cleared := cleared + {Cell(row, col)};
        left := left - 1;
      }
      PrefixGrows(picks, used);
      used := used + 1;
    }
  }

  /**
   * remove_numbers: blanks int(N * N * difficulty) filled cells, chosen by
   * the picks, as BlankPicks describes. A valid partial grid stays valid.
   */
  method RemoveNumbers(grid: array2<int>, numer: int, denom: int, picks: seq<Cell>)
    returns (left: int, used: nat, ghost cleared: set<Cell>)
    requires grid.Length0 == grid.Length1 && denom > 0
    requires forall k :: 0 <= k < |picks| ==> InGrid(grid.Length0, picks[k].row, picks[k].col)
    modifies grid
    ensures var k := NumToRemove(grid.Length0 * grid.Length0, numer, denom);
      (k <= 0 ==> left == k && used == 0) && (k > 0 ==> 0 <= left <= k) && |cleared| == k - left
    ensures used <= |picks| && (left > 0 ==> used == |picks|)
    ensures forall x :: x in cleared ==> FilledAt(old(Cells(grid)), x) && x in picks[..used]
    ensures forall x :: x in picks[..used] && FilledAt(old(Cells(grid)), x) ==> x in cleared
    ensures NumToRemove(grid.Length0 * grid.Length0, numer, denom) > 0 && left == 0 ==>
      0 < used && FilledAt(old(Cells(grid)), picks[used - 1]) && picks[used - 1] !in picks[..used - 1]
    ensures forall i, j :: InGrid(grid.Length0, i, j) ==>
      grid[i, j] == if Cell(i, j) in cleared then 0 else old(grid[i, j])
    ensures ValidPartial(old(Cells(grid))) ==> ValidPartial(Cells(grid))
  {
    ghost var b := Cells(grid);
    var numToRemove := NumToRemove(grid.Length0 * grid.Length0, numer, denom);
    left, used, cleared := BlankPicks(grid, numToRemove, picks);
    if ValidPartial(b) {
      BlankingKeepsValid(b, Cells(grid));
    }
  }

  /**
   * What solve_sudoku_animated shows: the cell entry at (row, col) is set to
   * the numeral of `shown`, or emptied when `shown` is 0.
   */
  datatype Event = Event(row: int, col: int, shown: int)

  predicate OnGrid(n: nat, events: seq<Event>) {
    forall k :: 0 <= k < |events| ==> InGrid(n, events[k].row, events[k].col)
  }

  /** Every event shows a cell that is empty in `b`. */
  predicate OnEmptyCells(b: Board, events: seq<Event>)
    requires IsSquare(b) && OnGrid(|b|, events)
  {
    forall k :: 0 <= k < |events| ==> b[events[k].row][events[k].col] == 0
  }

  lemma OnEmptyCellsAppend(b: Board, first: seq<Event>, second: seq<Event>)
    requires IsSquare(b) && OnGrid(|b|, first) && OnGrid(|b|, second)
    requires OnEmptyCells(b, first) && OnEmptyCells(b, second)
    ensures OnGrid(|b|, first + second) && OnEmptyCells(b, first + second)
  {
    var all := first + second;
    forall k | |first| <= k < |all|
      ensures all[k] == second[k - |first|]
    {
    }
  }

  /** A cell empty after a value is placed in an empty cell was empty before. */
  lemma OnEmptyCellsAfterPlace(b: Board, row: int, col: int, v: int, events: seq<Event>)
    requires IsSquare(b) && InGrid(|b|, row, col) && b[row][col] == 0 && OnGrid(|b|, events)
    requires OnEmptyCells(Place(b, row, col, v), events)
    ensures OnEmptyCells(b, events)
  {
    var p := Place(b, row, col, v);
    forall k | 0 <= k < |events|
      ensures b[events[k].row][events[k].col] == 0
    {
      assert p[events[k].row][events[k].col] == 0;
    }
  }

  /** The board the entries show after `events`, starting from `b`. */
  function Replay(b: Board, events: seq<Event>): (r: Board)
    requires IsSquare(b) && OnGrid(|b|, events)
    ensures IsSquare(r) && |r| == |b|
  {
    if events == [] then b
    else
      var e := events[|events| - 1];
      Place(Replay(b, events[..|events| - 1]), e.row, e.col, e.shown)
  }

  /** Showing two runs of events one after the other. */
  lemma {:induction false} ReplayAppend(b: Board, first: seq<Event>, second: seq<Event>)
    requires IsSquare(b) && OnGrid(|b|, first) && OnGrid(|b|, second)
    ensures OnGrid(|b|, first + second)
    ensures Replay(b, first + second) == Replay(Replay(b, first), second)
    decreases |second|
  {
    var all := first + second;
    assert OnGrid(|b|, all) by {
      forall k | 0 <= k < |all| ensures InGrid(|b|, all[k].row, all[k].col) {
        if k >= |first| {
          assert all[k] == second[k - |first|];
        }
      }
    }
    if second == [] {
      assert all == first;
    } else {
      var front := second[..|second| - 1];
      ReplayAppend(b, first, front);
      assert all[..|all| - 1] == first + front;
      assert all[|all| - 1] == second[|second| - 1];
    }
  }

  /**
   * solve_sudoku_animated: solve_sudoku, with every write also shown in the
   * cell entry and every reset emptying it. Its grid behaviour is the
   * solver's. The contract does not list which events are shown; it states
   * that they only touch cells that were empty and that replaying them on
   * the input gives the final grid, so the entries end up showing what the
   * grid holds.
   */
  method SolveAnimated(grid: array2<int>) returns (solved: bool, events: seq<Event>)
    requires grid.Length0 == grid.Length1 && Tiles(grid.Length0)
    modifies grid
    ensures Full(old(Cells(grid))) ==> solved && Cells(grid) == old(Cells(grid))
    ensures solved ==> Fills(old(Cells(grid)), Cells(grid)) && Full(Cells(grid))
    ensures solved && ValidPartial(old(Cells(grid))) ==> IsSolutionOf(Cells(grid), old(Cells(grid)))
    ensures !solved ==> Cells(grid) == old(Cells(grid)) && NoSolution(old(Cells(grid)))
    ensures OnGrid(grid.Length0, events) && Replay(old(Cells(grid)), events) == Cells(grid)
    ensures OnEmptyCells(old(Cells(grid)), events)
    decreases ZeroCount(Cells(grid)), 1
  {
    var n := grid.Length0;
    ghost var b := Cells(grid);
    events := [];
    var empty := FindEmpty(grid);
    if empty.None? {
      return true, events;
    }
    var row, col := empty.value.row, empty.value.col;
    var num := 1;
    while num <= n
      invariant 1 <= num <= n + 1
      invariant Cells(grid) == b
      invariant NoSolutionBelow(b, row, col, num)
      invariant OnGrid(n, events) && Replay(b, events) == b
      invariant OnEmptyCells(b, events)
    {
      var step;
      solved, step := AnimateValue(grid, row, col, num);
      ReplayAppend(b, events, step);
      OnEmptyCellsAppend(b, events, step);
      events := events + step;
      if solved {
        return;
      }
      num := num + 1;
    }
    return false, events;
  }

  /**
   * One candidate `num` at the empty cell (row, col) of the animated solver:
   * if it is safe it is written and shown, the search recurses, and on
   * failure the cell is reset and its entry emptied.
   */
  method AnimateValue(grid: array2<int>, row: int, col: int, num: int) returns (solved: bool, events: seq<Event>)
    requires grid.Length0 == grid.Length1 && Tiles(grid.Length0)
    requires InGrid(grid.Length0, row, col) && grid[row, col] == 0 && 1 <= num <= grid.Length0
    modifies grid
    ensures solved ==> Fills(old(Cells(grid)), Cells(grid)) && Full(Cells(grid))
    ensures solved && ValidPartial(old(Cells(grid))) ==> IsSolutionOf(Cells(grid), old(Cells(grid)))
    ensures !solved ==> Cells(grid) == old(Cells(grid))
    ensures !solved ==> forall c :: IsSolutionOf(c, old(Cells(grid))) ==> c[row][col] != num
    ensures OnGrid(grid.Length0, events) && Replay(old(Cells(grid)), events) == Cells(grid)
    ensures OnEmptyCells(old(Cells(grid)), events)
    decreases ZeroCount(Cells(grid)), 0
  {
    var n := grid.Length0;
    ghost var b := Cells(grid);
    var safe := IsSafe(grid, row, col, num);
    if !safe {
      forall c | IsSolutionOf(c, b)
        ensures c[row][col] != num
      {
        if c[row][col] == num {
          SolutionValueIsSafe(c, b, row, col);
        }
      }
      return false, [];
    }
    SetCell(grid, row, col, num);
    ghost var placed := Cells(grid);
    PlaceZeroCount(b, row, col, num);
    var shown := [Event(row, col, num)];
    assert Replay(b, shown) == placed by {
      assert shown[..0] == [];
    }
    var sub;
    solved, sub := SolveAnimated(grid);
    ReplayAppend(b, shown, sub);
    OnEmptyCellsAfterPlace(b, row, col, num, sub);
    OnEmptyCellsAppend(b, shown, sub);
    events := shown + sub;
    if solved {
      FillsAfterPlace(b, row, col, num, Cells(grid));
      if ValidPartial(b) {
        PlaceKeepsValid(b, row, col, num);
        SolutionsOfPlace(Cells(grid), b, row, col, num);
      }
      return;
    }
    SetCell(grid, row, col, 0);
    PlaceUndo(b, row, col, num);
    var cleared := events + [Event(row, col, 0)];
    assert cleared[..|cleared| - 1] == events;
    OnEmptyCellsAppend(b, events, [Event(row, col, 0)]);
    events := cleared;
    forall c | IsSolutionOf(c, b)
      ensures c[row][col] != num
    {
      SolutionsOfPlace(c, b, row, col, num);
    }
  }
}
