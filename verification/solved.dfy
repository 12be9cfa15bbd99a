/**
 * What a solved board looks like from the point of view of a player: every
 * row, every column and (when N is a perfect square) every subgrid holds each
 * of the values 1..N exactly once. The solver and the generator only ever
 * check the pairwise rule of is_safe; these lemmas show that the pairwise
 * rule on a full board is the whole Sudoku rule.
 */

/** Counting facts about sequences of distinct values. */
module Perm {
  import opened Grid

  /** No value occurs twice in `s`. */
  predicate Distinct(s: seq<int>) {
    forall i, j :: 0 <= i < j < |s| ==> s[i] != s[j]
  }

  /** The values of the first `k` entries of `s`. */
  function Elements(s: seq<int>, k: nat): set<int>
    requires k <= |s|
  {
    if k == 0 then {} else Elements(s, k - 1) + {s[k - 1]}
  }

  /** The values 1..n. */
  function Values(n: nat): (r: set<int>)
    ensures forall v :: v in r <==> 1 <= v <= n
    ensures |r| == n
  {
    if n == 0 then {} else Values(n - 1) + {n}
  }

  /** A value that none of the first `k` entries holds is not among their values. */
  lemma {:induction false} ElementsAvoid(s: seq<int>, k: nat, v: int)
    requires k <= |s| && forall j :: 0 <= j < k ==> s[j] != v
    ensures v !in Elements(s, k)
  {
    if k > 0 {
      ElementsAvoid(s, k - 1, v);
    }
  }

  /** The values of the first `k` entries lie in 1..n when the entries do. */
  lemma {:induction false} ElementsBounded(s: seq<int>, k: nat, n: nat)
    requires k <= |s| && forall j :: 0 <= j < k ==> 1 <= s[j] <= n
    ensures Elements(s, k) <= Values(n)
  {
    if k > 0 {
      ElementsBounded(s, k - 1, n);
    }
  }

  /** The first `k` entries of a sequence of distinct values have `k` different values. */
  lemma {:induction false} DistinctElements(s: seq<int>, k: nat)
    requires Distinct(s) && k <= |s|
    ensures |Elements(s, k)| == k
  {
    if k > 0 {
      DistinctElements(s, k - 1);
      ElementsAvoid(s, k - 1, s[k - 1]);
    }
  }

  /** A subset is no larger than its superset. */
  lemma SubsetCard(a: set<int>, b: set<int>)
    requires a <= b
    ensures |a| <= |b|
  {
    assert b == a + (b - a);
    assert a * (b - a) == {};
  }

  /** N distinct values in 1..N are all of 1..N. */
  lemma Pigeonhole(s: seq<int>, n: nat)
    requires |s| == n && Distinct(s)
    requires forall j :: 0 <= j < n ==> 1 <= s[j] <= n
    ensures forall v :: 1 <= v <= n ==> v in s
  {
    var e := Elements(s, n);
    DistinctElements(s, n);
    ElementsBounded(s, n, n);
    forall v | 1 <= v <= n
      ensures v in s
    {
      if v !in s {
        ElementsAvoid(s, n, v);
        SubsetCard(e, Values(n) - {v});
      }
    }
  }
}

/** Rows, columns and subgrids of a solved board. */
module SolvedBoard {
  import opened Grid
  import opened Perm
  import opened Sudoku

  /** Two peer cells of a solved board hold different values. */
  lemma PeersDiffer(b: Board, r1: int, c1: int, r2: int, c2: int)
    requires Solved(b) && InGrid(|b|, r1, c1) && InGrid(|b|, r2, c2)
    requires Peers(SubgridSize(|b|), r1, c1, r2, c2)
    ensures b[r1][c1] != b[r2][c2]
  {
    assert b[r1][c1] != 0;
  }

  /** The values of column `col`, top to bottom. */
  function Column(b: Board, col: int): (c: seq<int>)
    requires IsSquare(b) && 0 <= col < |b|
    ensures |c| == |b| && forall i :: 0 <= i < |b| ==> c[i] == b[i][col]
  {
    seq(|b|, i requires 0 <= i < |b| => b[i][col])
  }

  /** Every row of a solved board holds each of 1..N, once. */
  lemma RowsComplete(b: Board, row: int)
    requires Solved(b) && 0 <= row < |b|
    ensures Distinct(b[row])
    ensures forall v :: 1 <= v <= |b| ==> v in b[row]
  {
    var n, s := |b|, SubgridSize(|b|);
    forall i, j | 0 <= i < j < n
      ensures b[row][i] != b[row][j]
    {
      assert Peers(s, row, i, row, j);
    }
    Pigeonhole(b[row], n);
  }

  /** Every column of a solved board holds each of 1..N, once. */
  lemma ColumnsComplete(b: Board, col: int)
    requires Solved(b) && 0 <= col < |b|
    ensures Distinct(Column(b, col))
    ensures forall v :: 1 <= v <= |b| ==> v in Column(b, col)
  {
    var n, s, c := |b|, SubgridSize(|b|), Column(b, col);
    forall i, j | 0 <= i < j < n
      ensures c[i] != c[j]
    {
      assert Peers(s, i, col, j, col);
    }
    Pigeonhole(c, n);
  }

  /** Division by a positive `s` recovers the quotient and remainder it was built from. */
  lemma DivModUnique(x: int, s: int, q: int, r: int)
    requires s > 0 && 0 <= r < s && x == s * q + r
    ensures x / s == q && x % s == r
  {
    var q', r' := x / s, x % s;
    assert x == s * q' + r';
    MulOrder(s, q', q);
    MulOrder(s, q, q');
  }

  /** An index below S * S has a quotient below S. */
  lemma QuotientBelow(s: int, k: int)
    requires s > 0 && 0 <= k < s * s
    ensures 0 <= k / s < s
  {
    var d := k / s;
    assert s * d <= k;
    MulOrder(s, d, s);
  }

  /** Offset `a` in block `q` of side S lies in 0..S*S-1 and divides back to `q`. */
  lemma BlockIndex(s: int, q: int, a: int)
    requires s > 0 && 0 <= q < s && 0 <= a < s
    ensures 0 <= s * q + a < s * s && (s * q + a) / s == q
  {
    MulOrder(s, q, s);
    assert s * q + s <= s * s;
    assert 0 <= s * q;
    DivModUnique(s * q + a, s, q, a);
  }

  /** The row of the k-th cell, row by row, of a subgrid in block row `br` of side `s`. */
  function BoxRow(s: int, br: int, k: int): int
    requires s > 0
  {
    s * br + k / s
  }

  /** The column of the k-th cell, row by row, of a subgrid in block column `bc` of side `s`. */
  function BoxCol(s: int, bc: int, k: int): int
    requires s > 0
  {
    s * bc + k % s
  }

  /** The k-th cell of subgrid (br, bc) of an S*S x S*S board lies on the board and in that subgrid. */
  lemma BoxCell(s: int, br: int, bc: int, k: int)
    requires s > 0 && 0 <= br < s && 0 <= bc < s && 0 <= k < s * s
    ensures 0 <= BoxRow(s, br, k) < s * s && BoxRow(s, br, k) / s == br
    ensures 0 <= BoxCol(s, bc, k) < s * s && BoxCol(s, bc, k) / s == bc
  {
    QuotientBelow(s, k);
    BlockIndex(s, br, k / s);
    BlockIndex(s, bc, k % s);
  }

  /** Two different positions of a subgrid are two different cells. */
  lemma BoxCellsDiffer(s: int, br: int, bc: int, k1: int, k2: int)
    requires s > 0 && k1 != k2
    ensures BoxRow(s, br, k1) != BoxRow(s, br, k2) || BoxCol(s, bc, k1) != BoxCol(s, bc, k2)
  {
    assert k1 == s * (k1 / s) + k1 % s;
    assert k2 == s * (k2 / s) + k2 % s;
  }

  /** The value of the k-th cell, row by row, of subgrid (br, bc) of side `s` when N = S * S. */
  function BoxValue(b: Board, s: int, br: int, bc: int, k: int): int
    requires IsSquare(b) && s > 0 && s * s == |b|
    requires 0 <= br < s && 0 <= bc < s && 0 <= k < |b|
  {
    BoxCell(s, br, bc, k);
    b[BoxRow(s, br, k)][BoxCol(s, bc, k)]
  }

  /** The values of subgrid (br, bc) of side `s`, row by row, when N = S * S. */
  function Box(b: Board, s: int, br: int, bc: int): (x: seq<int>)
    requires IsSquare(b) && s > 0 && s * s == |b|
    requires 0 <= br < s && 0 <= bc < s
    ensures |x| == |b| && forall k :: 0 <= k < |b| ==> x[k] == BoxValue(b, s, br, bc, k)
  {
    seq(|b|, k requires 0 <= k < |b| => BoxValue(b, s, br, bc, k))
  }

  /** Two different cells of a subgrid of a solved board hold different values. */
  lemma BoxPairDistinct(b: Board, s: int, br: int, bc: int, k1: int, k2: int)
    requires Solved(b) && s == SubgridSize(|b|) && s * s == |b| && s > 0
    requires 0 <= br < s && 0 <= bc < s
    requires 0 <= k1 < |b| && 0 <= k2 < |b| && k1 != k2
    ensures BoxValue(b, s, br, bc, k1) != BoxValue(b, s, br, bc, k2)
  {
    BoxCell(s, br, bc, k1);
    BoxCell(s, br, bc, k2);
    BoxCellsDiffer(s, br, bc, k1, k2);
    var r1, c1, r2, c2 := BoxRow(s, br, k1), BoxCol(s, bc, k1), BoxRow(s, br, k2), BoxCol(s, bc, k2);
    assert SameBox(s, r1, c1, r2, c2);
    PeersDiffer(b, r1, c1, r2, c2);
  }

  /**
   * When N = S * S, every subgrid of a solved board holds each of 1..N once.
   */
  lemma BoxesComplete(b: Board, br: int, bc: int)
    requires Solved(b) && SubgridSize(|b|) * SubgridSize(|b|) == |b| && |b| > 0
    requires 0 <= br < SubgridSize(|b|) && 0 <= bc < SubgridSize(|b|)
    ensures Distinct(Box(b, SubgridSize(|b|), br, bc))
    ensures forall v :: 1 <= v <= |b| ==> v in Box(b, SubgridSize(|b|), br, bc)
  {
    var n, s := |b|, SubgridSize(|b|);
    var x := Box(b, s, br, bc);
    forall k | 0 <= k < n
      ensures 1 <= x[k] <= n
    {
      BoxCell(s, br, bc, k);
    }
    forall k1, k2 | 0 <= k1 < k2 < n
      ensures x[k1] != x[k2]
    {
      BoxPairDistinct(b, s, br, bc, k1, k2);
    }
    Pigeonhole(x, n);
  }
}
