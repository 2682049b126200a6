/**
 * The shape of the contribution graph and the pixel sums over it.
 * Row r is a weekday (0 = Sunday ... 6 = Saturday), column c a week.
 */
module Grid {

  /** GRAPH_ROWS: days of the week. */
  const Rows: nat := 7
  /** GRAPH_COLS: weeks of the year. */
  const Cols: nat := 52

  /** A bitmap of the graph's shape: Rows rows of Cols cells each. */
  predicate IsGrid(g: seq<seq<int>>)
  {
    |g| == Rows && forall r :: 0 <= r < |g| ==> |g[r]| == Cols
  }

  /** Every cell is 0 or 1. */
  predicate IsBinary(g: seq<seq<int>>)
  {
    forall r, c :: 0 <= r < |g| && 0 <= c < |g[r]| ==> g[r][c] == 0 || g[r][c] == 1
  }

  /** The all-zero grid, [[0] * Cols for _ in range(Rows)]. */
  function Blank(): (g: seq<seq<int>>)
    ensures IsGrid(g) && IsBinary(g)
    ensures forall r, c :: 0 <= r < Rows && 0 <= c < Cols ==> g[r][c] == 0
  {
    seq(Rows, _ => seq(Cols, _ => 0))
  }

  /** sum(row): on 0/1 values, between 0 and the row's length. */
  function RowSum(row: seq<int>): (s: int)
    ensures (forall i :: 0 <= i < |row| ==> row[i] == 0 || row[i] == 1) ==> 0 <= s <= |row|
  {
    if |row| == 0 then 0 else RowSum(row[..|row| - 1]) + row[|row| - 1]
  }

  /** sum(sum(r) for r in g): rows first, then the cells of each row; never negative on 0/1 cells. */
  function GridSum(g: seq<seq<int>>): (s: int)
    ensures IsBinary(g) ==> 0 <= s
  {
    if |g| == 0 then 0 else GridSum(g[..|g| - 1]) + RowSum(g[|g| - 1])
  }

  /** Every row has at least n cells. */
  predicate HasColumns(g: seq<seq<int>>, n: nat)
  {
    forall r :: 0 <= r < |g| ==> n <= |g[r]|
  }

  /** The sum of column c over all rows. */
  function ColumnSum(g: seq<seq<int>>, c: nat): int
    requires HasColumns(g, c + 1)
  {
    if |g| == 0 then 0 else ColumnSum(g[..|g| - 1], c) + g[|g| - 1][c]
  }

  /** The column sums of the first n columns: the grid summed column by column. */
  function ColumnsSum(g: seq<seq<int>>, n: nat): int
    requires HasColumns(g, n)
  {
    if n == 0 then 0 else ColumnsSum(g, n - 1) + ColumnSum(g, n - 1)
  }

  /** 1 for a lit (non-zero) cell, 0 for an unlit one, cell by cell. */
  function Indicator(g: seq<seq<int>>): (h: seq<seq<int>>)
    ensures |h| == |g| && IsBinary(h)
    ensures forall r :: 0 <= r < |g| ==> |h[r]| == |g[r]|
    ensures forall r, c :: 0 <= r < |g| && 0 <= c < |g[r]| ==> (h[r][c] == 1 <==> g[r][c] != 0)
  {
    seq(|g|, r requires 0 <= r < |g| =>
      seq(|g[r]|, c requires 0 <= c < |g[r]| => if g[r][c] != 0 then 1 else 0))
  }

  /** The number of lit cells. */
  function LitCells(g: seq<seq<int>>): int
  {
    GridSum(Indicator(g))
  }

  lemma {:induction false} ColumnsSumOfNoRows(g: seq<seq<int>>, n: nat)
    requires |g| == 0
    ensures ColumnsSum(g, n) == 0
  {
    if n > 0 {
      ColumnsSumOfNoRows(g, n - 1);
    }
  }

  /** Summing column by column, the last row contributes its first n cells. */
  lemma {:induction false} ColumnsSumLastRow(g: seq<seq<int>>, n: nat)
    requires |g| > 0 && HasColumns(g, n)
    ensures ColumnsSum(g, n) == ColumnsSum(g[..|g| - 1], n) + RowSum(g[|g| - 1][..n])
  {
    var last := g[|g| - 1];
    if n == 0 {
      assert last[..0] == [];
    } else {
      ColumnsSumLastRow(g, n - 1);
      assert last[..n][..n - 1] == last[..n - 1];
    }
  }

  /**
   * Summing a rectangular grid column by column gives the same total as
   * summing it row by row.
   */
  lemma {:induction false} SumOrderSwap(g: seq<seq<int>>, width: nat)
    requires forall r :: 0 <= r < |g| ==> |g[r]| == width
    ensures ColumnsSum(g, width) == GridSum(g)
  {
    if |g| == 0 {
      ColumnsSumOfNoRows(g, width);
    } else {
      SumOrderSwap(g[..|g| - 1], width);
      ColumnsSumLastRow(g, width);
      assert g[|g| - 1][..width] == g[|g| - 1];
    }
  }

  /** On a 0/1 grid, the sum of all cells is the number of lit cells. */
  lemma BinaryLitCells(g: seq<seq<int>>)
    requires IsBinary(g)
    ensures LitCells(g) == GridSum(g)
  {
    var h := Indicator(g);
    forall r | 0 <= r < |g|
      ensures h[r] == g[r]
    {
    }
    assert h == g;
  }
}
