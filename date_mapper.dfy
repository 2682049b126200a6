/**
 * bitmap_to_dates: every lit cell of the graph becomes the date it stands
 * for. Column c is the week starting c weeks after the origin (the Sunday
 * get_year_start picks), row r the r-th day of that week, so cell (r, c) is
 * origin + 7c + r.
 */
module DateMapper {
  import opened Grid
  import opened Calendar

  /** The cells of the graph, numbered as the loop visits them: column by column, top to bottom. */
  const Cells: nat := Rows * Cols

  /** Cell i of the visiting order: row i % Rows of column i / Rows. */
  lemma CellIndex(col: nat, row: nat)
    requires row < Rows
    ensures (Rows * col + row) % Rows == row && (Rows * col + row) / Rows == col
  {
  }

  /** Cell i is lit (non-zero, as Python's truth test reads it). */
  predicate IsLitCell(g: seq<seq<int>>, i: nat)
    requires IsGrid(g) && i < Cells
  {
    g[i % Rows][i / Rows] != 0
  }

  /**
   * The dates the loop has collected after visiting the first n cells:
   * origin + i for each lit cell i, in visiting order.
   */
  function LitDays(g: seq<seq<int>>, origin: Day, n: nat): (days: seq<Day>)
    requires IsGrid(g) && n <= Cells
    ensures |days| <= n
    ensures forall i :: 0 <= i < |days| ==> origin <= days[i] < origin + n
  {
    if n == 0 then []
    else LitDays(g, origin, n - 1) + (if IsLitCell(g, n - 1) then [origin + (n - 1)] else [])
  }

  predicate StrictlyIncreasing(s: seq<Day>)
  {
    forall i, j :: 0 <= i < j < |s| ==> s[i] < s[j]
  }

  predicate NonDecreasing(s: seq<Day>)
  {
    forall i, j :: 0 <= i <= j < |s| ==> s[i] <= s[j]
  }

  /** d is the date of a lit cell among the first n: d - origin is that cell's number. */
  predicate IsLitDay(g: seq<seq<int>>, origin: Day, n: nat, d: Day)
    requires IsGrid(g) && n <= Cells
  {
    origin <= d < origin + n && IsLitCell(g, d - origin)
  }

  /**
   * The collected dates rise strictly, lie in [origin, origin + n), and are
   * exactly the dates of the lit cells among the first n.
   */
  lemma {:induction false} LitDaysInOrder(g: seq<seq<int>>, origin: Day, n: nat)
    requires IsGrid(g) && n <= Cells
    ensures StrictlyIncreasing(LitDays(g, origin, n))
    ensures forall k :: 0 <= k < |LitDays(g, origin, n)| ==> origin <= LitDays(g, origin, n)[k] < origin + n
    ensures forall d :: d in LitDays(g, origin, n) <==> IsLitDay(g, origin, n, d)
  {
    if n > 0 {
      LitDaysInOrder(g, origin, n - 1);
      var prev := LitDays(g, origin, n - 1);
      var ds := LitDays(g, origin, n);
      assert ds == prev + (if IsLitCell(g, n - 1) then [origin + (n - 1)] else []);
      forall d
        ensures d in ds <==> IsLitDay(g, origin, n, d)
      {
        if d == origin + (n - 1) {
          assert d !in prev;
        }
      }
    }
  }

  /** The number of lit cells among the first n in visiting order. */
  function LitCount(g: seq<seq<int>>, n: nat): (count: nat)
    requires IsGrid(g) && n <= Cells
    ensures count <= n
  {
    if n == 0 then 0 else LitCount(g, n - 1) + (if IsLitCell(g, n - 1) then 1 else 0)
  }

  /** The loop collects one date per lit cell visited. */
  lemma {:induction false} LitDaysLength(g: seq<seq<int>>, origin: Day, n: nat)
    requires IsGrid(g) && n <= Cells
    ensures |LitDays(g, origin, n)| == LitCount(g, n)
  {
    if n > 0 {
      LitDaysLength(g, origin, n - 1);
    }
  }

  /** The number of lit cells in the first r rows of column col. */
  function ColumnLit(g: seq<seq<int>>, col: nat, r: nat): (count: nat)
    requires IsGrid(g) && col < Cols && r <= Rows
    ensures count <= r
  {
    if r == 0 then 0 else ColumnLit(g, col, r - 1) + (if g[r - 1][col] != 0 then 1 else 0)
  }

  /** Visiting cell (row, col) counts it when it is lit. */
  lemma NextCellCount(g: seq<seq<int>>, col: nat, row: nat)
    requires IsGrid(g) && col < Cols && row < Rows
    ensures LitCount(g, Rows * col + row + 1) == LitCount(g, Rows * col + row) + (if g[row][col] != 0 then 1 else 0)
  {
    CellIndex(col, row);
  }

  /**
   * Within a column, the first r cells count as many lit cells as the first
   * r rows of the column hold.
   */
  lemma {:induction false} ColumnDates(g: seq<seq<int>>, col: nat, r: nat)
    requires IsGrid(g) && col < Cols && r <= Rows
    ensures LitCount(g, Rows * col + r) == LitCount(g, Rows * col) + ColumnLit(g, col, r)
  {
    if r > 0 {
      ColumnDates(g, col, r - 1);
      NextCellCount(g, col, r - 1);
    }
  }

  /** A whole week adds as many lit cells as its column holds. */
  lemma WeekDates(g: seq<seq<int>>, col: nat)
    requires IsGrid(g) && col < Cols
    ensures LitCount(g, Rows * (col + 1)) == LitCount(g, Rows * col) + ColumnLit(g, col, Rows)
  {
    ColumnDates(g, col, Rows);
  }

  /** Counting the lit cells of a column is summing its indicator values. */
  lemma {:induction false} ColumnLitIsSum(g: seq<seq<int>>, col: nat, r: nat)
    requires IsGrid(g) && col < Cols && r <= Rows
    ensures ColumnLit(g, col, r) == ColumnSum(Indicator(g)[..r], col)
  {
    var h := Indicator(g);
    if r == 0 {
      assert h[..0] == [];
    } else {
      ColumnLitIsSum(g, col, r - 1);
      assert h[..r][..r - 1] == h[..r - 1];
    }
  }

  /** The first col columns count as many lit cells as they hold. */
  lemma {:induction false} ColumnsDates(g: seq<seq<int>>, col: nat)
    requires IsGrid(g) && col <= Cols
    ensures LitCount(g, Rows * col) == ColumnsSum(Indicator(g), col)
  {
    if col > 0 {
      var h := Indicator(g);
      WeekDates(g, col - 1);
      assert ColumnLit(g, col - 1, Rows) == ColumnSum(h, col - 1) by {
        ColumnLitIsSum(g, col - 1, Rows);
        assert h[..Rows] == h;
      }
      ColumnsDates(g, col - 1);
    }
  }

  /** One date per lit cell: the whole graph yields LitCells(g) dates. */
  lemma DateCount(g: seq<seq<int>>, origin: Day)
    requires IsGrid(g)
    ensures |LitDays(g, origin, Cells)| == LitCells(g)
  {
    LitDaysLength(g, origin, Cells);
    ColumnsDates(g, Cols);
    SumOrderSwap(Indicator(g), Cols);
  }

  /** The head of a nondecreasing sequence is its least element. */
  lemma HeadIsLeast(a: seq<Day>, x: Day)
    requires NonDecreasing(a) && x in multiset(a)
    ensures |a| > 0 && a[0] <= x
  {
    var i :| 0 <= i < |a| && a[i] == x;
  }

  /** Dropping the head keeps a sequence nondecreasing and removes one copy of the head. */
  lemma DropHead(a: seq<Day>)
    requires NonDecreasing(a) && |a| > 0
    ensures NonDecreasing(a[1..])
    ensures multiset(a[1..]) == multiset(a) - multiset{a[0]}
  {
    assert a == [a[0]] + a[1..];
  }

  /** A nondecreasing sequence is the only nondecreasing arrangement of its elements. */
  lemma {:induction false} SortedUnique(a: seq<Day>, b: seq<Day>)
    requires NonDecreasing(a) && NonDecreasing(b) && multiset(a) == multiset(b)
    ensures a == b
    decreases |a|
  {
    if |a| == 0 {
      assert |b| == |multiset(b)| == 0;
    } else {
      assert a[0] == b[0] by {
        assert a[0] in multiset(b);
        HeadIsLeast(b, a[0]);
        HeadIsLeast(a, b[0]);
      }
      assert a[1..] == b[1..] by {
        DropHead(a);
        DropHead(b);
        SortedUnique(a[1..], b[1..]);
      }
      assert a == [a[0]] + a[1..] && b == [b[0]] + b[1..];
    }
  }

  /** sorted(dates) returns dates unchanged when the loop already produced them in order. */
  lemma SortedIsIdentity(dates: seq<Day>, sorted: seq<Day>)
    requires StrictlyIncreasing(dates)
    requires NonDecreasing(sorted) && multiset(sorted) == multiset(dates)
    ensures sorted == dates
  {
    SortedUnique(dates, sorted);
  }

  /** Visiting cell (row, col) appends its date exactly when it is lit. */
  lemma NextCell(g: seq<seq<int>>, origin: Day, col: nat, row: nat)
    requires IsGrid(g) && col < Cols && row < Rows
    ensures LitDays(g, origin, Rows * col + row + 1) ==
      LitDays(g, origin, Rows * col + row) + (if g[row][col] != 0 then [origin + 7 * col + row] else [])
  {
    CellIndex(col, row);
  }

  /** The inner loop of bitmap_to_dates: the lit days of week col, Sunday first. */
  method CollectWeek(bitmap: seq<seq<int>>, origin: Day, col: nat, before: seq<Day>) returns (dates: seq<Day>)
    requires IsGrid(bitmap) && col < Cols
    requires before == LitDays(bitmap, origin, Rows * col)
    ensures dates == LitDays(bitmap, origin, Rows * col + Rows)
  {
    dates := before;
    for row := 0 to Rows
      invariant dates == LitDays(bitmap, origin, Rows * col + row)
    {
      NextCell(bitmap, origin, col, row);
      if bitmap[row][col] != 0 {
        dates := dates + [origin + 7 * col + row];
      }
    }
  }

  /** The loop of bitmap_to_dates: origin + 7col + row for every lit cell, column by column. */
  method CollectDates(bitmap: seq<seq<int>>, origin: Day) returns (dates: seq<Day>)
    requires IsGrid(bitmap)
    ensures dates == LitDays(bitmap, origin, Cells)
  {
    dates := [];
    for col := 0 to Cols
      invariant dates == LitDays(bitmap, origin, Rows * col)
    {
      dates := CollectWeek(bitmap, origin, col, dates);
    }
  }

  /**
   * bitmap_to_dates(bitmap, year): the date of every lit cell, ascending, or
   * the exception get_year_start raises.
   */
  method BitmapToDates(bitmap: seq<seq<int>>, year: int) returns (res: Result<seq<Day>>)
    requires IsGrid(bitmap)
    ensures GetYearStart(year).Err? ==> res == Err(GetYearStart(year).error)
    ensures GetYearStart(year).Ok? ==> res == Ok(LitDays(bitmap, GetYearStart(year).value, Cells))
    ensures res.Ok? ==> StrictlyIncreasing(res.value) && NonDecreasing(res.value)
    ensures res.Ok? ==> |res.value| == LitCells(bitmap)
    ensures res.Ok? ==> forall d :: d in res.value <==> IsLitDay(bitmap, GetYearStart(year).value, Cells, d)
  {
    var start := GetYearStart(year);
    if start.Err? {
      return Err(start.error);
    }
    var dates := CollectDates(bitmap, start.value);
    LitDaysInOrder(bitmap, start.value, Cells);
    DateCount(bitmap, start.value);
    res := Ok(dates);
  }

  /** Cell (row, col) is lit exactly when its date origin + 7col + row is among the dates. */
  lemma CellHasDate(g: seq<seq<int>>, origin: Day, row: nat, col: nat)
    requires IsGrid(g) && row < Rows && col < Cols
    ensures origin + 7 * col + row in LitDays(g, origin, Cells) <==> g[row][col] != 0
  {
    LitDaysInOrder(g, origin, Cells);
    CellIndex(col, row);
  }

  /** Counting from a Sunday, the day 7col + row later is weekday row from Sunday. */
  lemma WeekdayOfCell(origin: Day, row: nat, col: nat)
    requires IsoWeekday(origin) == 7 && row < Rows
    ensures DaysSinceSunday(origin + 7 * col + row) == row
  {
    assert origin % 7 == 0;
    DivModUnique(origin + 7 * col + row, 7, origin / 7 + col, row);
  }

  /**
   * With the origin get_year_start picks, the date of a cell in row r falls
   * on weekday r counted from Sunday, and every date is a valid one.
   */
  lemma CellWeekday(year: int, row: nat, col: nat)
    requires GetYearStart(year).Ok? && row < Rows && col < Cols
    ensures var d := GetYearStart(year).value + 7 * col + row;
      DaysSinceSunday(d) == row && 1 <= d <= MaxDay
  {
    YearStartIsSunday(year);
    GraphDaysInRange(year);
    WeekdayOfCell(GetYearStart(year).value, row, col);
  }
}
