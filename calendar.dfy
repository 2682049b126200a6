/**
 * Dates as day numbers, the way Python's date.toordinal counts them in the
 * proleptic Gregorian calendar: 0001-01-01 (a Monday) is day 1.
 */
module Calendar {

  /** A date, as its ordinal day number. */
  type Day = int

  /** The exceptions the datetime calls of get_year_start raise. */
  datatype DateError =
    | YearOutOfRange  // date(year, 1, 1) with year outside MinYear..MaxYear: ValueError
    | DateOverflow    // stepping back before date.min: OverflowError

  datatype Result<T> = Ok(value: T) | Err(error: DateError)

  const MinYear: int := 1
  const MaxYear: int := 9999
  /** date.max (9999-12-31) as a day number. */
  const MaxDay: Day := 3652059

  predicate IsLeap(y: int)
  {
    y % 4 == 0 && (y % 100 != 0 || y % 400 == 0)
  }

  function YearLength(y: int): int
  {
    if IsLeap(y) then 366 else 365
  }

  /**
   * The days in the years before year y, as CPython's _days_before_year
   * counts them: each earlier year has 365 or 366 days.
   */
  function DaysBeforeYear(y: int): (days: int)
    requires y >= 1
    ensures 365 * (y - 1) <= days <= 366 * (y - 1)
  {
    var p := y - 1;
    DivLarger(p, 4, 100);
    DivLarger(p, 100, 400);
    DivLarger(p, 1, 4);
    p * 365 + p / 4 - p / 100 + p / 400
  }

  /** The length of month m of year y: February has 29 days in a leap year. */
  function DaysInMonth(y: int, m: int): (n: int)
    requires 1 <= m <= 12
    ensures 28 <= n <= 31
  {
    if m == 2 then (if IsLeap(y) then 29 else 28)
    else if m == 4 || m == 6 || m == 9 || m == 11 then 30
    else 31
  }

  /** The days in the months of year y before month m, as CPython's table gives them. */
  function DaysBeforeMonth(y: int, m: int): (days: int)
    requires 1 <= m <= 12
    ensures m == 1 ==> days == 0
    ensures 0 <= days <= 335
  {
    [0, 31, 59, 90, 120, 151, 181, 212, 243, 273, 304, 334][m - 1] + (if m > 2 && IsLeap(y) then 1 else 0)
  }

  /** The table is the running sum of the month lengths. */
  lemma MonthsAddUp(y: int, m: int)
    requires 2 <= m <= 12
    ensures DaysBeforeMonth(y, m) == DaysBeforeMonth(y, m - 1) + DaysInMonth(y, m - 1)
  {
  }

  /** The twelve months make up the year. */
  lemma MonthsMakeYear(y: int)
    ensures DaysBeforeMonth(y, 12) + DaysInMonth(y, 12) == YearLength(y)
  {
  }

  /** date(y, m, d).toordinal(): a day of the month past the earlier months and years. */
  function Ordinal(y: int, m: int, d: int): (day: Day)
    requires y >= 1 && 1 <= m <= 12
    ensures 1 <= d <= 31 ==> DaysBeforeYear(y) < day <= DaysBeforeYear(y) + 366
  {
    DaysBeforeYear(y) + DaysBeforeMonth(y, m) + d
  }

  /** date(y, 1, 1).toordinal(): the first day after the earlier years. */
  function Jan1(y: int): (day: Day)
    requires y >= 1
    ensures 365 * (y - 1) < day <= 366 * (y - 1) + 1
  {
    DaysBeforeYear(y) + 1
  }

  /** 1 January is the date of month 1, day 1. */
  lemma Jan1IsFirstOrdinal(y: int)
    requires y >= 1
    ensures Jan1(y) == Ordinal(y, 1, 1)
  {
  }

  /** A valid date of year y falls on or after its 1 January and before the next. */
  lemma {:induction false} OrdinalWithinYear(y: int, m: int, d: int)
    requires y >= 1 && 1 <= m <= 12 && 1 <= d <= DaysInMonth(y, m)
    ensures Jan1(y) <= Ordinal(y, m, d) < Jan1(y + 1)
  {
    NextJan1(y);
    MonthsBeforeYearEnd(y, m);
  }

  /** Month m ends no later than the year does. */
  lemma {:induction false} MonthsBeforeYearEnd(y: int, m: int)
    requires 1 <= m <= 12
    ensures DaysBeforeMonth(y, m) + DaysInMonth(y, m) <= YearLength(y)
    decreases 12 - m
  {
    if m == 12 {
      MonthsMakeYear(y);
    } else {
      MonthsBeforeYearEnd(y, m + 1);
      MonthsAddUp(y, m + 1);
    }
  }

  /** date.isoweekday(): Monday is 1, ..., Sunday is 7. */
  function IsoWeekday(d: Day): (w: int)
    ensures 1 <= w <= 7
    ensures w % 7 == d % 7
  {
    (d + 6) % 7 + 1
  }

  /** isoweekday() % 7: Sunday 0, Monday 1, ..., Saturday 6. */
  function DaysSinceSunday(d: Day): (k: int)
    ensures 0 <= k < 7
    ensures k == 0 <==> IsoWeekday(d) == 7
  {
    IsoWeekday(d) % 7
  }

  /**
   * jan1 - timedelta(days=jan1.isoweekday() % 7): a Sunday at most six days
   * before day.
   */
  function SundayOnOrBefore(day: Day): (s: Day)
    ensures IsoWeekday(s) == 7
    ensures day - 6 <= s <= day
  {
    day - DaysSinceSunday(day)
  }

  /** No Sunday lies strictly between SundayOnOrBefore(day) and day: it is the last one. */
  lemma LastSundayOnOrBefore(day: Day, d: Day)
    requires SundayOnOrBefore(day) < d <= day
    ensures IsoWeekday(d) != 7
  {
    var start := SundayOnOrBefore(day);
    assert 0 < d - start < 7;
    assert start % 7 == 0;
  }

  /**
   * get_year_start(year): the Sunday on or before 1 January of year, or the
   * exception the datetime calls raise.
   */
  function GetYearStart(year: int): (r: Result<Day>)
    ensures year < MinYear || year > MaxYear ==> r == Err(YearOutOfRange)
    ensures year == MinYear ==> r == Err(DateOverflow)
    ensures r.Ok? <==> MinYear < year <= MaxYear
    ensures r.Ok? ==> r.value == SundayOnOrBefore(Jan1(year))
  {
    if year < MinYear || year > MaxYear then Err(YearOutOfRange)
    else
      var jan1 := Jan1(year);
      var start := SundayOnOrBefore(jan1);
      FirstYearStartsOnMonday(year);
      LaterYearsStartLater(year);
      if start < 1 then Err(DateOverflow) else Ok(start)
  }

  /** get_year_start(year) is a Sunday, on or before 1 January and at most six days earlier. */
  lemma YearStartIsSunday(year: int)
    requires MinYear < year <= MaxYear
    ensures GetYearStart(year).Ok?
    ensures var start := GetYearStart(year).value;
      IsoWeekday(start) == 7 && DaysSinceSunday(start) == 0 &&
      Jan1(year) - 6 <= start <= Jan1(year) &&
      forall d :: start < d <= Jan1(year) ==> IsoWeekday(d) != 7
  {
    forall d | GetYearStart(year).value < d <= Jan1(year)
      ensures IsoWeekday(d) != 7
    {
      LastSundayOnOrBefore(Jan1(year), d);
    }
  }

  /**
   * 0001-01-01 is day 1, a Monday, so the Sunday before it is day 0, one
   * day before date.min.
   */
  lemma FirstYearStartsOnMonday(y: int)
    requires y >= 1
    ensures y == 1 ==> Jan1(y) == 1 && IsoWeekday(Jan1(y)) == 1 && SundayOnOrBefore(Jan1(y)) == 0
  {
    if y == 1 {
      var jan1 := Jan1(y);
      assert jan1 == 1;
      assert SundayOnOrBefore(1) == 0;
    }
  }

  /** From year 2 on, 1 January is more than a week after day 1. */
  lemma LaterYearsStartLater(y: int)
    requires y >= 1
    ensures y >= 2 ==> Jan1(y) >= 366
  {
    var p := y - 1;
    assert p / 4 >= p / 100 by {
      DivLarger(p, 4, 100);
    }
  }

  /** Dividing by a larger divisor gives a smaller quotient. */
  lemma DivLarger(n: int, k: int, m: int)
    requires n >= 0 && 0 < k <= m
    ensures n / m <= n / k
  {
    var q := n / m;
    assert q * k <= q * m <= n;
    DivBelow(n, k, q);
  }

  /** A multiple of k no larger than n bounds n / k from below. */
  lemma DivBelow(n: int, k: int, q: int)
    requires n >= 0 && k > 0 && q >= 0 && q * k <= n
    ensures q <= n / k
  {
    var r := n - q * k;
    assert n / k == q + r / k by {
      DivAddMultiple(r, k, q);
    }
  }

  /** Adding q multiples of k adds q to the quotient. */
  lemma DivAddMultiple(r: int, k: int, q: int)
    requires r >= 0 && k > 0
    ensures (q * k + r) / k == q + r / k
  {
    DivModUnique(q * k + r, k, q + r / k, r % k);
  }

  /** n == q * k + r with 0 <= r < k pins down n / k and n % k. */
  lemma DivModUnique(n: int, k: int, q: int, r: int)
    requires k > 0 && 0 <= r < k && n == q * k + r
    ensures n / k == q && n % k == r
  {
    var q', r' := n / k, n % k;
    assert (q - q') * k == r' - r;
    if q > q' {
      MulAtLeast(q - q', k);
    } else if q < q' {
      MulAtLeast(q' - q, k);
    }
  }

  lemma MulAtLeast(a: int, k: int)
    requires a >= 1 && k > 0
    ensures a * k >= k
  {
    assert a * k == (a - 1) * k + k;
    assert (a - 1) * k >= 0;
  }

  /** (n + 1) / k steps up by one exactly when k divides n + 1. */
  lemma DivStep(n: int, k: int)
    requires n >= 0 && k > 0
    ensures (n + 1) / k == n / k + (if (n + 1) % k == 0 then 1 else 0)
  {
    var q, r := n / k, n % k;
    DivModUnique(n, k, q, r);
    if r + 1 == k {
      DivModUnique(n + 1, k, q + 1, 0);
    } else {
      DivModUnique(n + 1, k, q, r + 1);
    }
  }

  /** The 0/1 value of a condition. */
  function OneIf(b: bool): int
  {
    if b then 1 else 0
  }

  /** A year adds 365 days, one more for each of the rules of 4, 100 and 400 it meets. */
  lemma DaysBeforeYearStep(y: int)
    requires y >= 1
    ensures DaysBeforeYear(y + 1) == DaysBeforeYear(y) + 365
      + OneIf(y % 4 == 0) - OneIf(y % 100 == 0) + OneIf(y % 400 == 0)
  {
    var p := y - 1;
    DivStep(p, 4);
    DivStep(p, 100);
    DivStep(p, 400);
  }

  /** The same count, read as the leap-year rule. */
  lemma YearLengthByRules(y: int)
    ensures YearLength(y) == 365
      + OneIf(y % 4 == 0) - OneIf(y % 100 == 0) + OneIf(y % 400 == 0)
  {
    assert y % 400 == 0 ==> y % 100 == 0 by {
      if y % 400 == 0 {
        DivModUnique(y, 100, 4 * (y / 400), 0);
      }
    }
    assert y % 100 == 0 ==> y % 4 == 0 by {
      if y % 100 == 0 {
        DivModUnique(y, 4, 25 * (y / 100), 0);
      }
    }
  }

  /** The next year starts a year length later. */
  lemma NextJan1(y: int)
    requires y >= 1
    ensures Jan1(y + 1) == Jan1(y) + YearLength(y)
  {
    DaysBeforeYearStep(y);
    YearLengthByRules(y);
  }

  /** 31 December of year y is the day before 1 January of year y + 1. */
  lemma LastDayOfYear(y: int)
    requires y >= 1
    ensures Ordinal(y, 12, 31) + 1 == Jan1(y + 1)
  {
    NextJan1(y);
  }

  /** A later year starts no earlier. */
  lemma {:induction false} Jan1Monotone(y: int, z: int)
    requires 1 <= y <= z
    ensures Jan1(y) <= Jan1(z)
    decreases z - y
  {
    if y < z {
      NextJan1(y);
      Jan1Monotone(y + 1, z);
    }
  }

  /** date.max is 9999-12-31. */
  lemma MaxDayIsLastDay()
    ensures MaxDay == Ordinal(MaxYear, 12, 31)
  {
  }

  /**
   * Every day of the 52 weeks from get_year_start(year) is a valid date:
   * origin + 7 * 51 + 6 never passes date.max.
   */
  lemma GraphDaysInRange(year: int)
    requires GetYearStart(year).Ok?
    ensures 1 <= GetYearStart(year).value
    ensures GetYearStart(year).value + 7 * 52 - 1 <= MaxDay
  {
    Jan1Monotone(year, MaxYear);
  }

  /** 1 January 2022 is a Saturday, so the 2022 graph starts on Sunday 26 December 2021. */
  lemma YearStart2022()
    ensures IsoWeekday(Jan1(2022)) == 6
    ensures GetYearStart(2022) == Ok(Ordinal(2021, 12, 26))
  {
  }
}
