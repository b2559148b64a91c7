/**
 * Timestamps are whole seconds since 1970-01-01T00:00:00 on a timezone-naive
 * proleptic Gregorian calendar, as pandas reads the dataset's purchase and
 * delivery columns. Day numbers count days since 1970-01-01.
 */
module Calendar {

  const SECONDS_PER_DAY := 86400

  /** The day a timestamp falls on (floor division, also before 1970). */
  function DayOf(ts: int): (day: int)
    ensures StartOfDay(day) <= ts <= EndOfDay(day)
  {
    ts / SECONDS_PER_DAY
  }

  /** Midnight at the start of `day` (`pd.to_datetime(date)`). */
  function StartOfDay(day: int): int {
    day * SECONDS_PER_DAY
  }

  /**
   * The last second of `day`: the selected end date plus one day minus one
   * second, so that the whole final day is inside the range.
   */
  function EndOfDay(day: int): int {
    StartOfDay(day) + SECONDS_PER_DAY - 1
  }

  /** Midnight of `day` is on `day`, and so is its last second; the next second is the next day. */
  lemma DayBoundaries(day: int)
    ensures DayOf(StartOfDay(day)) == day
    ensures DayOf(EndOfDay(day)) == day
    ensures DayOf(EndOfDay(day) + 1) == day + 1
  {
    DivOfMultiple(day, 0);
    DivOfMultiple(day, SECONDS_PER_DAY - 1);
    DivOfMultiple(day + 1, 0);
  }

  lemma DivOfMultiple(q: int, r: int)
    requires 0 <= r < SECONDS_PER_DAY
    ensures (q * SECONDS_PER_DAY + r) / SECONDS_PER_DAY == q
  {
  }

  /**
   * Whole days in the time span from `from` to `to`, rounded down
   * (`Timedelta.days`): the largest `n` with `n` days not longer than the span.
   */
  function DaysBetween(from: int, to: int): (n: int)
    ensures n * SECONDS_PER_DAY <= to - from < (n + 1) * SECONDS_PER_DAY
  {
    (to - from) / SECONDS_PER_DAY
  }

  /**
   * Measured from the last second of `day`, the whole days back to a moment
   * on or before that day are exactly the calendar days between them.
   */
  lemma {:induction false} DaysBackFromEndOfDay(ts: int, day: int)
    requires ts <= EndOfDay(day)
    ensures DaysBetween(ts, EndOfDay(day)) == day - DayOf(ts)
    ensures DaysBetween(ts, EndOfDay(day)) >= 0
  {
    var q, r := ts / SECONDS_PER_DAY, ts % SECONDS_PER_DAY;
    assert ts == q * SECONDS_PER_DAY + r;
    assert EndOfDay(day) - ts == (day - q) * SECONDS_PER_DAY + (SECONDS_PER_DAY - 1 - r);
    DivOfMultiple(day - q, SECONDS_PER_DAY - 1 - r);
  }

  /** Day of the week, 0 for Monday through 6 for Sunday (1970-01-01 was a Thursday). */
  function Weekday(ts: int): (w: int)
    ensures 0 <= w < 7
  {
    (DayOf(ts) + 3) % 7
  }

  /** The names that `Series.dt.day_name()` gives the weekdays, Monday first. */
  const DAY_NAMES: seq<string> :=
    ["Monday", "Tuesday", "Wednesday", "Thursday", "Friday", "Saturday", "Sunday"]

  /** The next day is the next weekday, wrapping from Sunday to Monday. */
  lemma WeekdayAdvances(ts: int)
    ensures Weekday(ts + SECONDS_PER_DAY) == (Weekday(ts) + 1) % 7
  {
    var d := DayOf(ts);
    assert DayOf(ts + SECONDS_PER_DAY) == d + 1 by {
      var r := ts % SECONDS_PER_DAY;
      assert ts == d * SECONDS_PER_DAY + r;
      DivOfMultiple(d + 1, r);
    }
  }

  /** A calendar month: the key of `Series.dt.to_period("M")`. */
  datatype YearMonth = YearMonth(year: int, month: int)

  /** Chronological order of months: by year, then by month. */
  predicate MonthBefore(a: YearMonth, b: YearMonth) {
    a.year < b.year || (a.year == b.year && a.month < b.month)
  }

  /**
   * The civil (year, month) of a day number: the standard days-to-civil
   * conversion over 400-year eras of 146097 days, with years starting on
   * March 1 internally so that the leap day comes last.
   */
  function CivilMonth(day: int): YearMonth {
    var z := day + 719468;
    var era := z / 146097;
    var dayOfEra := z % 146097;
    var yearOfEra := YearOfEra(dayOfEra);
    var dayOfYear := dayOfEra - YearStartInEra(yearOfEra);
    var shiftedMonth := MonthOfYear(dayOfYear);
    var month := if shiftedMonth < 10 then shiftedMonth + 3 else shiftedMonth - 9;
    var year := yearOfEra + era * 400;
    YearMonth(if month <= 2 then year + 1 else year, month)
  }

  /** The March-based year (0 to 399) of an era in which its day `dayOfEra` falls. */
  function YearOfEra(dayOfEra: int): int {
    (dayOfEra - dayOfEra / 1460 + dayOfEra / 36524 - dayOfEra / 146096) / 365
  }

  /** The days of an era before March 1 of its year `yearOfEra`. */
  function YearStartInEra(yearOfEra: int): int {
    365 * yearOfEra + yearOfEra / 4 - yearOfEra / 100
  }

  /** The days of the March-based year `yearOfEra`: 366 when the February ending it has a leap day. */
  function YearLength(yearOfEra: int): int {
    var next := yearOfEra + 1;
    if next % 4 == 0 && (next % 100 != 0 || next % 400 == 0) then 366 else 365
  }

  /** The month, counted from March as 0, of a day of a March-based year. */
  function MonthOfYear(dayOfYear: int): int {
    (5 * dayOfYear + 2) / 153
  }

  /** The calendar month a timestamp falls in. */
  function MonthOf(ts: int): YearMonth {
    CivilMonth(DayOf(ts))
  }

  /**
   * Every day of an era falls in one of its 400 years, and within that
   * year's length from its March 1.
   */
  lemma YearOfEraBounds(dayOfEra: int)
    requires 0 <= dayOfEra < 146097
    ensures var y := YearOfEra(dayOfEra);
            && 0 <= y < 400
            && YearStartInEra(y) <= dayOfEra < YearStartInEra(y) + YearLength(y)
  {
    var doe := dayOfEra;
    if doe == 146096 {
      assert YearOfEra(doe) == 399 by {
        assert doe / 1460 == 100 && doe / 36524 == 4 && doe / 146096 == 1;
        assert 145999 / 365 == 399;
      }
      assert YearStartInEra(399) == 145731;
      assert YearLength(399) == 366;
    } else {
      // 4 centuries of 36524 days, 25 four-year cycles of 1461 days, 4 years of 365 days
      var c := doe / 36524;
      var e := doe % 36524;
      var f := e / 1461;
      var g := e % 1461;
      assert doe == 36524 * c + 1461 * f + g;
      var h := if g == 1460 then 3 else g / 365;
      YearOfEraDecomposed(c, f, g);
      YearStartDecomposed(c, f, h);
      if f == 24 {
        assert g <= 1459;
      }
    }
  }

  /** Away from an era's last day, the year of a day follows its century, four-year cycle and year. */
  lemma YearOfEraDecomposed(c: int, f: int, g: int)
    requires 0 <= c <= 3 && 0 <= f <= 24 && 0 <= g <= 1460 && 1461 * f + g < 36524
    ensures YearOfEra(36524 * c + 1461 * f + g) == 100 * c + 4 * f + (if g == 1460 then 3 else g / 365)
  {
    var doe := 36524 * c + 1461 * f + g;
    var h := if g == 1460 then 3 else g / 365;
    var b := if 24 * c + f + g >= 1460 then 1 else 0;
    assert doe / 1460 == 25 * c + f + b by {
      assert doe == 1460 * (25 * c + f) + (24 * c + f + g);
    }
    assert doe / 36524 == c && doe / 146096 == 0;
    assert 365 * h <= g - b < 365 * (h + 1);
    assert doe - doe / 1460 + doe / 36524 - doe / 146096 == 365 * (100 * c + 4 * f + h) + (g - b - 365 * h);
  }

  /** The start and length of year `h` of four-year cycle `f` of century `c` of an era. */
  lemma YearStartDecomposed(c: int, f: int, h: int)
    requires 0 <= c <= 3 && 0 <= f <= 24 && 0 <= h <= 3
    ensures YearStartInEra(100 * c + 4 * f + h) == 36524 * c + 1461 * f + 365 * h
    ensures YearLength(100 * c + 4 * f + h) == if h == 3 && (f < 24 || c == 3) then 366 else 365
  {
    var y := 100 * c + 4 * f + h;
    assert y / 4 == 25 * c + f && y / 100 == c;
  }

  /** Each year of an era starts where the one before it ends. */
  lemma YearStartStep(y: int)
    requires 0 <= y < 399
    ensures YearStartInEra(y + 1) == YearStartInEra(y) + YearLength(y)
  {
    var next := y + 1;
    assert next / 4 == y / 4 + (if next % 4 == 0 then 1 else 0);
    assert next / 100 == y / 100 + (if next % 100 == 0 then 1 else 0);
    assert next % 100 == 0 ==> next % 4 == 0;
    assert next % 400 != 0;
  }

  lemma {:induction false} YearStartMonotone(a: int, b: int)
    requires 0 <= a <= b < 400
    ensures YearStartInEra(a) <= YearStartInEra(b)
    decreases b - a
  {
    if a < b {
      YearStartMonotone(a, b - 1);
      YearStartStep(b - 1);
    }
  }

  /** The months since March of year 0 up to the month of `day`, counted from March. */
  function MonthCount(day: int): int {
    var z := day + 719468;
    4800 * (z / 146097) + EraMonthCount(z % 146097)
  }

  /** The months since the start of an era up to the month of its day `dayOfEra`. */
  function EraMonthCount(dayOfEra: int): int
    requires 0 <= dayOfEra < 146097
  {
    var y := YearOfEra(dayOfEra);
    12 * y + MonthOfYear(dayOfEra - YearStartInEra(y))
  }

  lemma CivilMonthFromCount(day: int)
    ensures var n := MonthCount(day) + 2;
            CivilMonth(day) == YearMonth(n / 12, n % 12 + 1)
  {
    var era, dayOfEra := EraSplit(day + 719468);
    var yearOfEra := YearOfEra(dayOfEra);
    YearOfEraBounds(dayOfEra);
    var m := MonthOfYear(dayOfEra - YearStartInEra(yearOfEra));
    MonthNumberSplit(yearOfEra + era * 400, m);
  }

  /** Month `m` counted from March of March-based `year`, as a civil (year, month). */
  lemma MonthNumberSplit(year: int, m: int)
    requires 0 <= m <= 11
    ensures var n := 12 * year + m + 2;
            && n / 12 == (if m < 10 then year else year + 1)
            && n % 12 + 1 == (if m < 10 then m + 3 else m - 9)
  {
  }

  /** Every day falls in a month numbered 1 to 12. */
  lemma CivilMonthRange(day: int)
    ensures 1 <= CivilMonth(day).month <= 12
  {
    CivilMonthFromCount(day);
  }

  /** Within one era a later day never has an earlier (year, day of year). */
  lemma YearOfEraMonotone(doe1: int, doe2: int)
    requires 0 <= doe1 <= doe2 < 146097
    ensures YearOfEra(doe1) <= YearOfEra(doe2)
  {
    var y1, y2 := YearOfEra(doe1), YearOfEra(doe2);
    YearOfEraBounds(doe1);
    YearOfEraBounds(doe2);
    if y2 < y1 {
      YearStartMonotone(y2 + 1, y1);
      YearStartStep(y2);
      assert false;
    }
  }

  lemma EraMonthCountBounds(doe: int)
    requires 0 <= doe < 146097
    ensures 0 <= EraMonthCount(doe) < 4800
  {
    YearOfEraBounds(doe);
  }

  lemma EraMonthCountMonotone(doe1: int, doe2: int)
    requires 0 <= doe1 <= doe2 < 146097
    ensures EraMonthCount(doe1) <= EraMonthCount(doe2)
  {
    var y1, y2 := YearOfEra(doe1), YearOfEra(doe2);
    YearOfEraMonotone(doe1, doe2);
    YearOfEraBounds(doe1);
    YearOfEraBounds(doe2);
    if y1 == y2 {
      assert doe1 - YearStartInEra(y1) <= doe2 - YearStartInEra(y2);
    }
  }

  lemma MonthCountMonotone(d1: int, d2: int)
    requires d1 <= d2
    ensures MonthCount(d1) <= MonthCount(d2)
  {
    var z1, z2 := d1 + 719468, d2 + 719468;
    var era1, doe1 := EraSplit(z1);
    var era2, doe2 := EraSplit(z2);
    EraSplitMonotone(z1, z2);
    EraCountMonotone(era1, doe1, era2, doe2);
  }

  lemma EraSplit(z: int) returns (era: int, dayOfEra: int)
    ensures era == z / 146097 && dayOfEra == z % 146097 && 0 <= dayOfEra < 146097
    ensures MonthCount(z - 719468) == 4800 * era + EraMonthCount(dayOfEra)
  {
    era, dayOfEra := z / 146097, z % 146097;
  }

  lemma EraCountMonotone(era1: int, doe1: int, era2: int, doe2: int)
    requires 0 <= doe1 < 146097 && 0 <= doe2 < 146097
    requires era1 < era2 || (era1 == era2 && doe1 <= doe2)
    ensures 4800 * era1 + EraMonthCount(doe1) <= 4800 * era2 + EraMonthCount(doe2)
  {
    EraMonthCountBounds(doe1);
    EraMonthCountBounds(doe2);
    if era1 == era2 {
      EraMonthCountMonotone(doe1, doe2);
    }
  }

  /** A later day lies in a later era, or in the same era at a later day of it. */
  lemma EraSplitMonotone(z1: int, z2: int)
    requires z1 <= z2
    ensures z1 / 146097 < z2 / 146097 || (z1 / 146097 == z2 / 146097 && z1 % 146097 <= z2 % 146097)
  {
  }

  /** A later day never falls in an earlier month. */
  lemma CivilMonthMonotone(d1: int, d2: int)
    requires d1 <= d2
    ensures !MonthBefore(CivilMonth(d2), CivilMonth(d1))
  {
    MonthCountMonotone(d1, d2);
    CivilMonthFromCount(d1);
    CivilMonthFromCount(d2);
  }

  /** A later moment never falls in an earlier month. */
  lemma MonthOfMonotone(ts1: int, ts2: int)
    requires ts1 <= ts2
    ensures !MonthBefore(MonthOf(ts2), MonthOf(ts1))
  {
    assert DayOf(ts1) <= DayOf(ts2);
    CivilMonthMonotone(DayOf(ts1), DayOf(ts2));
  }

  /** Day 18658, 2021-01-31, is in January 2021. */
  lemma LastDayOfJanuaryExample()
    ensures CivilMonth(18658) == YearMonth(2021, 1)
  {
    assert 738126 / 146097 == 5 && 738126 % 146097 == 7641;
    assert 7641 / 1460 == 5 && 7641 / 36524 == 0 && 7641 / 146096 == 0;
    assert 7636 / 365 == 20 && 20 / 4 == 5 && 20 / 100 == 0;
    assert (5 * 336 + 2) / 153 == 10;
  }

  /** Day 18659, 2021-02-01, is in February 2021. */
  lemma FirstDayOfFebruaryExample()
    ensures CivilMonth(18659) == YearMonth(2021, 2)
  {
    assert 738127 / 146097 == 5 && 738127 % 146097 == 7642;
    assert 7642 / 1460 == 5 && 7642 / 36524 == 0 && 7642 / 146096 == 0;
    assert 7637 / 365 == 20 && 20 / 4 == 5 && 20 / 100 == 0;
    assert (5 * 337 + 2) / 153 == 11;
  }

  /** Day 18321, 2020-02-29, is in February of the leap year 2020. */
  lemma LeapDayExample()
    ensures CivilMonth(18321) == YearMonth(2020, 2)
  {
    assert 737789 / 146097 == 5 && 737789 % 146097 == 7304;
    assert 7304 / 1460 == 5 && 7304 / 36524 == 0 && 7304 / 146096 == 0;
    assert 7299 / 365 == 19 && 19 / 4 == 4 && 19 / 100 == 0;
    assert (5 * 365 + 2) / 153 == 11;
  }

  /** Day 17532, 2018-01-01, is in January 2018, the day before in December 2017. */
  lemma NewYearExample()
    ensures CivilMonth(17532) == YearMonth(2018, 1)
  {
    assert 737000 / 146097 == 5 && 737000 % 146097 == 6515;
    assert 6515 / 1460 == 4 && 6515 / 36524 == 0 && 6515 / 146096 == 0;
    assert 6511 / 365 == 17 && 17 / 4 == 4 && 17 / 100 == 0;
    assert (5 * 306 + 2) / 153 == 10;
  }

  lemma NewYearsEveExample()
    ensures CivilMonth(17531) == YearMonth(2017, 12)
  {
    assert 736999 / 146097 == 5 && 736999 % 146097 == 6514;
    assert 6514 / 1460 == 4 && 6514 / 36524 == 0 && 6514 / 146096 == 0;
    assert 6510 / 365 == 17 && 17 / 4 == 4 && 17 / 100 == 0;
    assert (5 * 305 + 2) / 153 == 9;
  }

  /** 2021-01-01 00:00:00 (day 18628) was a Friday. */
  lemma WeekdayExample()
    ensures Weekday(1609459200) == 4
  {
  }
}
