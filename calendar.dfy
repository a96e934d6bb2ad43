/**
 * Calendar fields of a UTC instant in the proleptic Gregorian calendar, as
 * Spark's hour, dayofmonth, weekofyear, month, year and dayofweek give them.
 * Days are numbered from 1970-01-01 (day 0); negative numbers are earlier.
 */
module Calendar {

  const MillisPerHour: int := 3_600_000
  const MillisPerDay: int := 86_400_000

  predicate IsLeapYear(y: int) {
    y % 4 == 0 && (y % 100 != 0 || y % 400 == 0)
  }

  function DaysInYear(y: int): int {
    if IsLeapYear(y) then 366 else 365
  }

  function DaysInMonth(y: int, m: int): int
    requires 1 <= m <= 12
  {
    if m == 2 then (if IsLeapYear(y) then 29 else 28)
    else if m == 4 || m == 6 || m == 9 || m == 11 then 30
    else 31
  }

  predicate ValidDate(y: int, m: int, d: int) {
    1 <= m <= 12 && 1 <= d <= DaysInMonth(y, m)
  }

  /** Days in the months of year `y` that precede month `m`. */
  function DaysBeforeMonth(y: int, m: int): int
    requires 1 <= m <= 12
  {
    if m == 1 then 0 else DaysBeforeMonth(y, m - 1) + DaysInMonth(y, m - 1)
  }

  /**
   * Day number of 1 January of year `y`: 365 days a year plus one per leap
   * year since year 1, shifted so that 1970 starts at day 0.
   */
  function DaysBeforeYear(y: int): int {
    var p := y - 1;
    365 * p + p / 4 - p / 100 + p / 400 - 719_162
  }

  /** The reference numbering of calendar dates. */
  function DayNumber(y: int, m: int, d: int): int
    requires 1 <= m <= 12
  {
    DaysBeforeYear(y) + DaysBeforeMonth(y, m) + d - 1
  }

  datatype Date = Date(year: int, month: int, day: int)

  /**
   * The civil date of a day number, by the era arithmetic of H. Hinnant's
   * civil_from_days: years are counted from 1 March so that the leap day
   * falls last, in 400-year eras of 146097 days.
   */
  function CivilFromDays(z: int): Date {
    var shifted := z + 719_468;
    DateOfEra(shifted / 146_097, shifted % 146_097)
  }

  /** The date on day `doe` of 400-year era `era`, whose first day is 1 March of year 400 * era. */
  function DateOfEra(era: int, doe: int): Date
    requires 0 <= doe < 146_097
  {
    var yoe := YearOfEra(doe);
    MarchYearDate(400 * era + yoe, doe - DaysBeforeYearOfEra(yoe))
  }

  /**
   * The date on day `doy` of the year that starts on 1 March of `y`: month
   * index `mp` counts from March (0) to February (11).
   */
  function MarchYearDate(y: int, doy: int): Date {
    var mp := (5 * doy + 2) / 153;
    var d := doy - (153 * mp + 2) / 5 + 1;
    var m := if mp < 10 then mp + 3 else mp - 9;
    Date(y + (if m <= 2 then 1 else 0), m, d)
  }

  /**
   * The March-based year of day `doe` of an era: whole centuries of 36524
   * days (the last century of the era has one day more), then four-year
   * blocks of 1461 days, then years of 365 days; the one extra day of a
   * block or of the era belongs to its last year.
   */
  function YearOfEra(doe: int): int
    requires 0 <= doe < 146_097
  {
    var century := if doe / 36_524 < 3 then doe / 36_524 else 3;
    var doc := doe - 36_524 * century;
    var block := doc / 1461;
    var dob := doc - 1461 * block;
    var year := if dob / 365 < 3 then dob / 365 else 3;
    100 * century + 4 * block + year
  }

  /** Days of an era before its March-based year `n`. */
  function DaysBeforeYearOfEra(n: int): int {
    365 * n + n / 4 - n / 100 + n / 400
  }

  lemma YearOfEraBounds(doe: int)
    requires 0 <= doe < 146_097
    ensures 0 <= YearOfEra(doe) < 400
    ensures DaysBeforeYearOfEra(YearOfEra(doe)) <= doe < DaysBeforeYearOfEra(YearOfEra(doe) + 1)
  {
    var century := if doe / 36_524 < 3 then doe / 36_524 else 3;
    var doc := doe - 36_524 * century;
    var block := doc / 1461;
    var dob := doc - 1461 * block;
    var year := if dob / 365 < 3 then dob / 365 else 3;
    assert 0 <= block <= 24 && 0 <= dob <= 1460;
    assert block == 24 && century < 3 ==> dob < 1460;
    assert 365 * year <= dob;
    assert year < 3 ==> dob < 365 * (year + 1);
    YearStart(century, block, year);
    YearEnd(century, block, year);
  }

  /** Day of the era on which March-based year 100 * century + 4 * block + year starts. */
  lemma YearStart(century: int, block: int, year: int)
    requires 0 <= century <= 3 && 0 <= block <= 24 && 0 <= year <= 3
    ensures DaysBeforeYearOfEra(100 * century + 4 * block + year) == 36_524 * century + 1461 * block + 365 * year
  {
    var n := 100 * century + 4 * block + year;
    assert n / 4 == 25 * century + block;
    assert n / 100 == century;
    assert n / 400 == 0;
  }

  /** Day of the era on which the year after 100 * century + 4 * block + year starts. */
  lemma YearEnd(century: int, block: int, year: int)
    requires 0 <= century <= 3 && 0 <= block <= 24 && 0 <= year <= 3
    ensures DaysBeforeYearOfEra(100 * century + 4 * block + year + 1)
         == if year < 3 then 36_524 * century + 1461 * block + 365 * (year + 1)
            else if block < 24 then 36_524 * century + 1461 * (block + 1)
            else 36_524 * (century + 1) + (century + 1) / 4
  {
    if year < 3 {
      YearStart(century, block, year + 1);
    } else if block < 24 {
      YearStart(century, block + 1, 0);
    } else {
      var n := 100 * (century + 1);
      assert n / 4 == 25 * (century + 1);
      assert n / 100 == century + 1;
      assert n / 400 == (century + 1) / 4;
    }
  }

  /**
   * The month of day `doy` of a March-based year: month index `mp` counts
   * from March (0) to February (11) and starts on day (153 * mp + 2) / 5.
   */
  lemma MonthOfYearBounds(doy: int)
    requires 0 <= doy < 366
    ensures 0 <= (5 * doy + 2) / 153 <= 11
    ensures (153 * ((5 * doy + 2) / 153) + 2) / 5 <= doy < (153 * ((5 * doy + 2) / 153 + 1) + 2) / 5
  {
  }

  /** The cumulative month starts of a year, with February's length depending on leap years. */
  lemma MonthStarts(y: int)
    ensures var leap := if IsLeapYear(y) then 1 else 0;
      && DaysBeforeMonth(y, 1) == 0 && DaysBeforeMonth(y, 2) == 31
      && DaysBeforeMonth(y, 3) == 59 + leap && DaysBeforeMonth(y, 4) == 90 + leap
      && DaysBeforeMonth(y, 5) == 120 + leap && DaysBeforeMonth(y, 6) == 151 + leap
      && DaysBeforeMonth(y, 7) == 181 + leap && DaysBeforeMonth(y, 8) == 212 + leap
      && DaysBeforeMonth(y, 9) == 243 + leap && DaysBeforeMonth(y, 10) == 273 + leap
      && DaysBeforeMonth(y, 11) == 304 + leap && DaysBeforeMonth(y, 12) == 334 + leap
      && DaysBeforeMonth(y, 12) + DaysInMonth(y, 12) == DaysInYear(y)
  {
  }

  /** Consecutive years follow each other without gap or overlap. */
  lemma DaysBeforeYearStep(y: int)
    ensures DaysBeforeYear(y + 1) == DaysBeforeYear(y) + DaysInYear(y)
  {
    StepDiv4(y - 1);
    StepDiv100(y - 1);
    StepDiv400(y - 1);
  }

  lemma StepDiv4(p: int)
    ensures (p + 1) / 4 == p / 4 + (if (p + 1) % 4 == 0 then 1 else 0)
  {
  }

  lemma StepDiv100(p: int)
    ensures (p + 1) / 100 == p / 100 + (if (p + 1) % 100 == 0 then 1 else 0)
  {
  }

  lemma StepDiv400(p: int)
    ensures (p + 1) / 400 == p / 400 + (if (p + 1) % 400 == 0 then 1 else 0)
  {
  }

  lemma {:induction false} DaysBeforeYearMonotone(a: int, b: int)
    requires a <= b
    ensures DaysBeforeYear(a) + 365 * (b - a) <= DaysBeforeYear(b)
    decreases b - a
  {
    if a < b {
      DaysBeforeYearStep(a);
      DaysBeforeYearMonotone(a + 1, b);
    }
  }

  /** A valid date's day number lies within its year. */
  lemma DayNumberWithinYear(y: int, m: int, d: int)
    requires ValidDate(y, m, d)
    ensures DaysBeforeYear(y) <= DayNumber(y, m, d) < DaysBeforeYear(y + 1)
    ensures DaysBeforeMonth(y, m) <= DayNumber(y, m, d) - DaysBeforeYear(y) < DaysBeforeMonth(y, m) + DaysInMonth(y, m)
  {
    MonthStarts(y);
    DaysBeforeYearStep(y);
  }

  /** Distinct valid dates have distinct day numbers. */
  lemma DayNumberInjective(y1: int, m1: int, d1: int, y2: int, m2: int, d2: int)
    requires ValidDate(y1, m1, d1) && ValidDate(y2, m2, d2)
    requires DayNumber(y1, m1, d1) == DayNumber(y2, m2, d2)
    ensures y1 == y2 && m1 == m2 && d1 == d2
  {
    DayNumberWithinYear(y1, m1, d1);
    DayNumberWithinYear(y2, m2, d2);
    if y1 < y2 {
      DaysBeforeYearMonotone(y1 + 1, y2);
    } else if y2 < y1 {
      DaysBeforeYearMonotone(y2 + 1, y1);
    }
    assert y1 == y2;
    MonthStarts(y1);
  }

  /** Shifting by whole 400-year eras. */
  lemma EraShift(era: int, k: int)
    ensures (400 * era + k) / 4 == 100 * era + k / 4
    ensures (400 * era + k) / 100 == 4 * era + k / 100
    ensures (400 * era + k) / 400 == era + k / 400
    ensures IsLeapYear(400 * era + k) == IsLeapYear(k)
  {
  }

  /** 1 March of year 400 * era + yoe, counted from the era arithmetic. */
  lemma MarchFirst(era: int, yoe: int)
    requires 0 <= yoe < 400
    ensures DayNumber(400 * era + yoe, 3, 1) == 146_097 * era + DaysBeforeYearOfEra(yoe) - 719_468
  {
    var y := 400 * era + yoe;
    EraShift(era, yoe - 1);
    EraShift(era, yoe);
    MonthStarts(y);
    var leap := if IsLeapYear(y) then 1 else 0;
    assert DayNumber(y, 3, 1) == DaysBeforeYear(y) + 59 + leap;
    assert DaysBeforeYear(y) == 146_097 * era + 365 * (yoe - 1) + (yoe - 1) / 4 - (yoe - 1) / 100 + (yoe - 1) / 400 - 719_162;
    LeapCount(yoe);
  }

  /** The leap years of an era before year `yoe`, counted two ways. */
  lemma LeapCount(yoe: int)
    requires 0 <= yoe < 400
    ensures (yoe - 1) / 4 - (yoe - 1) / 100 + (yoe - 1) / 400 + (if IsLeapYear(yoe) then 1 else 0)
         == yoe / 4 - yoe / 100 + yoe / 400
  {
    StepDiv4(yoe - 1);
    StepDiv100(yoe - 1);
    StepDiv400(yoe - 1);
  }

  /** A March-based year of an era is as long as the calendar year in which its February falls. */
  lemma YearOfEraLength(n: int)
    requires 0 <= n < 400
    ensures DaysBeforeYearOfEra(n + 1) - DaysBeforeYearOfEra(n) == DaysInYear(n + 1)
  {
    StepDiv4(n);
    StepDiv100(n);
    StepDiv400(n);
  }

  /** The first day of each month of a March-based year, with index 0 for March. */
  lemma MarchMonthStarts(mp: int)
    requires 0 <= mp <= 11
    ensures (153 * mp + 2) / 5 == [0, 31, 61, 92, 122, 153, 184, 214, 245, 275, 306, 337][mp]
    ensures (153 * (mp + 1) + 2) / 5 == [31, 61, 92, 122, 153, 184, 214, 245, 275, 306, 337, 367][mp]
  {
  }

  /** Day `doy` of the March-based year that starts on 1 March of `y` is dated correctly. */
  lemma MarchYearDateCorrect(y: int, doy: int)
    requires 0 <= doy < DaysInYear(y + 1)
    ensures var date := MarchYearDate(y, doy);
      ValidDate(date.year, date.month, date.day)
      && DayNumber(date.year, date.month, date.day) == DayNumber(y, 3, 1) + doy
  {
    MonthOfYearBounds(doy);
    var mp := (5 * doy + 2) / 153;
    MarchMonthStarts(mp);
    MonthStarts(y);
    MonthStarts(y + 1);
    DaysBeforeYearStep(y);
  }

  lemma DateOfEraCorrect(era: int, doe: int)
    requires 0 <= doe < 146_097
    ensures var date := DateOfEra(era, doe);
      ValidDate(date.year, date.month, date.day)
      && DayNumber(date.year, date.month, date.day) == 146_097 * era + doe - 719_468
  {
    var yoe := YearOfEra(doe);
    var y := 400 * era + yoe;
    var doy := doe - DaysBeforeYearOfEra(yoe);
    YearOfEraBounds(doe);
    assert doy < DaysInYear(y + 1) by {
      YearOfEraLength(yoe);
      EraShift(era, yoe + 1);
      assert y + 1 == 400 * era + (yoe + 1);
    }
    MarchFirst(era, yoe);
    MarchYearDateCorrect(y, doy);
  }

  /**
   * CivilFromDays is correct: it yields a valid date, and that date's
   * reference day number is the day it was given.
   */
  lemma CivilFromDaysCorrect(z: int)
    ensures var date := CivilFromDays(z);
      ValidDate(date.year, date.month, date.day) && DayNumber(date.year, date.month, date.day) == z
  {
    var shifted := z + 719_468;
    DateOfEraCorrect(shifted / 146_097, shifted % 146_097);
  }

  /** Every valid date is recovered from its day number. */
  lemma CivilFromDayNumber(y: int, m: int, d: int)
    requires ValidDate(y, m, d)
    ensures CivilFromDays(DayNumber(y, m, d)) == Date(y, m, d)
  {
    var date := CivilFromDays(DayNumber(y, m, d));
    CivilFromDaysCorrect(DayNumber(y, m, d));
    DayNumberInjective(date.year, date.month, date.day, y, m, d);
  }

  /** ISO 8601 day of the week, 1 = Monday ... 7 = Sunday; 1970-01-01 was a Thursday. */
  function IsoWeekday(z: int): int {
    (z + 3) % 7 + 1
  }

  /** Spark's dayofweek: 1 = Sunday, 2 = Monday ... 7 = Saturday. */
  function SparkDayOfWeek(z: int): int {
    (z + 4) % 7 + 1
  }

  /**
   * dayofweek is the ISO weekday moved so that Sunday comes first, and it
   * advances by one each day, wrapping from Saturday to Sunday.
   */
  lemma SparkDayOfWeekConvention(z: int)
    ensures 1 <= SparkDayOfWeek(z) <= 7
    ensures SparkDayOfWeek(z) == IsoWeekday(z) % 7 + 1
    ensures SparkDayOfWeek(z + 1) == SparkDayOfWeek(z) % 7 + 1
  {
  }

  /** The Monday on or before day `d`. */
  function MondayOnOrBefore(d: int): int {
    d - (IsoWeekday(d) - 1)
  }

  lemma MondayOnOrBeforeFacts(d: int)
    ensures IsoWeekday(MondayOnOrBefore(d)) == 1
    ensures d - 6 <= MondayOnOrBefore(d) <= d
  {
  }

  /** Two Mondays found from days 365 or 366 apart are 52 or 53 weeks apart. */
  lemma MondaysAYearApart(a: int, b: int)
    requires b - a == 365 || b - a == 366
    ensures MondayOnOrBefore(b) - MondayOnOrBefore(a) == 364 || MondayOnOrBefore(b) - MondayOnOrBefore(a) == 371
  {
    MondayOnOrBeforeFacts(a);
    MondayOnOrBeforeFacts(b);
  }

  /** The Monday on which ISO week 1 of year `y` starts: the Monday of the week holding 4 January. */
  function IsoWeekOneStart(y: int): int {
    MondayOnOrBefore(DayNumber(y, 1, 4))
  }

  /**
   * ISO 8601 week 1: it starts on a Monday, at least four of its seven
   * days fall in year `y`, and the Monday-to-Sunday week before it has at
   * most three days in `y`.
   */
  lemma IsoWeekOneRule(y: int)
    ensures IsoWeekday(IsoWeekOneStart(y)) == 1
    ensures DayNumber(y, 1, 1) <= IsoWeekOneStart(y) + 3
    ensures IsoWeekOneStart(y) - 7 + 3 < DayNumber(y, 1, 1)
  {
    assert DayNumber(y, 1, 4) == DayNumber(y, 1, 1) + 3;
    MondayOnOrBeforeFacts(DayNumber(y, 1, 4));
  }

  /** An ISO week-numbering year has 52 or 53 weeks. */
  lemma IsoYearLength(y: int)
    ensures IsoWeekOneStart(y + 1) - IsoWeekOneStart(y) == 364
         || IsoWeekOneStart(y + 1) - IsoWeekOneStart(y) == 371
  {
    DaysBeforeYearStep(y);
    assert DayNumber(y + 1, 1, 4) - DayNumber(y, 1, 4) == DaysInYear(y);
    MondaysAYearApart(DayNumber(y, 1, 4), DayNumber(y + 1, 1, 4));
  }

  /** The ISO week-numbering year of day `z`: its calendar year, or a neighbour near the year's ends. */
  function IsoWeekYear(z: int): int {
    IsoWeekYearFrom(z, CivilFromDays(z).year)
  }

  /** The ISO week-numbering year of day `z` of calendar year `y`. */
  function IsoWeekYearFrom(z: int, y: int): int {
    if z >= IsoWeekOneStart(y + 1) then y + 1
    else if z < IsoWeekOneStart(y) then y - 1
    else y
  }

  /** Spark's weekofyear: the ISO 8601 week number of day `z`. */
  function IsoWeek(z: int): int {
    (z - IsoWeekOneStart(IsoWeekYear(z))) / 7 + 1
  }

  /** Week 1 of year `k` starts within three days of 1 January of `k`. */
  lemma IsoWeekOneNearNewYear(k: int)
    ensures DayNumber(k, 1, 1) - 3 <= IsoWeekOneStart(k) <= DayNumber(k, 1, 1) + 3
    ensures DayNumber(k + 1, 1, 1) - DayNumber(k, 1, 1) >= 365
  {
    IsoWeekOneRule(k);
    DaysBeforeYearStep(k);
  }

  lemma IsoWeekYearFromBounds(z: int, y: int)
    requires DayNumber(y, 1, 1) <= z < DayNumber(y + 1, 1, 1)
    ensures IsoWeekOneStart(IsoWeekYearFrom(z, y)) <= z < IsoWeekOneStart(IsoWeekYearFrom(z, y) + 1)
  {
    IsoWeekOneNearNewYear(y - 1);
    IsoWeekOneNearNewYear(y);
    IsoWeekOneNearNewYear(y + 1);
    IsoWeekOneNearNewYear(y + 2);
  }

  /** Day `z` lies in ISO year IsoWeekYear(z): on or after its week 1 and before the next year's. */
  lemma IsoWeekYearContains(z: int)
    ensures IsoWeekOneStart(IsoWeekYear(z)) <= z < IsoWeekOneStart(IsoWeekYear(z) + 1)
  {
    CivilYearContains(z);
    IsoWeekYearFromBounds(z, CivilFromDays(z).year);
  }

  /** Day `z` lies within the calendar year CivilFromDays gives it. */
  lemma CivilYearContains(z: int)
    ensures DayNumber(CivilFromDays(z).year, 1, 1) <= z < DayNumber(CivilFromDays(z).year + 1, 1, 1)
  {
    var date := CivilFromDays(z);
    CivilFromDaysCorrect(z);
    DayNumberWithinYear(date.year, date.month, date.day);
  }

  /** Day `z` lies in ISO year IsoWeekYear(z), so its week number is between 1 and 53. */
  lemma IsoWeekBounds(z: int)
    ensures IsoWeekOneStart(IsoWeekYear(z)) <= z < IsoWeekOneStart(IsoWeekYear(z) + 1)
    ensures 1 <= IsoWeek(z) <= 53
  {
    IsoWeekYearContains(z);
    var iy := IsoWeekYear(z);
    IsoYearLength(iy);
    WeekWindow(z, IsoWeekOneStart(iy), IsoWeekOneStart(iy + 1));
  }

  lemma WeekWindow(z: int, start: int, next: int)
    requires start <= z < next && next - start <= 371
    ensures 1 <= (z - start) / 7 + 1 <= 53
  {
  }

  /** The calendar fields of a UTC instant, as the time table stores them. */
  datatype TimeFields = TimeFields(hour: int, day: int, week: int, month: int, year: int, weekday: int)

  /**
   * hour, dayofmonth, weekofyear, month, year and dayofweek of the UTC
   * instant `tsMillis` milliseconds after 1970-01-01T00:00:00Z.  The fields
   * are in range, name a valid date, and locate the instant: it falls within
   * the named hour of the named day, whose ISO week and day of the week are
   * the week and weekday fields.
   */
  function DeriveTimeFields(tsMillis: int): (f: TimeFields)
    ensures 0 <= f.hour <= 23 && 1 <= f.day <= 31 && 1 <= f.month <= 12
    ensures 1 <= f.week <= 53 && 1 <= f.weekday <= 7
    ensures ValidDate(f.year, f.month, f.day)
    ensures var start := DayNumber(f.year, f.month, f.day) * MillisPerDay + f.hour * MillisPerHour;
      start <= tsMillis < start + MillisPerHour
    ensures f.week == IsoWeek(DayNumber(f.year, f.month, f.day))
    ensures f.weekday == SparkDayOfWeek(DayNumber(f.year, f.month, f.day))
  {
    var z := tsMillis / MillisPerDay;
    var date := CivilFromDays(z);
    CivilFromDaysCorrect(z);
    IsoWeekBounds(z);
    TimeFields(tsMillis % MillisPerDay / MillisPerHour, date.day, IsoWeek(z), date.month, date.year, SparkDayOfWeek(z))
  }

  /** 978307200000 ms is 2001-01-01T00:00:00Z, a Monday in ISO week 1. */
  lemma NewYear2001()
    ensures DeriveTimeFields(978_307_200_000) == TimeFields(0, 1, 1, 1, 2001, 2)
  {
    assert 978_307_200_000 / MillisPerDay == 11_323 && 978_307_200_000 % MillisPerDay == 0;
    NewYear2001Date();
    NewYear2001Week();
  }

  lemma NewYear2001Date()
    ensures CivilFromDays(11_323) == Date(2001, 1, 1)
  {
  }

  lemma NewYear2001Week()
    ensures IsoWeekOneStart(2001) == 11_323 && IsoWeekOneStart(2002) == 11_687
  {
    assert DayNumber(2001, 1, 4) == 11_326;
    assert DayNumber(2002, 1, 4) == 11_691;
  }
}
