/** The proleptic Gregorian calendar that `time.Time` presents in a zone with a fixed offset.
    Local days are numbered from 0 on Monday, 1 January of year 1; the numbering runs
    over all integers, as `time.Date` does. */
module Calendar {

  const MINUTES_PER_DAY := 1440

  datatype Civil = Civil(year: int, month: int, day: int)

  predicate Leap(y: int) {
    y % 4 == 0 && (y % 100 != 0 || y % 400 == 0)
  }

  function DaysBeforeYear(y: int): int {
    var n := y - 1;
    365 * n + n / 4 - n / 100 + n / 400
  }

  function DaysBeforeMonth(y: int, m: int): int
    requires 1 <= m <= 12
  {
    [0, 31, 59, 90, 120, 151, 181, 212, 243, 273, 304, 334][m - 1]
    + (if m > 2 && Leap(y) then 1 else 0)
  }

  function DaysInMonth(y: int, m: int): int
    requires 1 <= m <= 12
  {
    if m == 2 then (if Leap(y) then 29 else 28)
    else if m in {4, 6, 9, 11} then 30
    else 31
  }

  /** The day that `time.Date(y, m, d, ...)` lands on, with its normalisation of an
      out-of-range month or day. */
  function DayNumber(y: int, m: int, d: int): int {
    var year := y + (m - 1) / 12;
    DaysBeforeYear(year) + DaysBeforeMonth(year, (m - 1) % 12 + 1) + d - 1
  }

  /** The year a day falls in: the average-length estimate is off by at most one. */
  function YearOf(day: int): (y: int)
    ensures DaysBeforeYear(y) <= day < DaysBeforeYear(y + 1)
  {
    var guess := (400 * day) / 146097 + 1;
    if day < DaysBeforeYear(guess) then guess - 1
    else if day < DaysBeforeYear(guess + 1) then guess
    else guess + 1
  }

  function MonthInYear(y: int, yearDay: int): (m: int)
    requires 0 <= yearDay
    ensures 1 <= m <= 12 && DaysBeforeMonth(y, m) <= yearDay
    ensures m < 12 ==> yearDay < DaysBeforeMonth(y, m + 1)
  {
    MonthFrom(y, yearDay, 12)
  }

  function MonthFrom(y: int, yearDay: int, m: int): (r: int)
    requires 0 <= yearDay && 1 <= m <= 12
    requires m < 12 ==> yearDay < DaysBeforeMonth(y, m + 1)
    ensures 1 <= r <= 12 && DaysBeforeMonth(y, r) <= yearDay
    ensures r < 12 ==> yearDay < DaysBeforeMonth(y, r + 1)
    decreases m
  {
    if m == 1 || DaysBeforeMonth(y, m) <= yearDay then m else MonthFrom(y, yearDay, m - 1)
  }

  function CivilOf(day: int): Civil {
    var y := YearOf(day);
    var yearDay := day - DaysBeforeYear(y);
    var m := MonthInYear(y, yearDay);
    Civil(y, m, yearDay - DaysBeforeMonth(y, m) + 1)
  }

  function MonthOf(day: int): (m: int)
    ensures 1 <= m <= 12
  {
    CivilOf(day).month
  }

  /** Sunday is 0; day 0 was a Monday. */
  function WeekdayOf(day: int): int {
    (day + 1) % 7
  }

  /** Weekdays follow one another, and after Saturday comes Sunday. */
  lemma WeekdaysCycle(day: int)
    ensures 0 <= WeekdayOf(day) <= 6 && WeekdayOf(day + 1) == (WeekdayOf(day) + 1) % 7
    ensures WeekdayOf(0) == 1
  {
  }

  /** The numbering agrees with the Unix epoch, a Thursday, and with the leap day of 2000, a Tuesday. */
  lemma Anchors()
    ensures DayNumber(1970, 1, 1) == 719162 && WeekdayOf(719162) == 4
    ensures DayNumber(2000, 2, 29) == 730178 && DayNumber(2000, 3, 1) == 730179 && WeekdayOf(730178) == 2
  {
    assert DaysBeforeYear(1970) == 719162 && DaysBeforeYear(2000) == 730119;
  }

  /** `time.Date` undoes the decomposition of a day into year, month and day. */
  lemma CivilRoundTrip(day: int)
    ensures var c := CivilOf(day);
            DayNumber(c.year, c.month, c.day) == day && 1 <= c.day <= DaysInMonth(c.year, c.month)
  {
    hide YearOf, MonthInYear;
    var c := CivilOf(day);
    YearLength(c.year);
    MonthLength(c.year, c.month);
    assert (c.month - 1) / 12 == 0 && (c.month - 1) % 12 == c.month - 1;
    hide DaysBeforeYear, DaysBeforeMonth, DaysInMonth;
  }

  /** Every date of the calendar is the date of its day. */
  lemma DateRoundTrip(y: int, m: int, d: int)
    requires 1 <= m <= 12 && 1 <= d <= DaysInMonth(y, m)
    ensures CivilOf(DayNumber(y, m, d)) == Civil(y, m, d)
  {
    hide YearOf, MonthInYear;
    var day := DayNumber(y, m, d);
    assert (m - 1) / 12 == 0 && (m - 1) % 12 == m - 1;
    YearLength(y);
    MonthLength(y, m);
    WithinYear(y, m, d);
    YearIsUnique(day, y);
    MonthIsUnique(y, day - DaysBeforeYear(y), m);
  }

  lemma WithinYear(y: int, m: int, d: int)
    requires 1 <= m <= 12 && 1 <= d <= DaysInMonth(y, m)
    ensures 0 <= DaysBeforeMonth(y, m) + d - 1 < 365 + (if Leap(y) then 1 else 0)
  {
  }

  lemma MonthLength(y: int, m: int)
    requires 1 <= m <= 12
    ensures (if m == 12 then 365 + (if Leap(y) then 1 else 0) else DaysBeforeMonth(y, m + 1))
         == DaysBeforeMonth(y, m) + DaysInMonth(y, m)
  {
  }

  lemma YearLength(y: int)
    ensures DaysBeforeYear(y + 1) - DaysBeforeYear(y) == (if Leap(y) then 366 else 365)
  {
    QuotientStep(y, 4);
    QuotientStep(y, 100);
    QuotientStep(y, 400);
    NestedMultiples(y);
  }

  lemma QuotientStep(y: int, k: int)
    requires k == 4 || k == 100 || k == 400
    ensures y / k == (y - 1) / k + (if y % k == 0 then 1 else 0)
  {
    if k == 4 {
      assert y / 4 == (y - 1) / 4 + (if y % 4 == 0 then 1 else 0);
    } else if k == 100 {
      assert y / 100 == (y - 1) / 100 + (if y % 100 == 0 then 1 else 0);
    }
  }

  lemma NestedMultiples(y: int)
    ensures y % 400 == 0 ==> y % 100 == 0
    ensures y % 100 == 0 ==> y % 4 == 0
  {
  }

  lemma FirstOfNextMonth(y: int, m: int)
    requires 1 <= m <= 12
    ensures DayNumber(y, m + 1, 1)
         == if m == 12 then DaysBeforeYear(y + 1) else DaysBeforeYear(y) + DaysBeforeMonth(y, m + 1)
  {
    if m == 12 {
      assert DaysBeforeMonth(y + 1, 1) == 0;
    } else {
      assert m / 12 == 0 && m % 12 == m;
    }
  }

  lemma YearIsUnique(day: int, y: int)
    requires DaysBeforeYear(y) <= day < DaysBeforeYear(y + 1)
    ensures YearOf(day) == y
  {
    var z := YearOf(day);
    if z < y {
      YearsInOrder(z + 1, y);
    } else if y < z {
      YearsInOrder(y + 1, z);
    }
  }

  lemma YearsInOrder(y: int, z: int)
    requires y <= z
    ensures DaysBeforeYear(y) <= DaysBeforeYear(z)
  {
  }

  /** Every day from `day` up to the first of the next month is in the same month. */
  lemma MonthRunsToItsEnd(day: int, other: int)
    requires var c := CivilOf(day); day <= other < DayNumber(c.year, c.month + 1, 1)
    ensures MonthOf(other) == MonthOf(day)
  {
    hide YearOf, MonthInYear, DayNumber;
    var c := CivilOf(day);
    YearLength(c.year);
    FirstOfNextMonth(c.year, c.month);
    YearIsUnique(other, c.year);
    MonthIsUnique(c.year, other - DaysBeforeYear(c.year), c.month);
  }

  lemma MonthIsUnique(y: int, yearDay: int, m: int)
    requires 0 <= yearDay && 1 <= m <= 12 && DaysBeforeMonth(y, m) <= yearDay
    requires m < 12 ==> yearDay < DaysBeforeMonth(y, m + 1)
    ensures MonthInYear(y, yearDay) == m
  {
    var n := MonthInYear(y, yearDay);
    if n < m {
      MonthsInOrder(y, n + 1, m);
    } else if m < n {
      MonthsInOrder(y, m + 1, n);
    }
  }

  lemma MonthsInOrder(y: int, m: int, n: int)
    requires 1 <= m <= n <= 12
    ensures DaysBeforeMonth(y, m) <= DaysBeforeMonth(y, n)
  {
  }

  lemma NextMonthIsLater(day: int)
    ensures var c := CivilOf(day); day < DayNumber(c.year, c.month + 1, 1)
  {
    var c := CivilOf(day);
    FirstOfNextMonth(c.year, c.month);
  }

  /** The day that `AddDate(5, 0, 0)` lands on. */
  function FiveYearsOn(day: int): (later: int)
    ensures day + 1824 <= later
  {
    var c := CivilOf(day);
    FiveYearsIsLong(day);
    DayNumber(c.year + 5, c.month, c.day)
  }

  /** `AddDate(5, 0, 0)` moves at least 1824 days forward. */
  lemma FiveYearsIsLong(day: int)
    ensures var c := CivilOf(day); day + 1824 <= DayNumber(c.year + 5, c.month, c.day)
  {
    var c := CivilOf(day);
    CivilRoundTrip(day);
    assert (c.month - 1) / 12 == 0 && (c.month - 1) % 12 == c.month - 1;
  }

  /** `AddDate(5, 0, 0)` keeps month and day, except that 29 February becomes 1 March in a common year. */
  lemma FiveYearsLands(day: int)
    ensures var c := CivilOf(day);
            CivilOf(FiveYearsOn(day)) ==
              if c.month == 2 && c.day == 29 && !Leap(c.year + 5) then Civil(c.year + 5, 3, 1)
              else Civil(c.year + 5, c.month, c.day)
  {
    hide CivilOf, DaysBeforeYear;
    var c := CivilOf(day);
    CivilRoundTrip(day);
    assert 1 <= c.month <= 12 by {
      assert MonthOf(day) == c.month;
    }
    if c.month == 2 && c.day == 29 && !Leap(c.year + 5) {
      DateRoundTrip(c.year + 5, 3, 1);
    } else {
      DateRoundTrip(c.year + 5, c.month, c.day);
    }
  }
}
