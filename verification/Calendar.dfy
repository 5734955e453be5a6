/** The proleptic Gregorian calendar: days counted from 0000-01-01, for every year of either sign. */
module Calendar {

  predicate IsLeap(y: int) { y % 4 == 0 && (y % 100 != 0 || y % 400 == 0) }

  function YearLength(y: int): (n: nat)
    ensures 365 <= n <= 366
  {
    if IsLeap(y) then 366 else 365
  }

  /** The number of 1 January of year `y`. */
  function FirstDay(y: int): int
    decreases if y < 0 then -y else y
  {
    if y == 0 then 0
    else if y > 0 then FirstDay(y - 1) + YearLength(y - 1)
    else FirstDay(y + 1) - YearLength(y)
  }

  lemma {:induction false} FirstDayStep(y: int)
    ensures FirstDay(y + 1) == FirstDay(y) + YearLength(y)
  {
  }

  lemma {:induction false} FirstDayMonotonic(y: int, z: int)
    requires y < z
    ensures FirstDay(y) + YearLength(y) <= FirstDay(z)
    decreases z - y
  {
    FirstDayStep(z - 1);
    if y + 1 == z {
    } else {
      FirstDayMonotonic(y, z - 1);
    }
  }

  function MonthLength(y: int, m: nat): (n: nat)
    ensures 28 <= n <= 31
  {
    if m == 2 then (if IsLeap(y) then 29 else 28)
    else if m == 4 || m == 6 || m == 9 || m == 11 then 30 else 31
  }

  /** The days of year `y` before the first of month `m`. */
  function DaysBefore(y: int, m: nat): nat
    requires 1 <= m <= 13
  {
    if m == 1 then 0 else DaysBefore(y, m - 1) + MonthLength(y, m - 1)
  }

  lemma YearOfMonths(y: int)
    ensures DaysBefore(y, 13) == YearLength(y)
  {
    var february := MonthLength(y, 2);
    assert DaysBefore(y, 2) == 31 && DaysBefore(y, 3) == 31 + february;
    assert DaysBefore(y, 4) == 62 + february && DaysBefore(y, 5) == 92 + february;
    assert DaysBefore(y, 6) == 123 + february && DaysBefore(y, 7) == 153 + february;
    assert DaysBefore(y, 8) == 184 + february && DaysBefore(y, 9) == 215 + february;
    assert DaysBefore(y, 10) == 245 + february && DaysBefore(y, 11) == 276 + february;
    assert DaysBefore(y, 12) == 306 + february;
  }

  /** The lengths of the twelve months. */
  lemma MonthLengths(y: int)
    ensures MonthLength(y, 1) == 31 && MonthLength(y, 2) == (if IsLeap(y) then 29 else 28) && MonthLength(y, 3) == 31
    ensures MonthLength(y, 4) == 30 && MonthLength(y, 5) == 31 && MonthLength(y, 6) == 30
    ensures MonthLength(y, 7) == 31 && MonthLength(y, 8) == 31 && MonthLength(y, 9) == 30
    ensures MonthLength(y, 10) == 31 && MonthLength(y, 11) == 30 && MonthLength(y, 12) == 31
  {
  }

  /** The leap days before year `y`, counted from year 0. */
  function LeapDays(y: int): int { (y + 3) / 4 - (y + 99) / 100 + (y + 399) / 400 }

  lemma Fourths(y: int)
    ensures (y + 4) / 4 == (y + 3) / 4 + if y % 4 == 0 then 1 else 0
  {
  }

  lemma Hundredths(y: int)
    ensures (y + 100) / 100 == (y + 99) / 100 + if y % 100 == 0 then 1 else 0
  {
  }

  lemma FourHundredths(y: int)
    ensures (y + 400) / 400 == (y + 399) / 400 + if y % 400 == 0 then 1 else 0
  {
  }

  lemma Centuries(y: int)
    ensures y % 400 == 0 ==> y % 100 == 0
    ensures y % 100 == 0 ==> y % 4 == 0
  {
  }

  lemma LeapDaysStep(y: int)
    ensures LeapDays(y + 1) == LeapDays(y) + if IsLeap(y) then 1 else 0
  {
    Fourths(y);
    Hundredths(y);
    FourHundredths(y);
    Centuries(y);
  }

  /** Years have 365 days and a leap day every fourth year, but for centuries not divisible by 400. */
  lemma {:induction false} FirstDayClosed(y: int)
    ensures FirstDay(y) == 365 * y + LeapDays(y)
    decreases if y < 0 then -y else y
  {
    if y > 0 {
      FirstDayClosed(y - 1);
      LeapDaysStep(y - 1);
    } else if y < 0 {
      FirstDayClosed(y + 1);
      LeapDaysStep(y);
    }
  }

  lemma FourthsCycle(y: int)
    ensures (y + 400 + 3) / 4 == (y + 3) / 4 + 100
  {
  }

  lemma HundredthsCycle(y: int)
    ensures (y + 400 + 99) / 100 == (y + 99) / 100 + 4
  {
  }

  lemma FourHundredthsCycle(y: int)
    ensures (y + 400 + 399) / 400 == (y + 399) / 400 + 1
  {
  }

  /** The calendar repeats after 400 years, with 97 leap days. */
  lemma LeapCycle(y: int)
    ensures FirstDay(y + 400) == FirstDay(y) + 400 * 365 + 97
  {
    FirstDayClosed(y);
    FirstDayClosed(y + 400);
    FourthsCycle(y);
    HundredthsCycle(y);
    FourHundredthsCycle(y);
  }

  datatype Date = Date(year: int, month: nat, day: nat)

  predicate IsDate(d: Date) {
    1 <= d.month <= 12 && 1 <= d.day <= MonthLength(d.year, d.month)
  }

  function DayNumber(d: Date): int
    requires IsDate(d)
  {
    FirstDay(d.year) + DaysBefore(d.year, d.month) + d.day - 1
  }

  /** The number of a date, month by month. */
  lemma DayNumberClosed(d: Date)
    requires IsDate(d)
    ensures var february := if IsLeap(d.year) then 29 else 28;
            var before := [0, 31, 31 + february, 62 + february, 92 + february, 123 + february, 153 + february,
                           184 + february, 215 + february, 245 + february, 276 + february, 306 + february];
            DayNumber(d) == 365 * d.year + LeapDays(d.year) + before[d.month - 1] + d.day - 1
  {
    FirstDayClosed(d.year);
    YearOfMonths(d.year);
    MonthsBefore(d.year, d.month);
  }

  lemma MonthsBefore(y: int, m: nat)
    requires 1 <= m <= 12
    ensures var february := MonthLength(y, 2);
            DaysBefore(y, m) == [0, 31, 31 + february, 62 + february, 92 + february, 123 + february, 153 + february,
                                 184 + february, 215 + february, 245 + february, 276 + february, 306 + february][m - 1]
  {
    var february := MonthLength(y, 2);
    assert DaysBefore(y, 2) == 31 && DaysBefore(y, 3) == 31 + february;
    assert DaysBefore(y, 4) == 62 + february && DaysBefore(y, 5) == 92 + february;
    assert DaysBefore(y, 6) == 123 + february && DaysBefore(y, 7) == 153 + february;
    assert DaysBefore(y, 8) == 184 + february && DaysBefore(y, 9) == 215 + february;
    assert DaysBefore(y, 10) == 245 + february && DaysBefore(y, 11) == 276 + february;
    assert DaysBefore(y, 12) == 306 + february;
  }

  /** The first day of the Unix epoch, and a last of May. */
  lemma SomeDayNumbers(d: Date)
    requires IsDate(d)
    ensures d == Date(1970, 1, 1) ==> DayNumber(d) == 719528
    ensures d == Date(2022, 5, 31) ==> DayNumber(d) == 719528 + 19143
  {
    DayNumberClosed(d);
  }

  lemma SomeDates(d: Date)
    ensures d == Date(1970, 1, 1) || d == Date(2022, 5, 31) || d == Date(2024, 2, 29) || d == Date(2000, 2, 29)
        ==> IsDate(d)
    ensures d == Date(2022, 4, 31) || d == Date(2023, 2, 29) || d == Date(1900, 2, 29) ==> !IsDate(d)
  {
  }

  function YearFrom(y: int, n: int): (r: int)
    requires FirstDay(y) <= n
    ensures FirstDay(r) <= n < FirstDay(r) + YearLength(r)
    decreases n - FirstDay(y)
  {
    FirstDayStep(y);
    if n < FirstDay(y) + YearLength(y) then y else YearFrom(y + 1, n)
  }

  lemma {:induction false} EarlyEnough(n: int)
    requires n <= 0
    ensures FirstDay(n) <= n
    decreases -n
  {
    if n < 0 {
      EarlyEnough(n + 1);
    }
  }

  function YearOf(n: int): (y: int)
    ensures FirstDay(y) <= n < FirstDay(y) + YearLength(y)
  {
    if n >= 0 then YearFrom(0, n) else (EarlyEnough(n); YearFrom(n, n))
  }

  function MonthFrom(y: int, m: nat, k: nat): (r: nat)
    requires 1 <= m <= 12 && DaysBefore(y, m) <= k < DaysBefore(y, 13)
    ensures 1 <= r <= 12 && DaysBefore(y, r) <= k < DaysBefore(y, r) + MonthLength(y, r)
    decreases 12 - m
  {
    if m == 12 || k < DaysBefore(y, m + 1) then m else MonthFrom(y, m + 1, k)
  }

  /** The date of day number `n`. */
  function DateOf(n: int): (d: Date)
    ensures IsDate(d) && DayNumber(d) == n
  {
    var y := YearOf(n);
    var k := n - FirstDay(y);
    YearOfMonths(y);
    var m := MonthFrom(y, 1, k);
    Date(y, m, k - DaysBefore(y, m) + 1)
  }

  lemma {:induction false} DaysBeforeMonotonic(y: int, m: nat, k: nat)
    requires 1 <= m < k <= 13
    ensures DaysBefore(y, m) + MonthLength(y, m) <= DaysBefore(y, k)
    decreases k - m
  {
    if m + 1 == k {
    } else {
      DaysBeforeMonotonic(y, m, k - 1);
    }
  }

  lemma DayInYear(d: Date)
    requires IsDate(d)
    ensures FirstDay(d.year) <= DayNumber(d) < FirstDay(d.year) + YearLength(d.year)
  {
    YearOfMonths(d.year);
    DaysBeforeMonotonic(d.year, d.month, 13);
  }

  /** No two dates share a number; with `DateOf` this makes dates and day numbers two names of one thing. */
  lemma DayNumberInjective(d: Date, e: Date)
    requires IsDate(d) && IsDate(e) && DayNumber(d) == DayNumber(e)
    ensures d == e
  {
    DayInYear(d);
    DayInYear(e);
    if d.year < e.year { FirstDayMonotonic(d.year, e.year); }
    if e.year < d.year { FirstDayMonotonic(e.year, d.year); }
    if d.month < e.month { DaysBeforeMonotonic(d.year, d.month, e.month); }
    if e.month < d.month { DaysBeforeMonotonic(d.year, e.month, d.month); }
  }
}
