/** The proleptic Gregorian calendar of section 21.4.1 of ECMA-262, for years from 0 on. */
module Calendar {

  datatype Fields = Fields(year: nat, month: nat, day: nat, hour: nat, minute: nat, second: nat)

  predicate Leap(y: int) {
    y % 4 == 0 && (y % 100 != 0 || y % 400 == 0)
  }

  function DaysInYear(y: int): nat {
    if Leap(y) then 366 else 365
  }

  function DaysInMonth(y: int, m: nat): nat {
    if m == 2 then (if Leap(y) then 29 else 28)
    else if m == 4 || m == 6 || m == 9 || m == 11 then 30
    else 31
  }

  /** The number of the first day of a year, 1970 being day 0. */
  function DayFromYear(y: int): int {
    365 * (y - 1970) + (y - 1969) / 4 - (y - 1901) / 100 + (y - 1601) / 400
  }

  /** The days of the months before m. */
  function DayFromMonth(y: int, m: nat): nat
    requires m >= 1
  {
    if m == 1 then 0 else DayFromMonth(y, m - 1) + DaysInMonth(y, m - 1)
  }

  /** The number of a day; a day behind the end of its month rolls over. */
  function DayNumber(y: int, m: nat, d: nat): int
    requires m >= 1
  {
    DayFromYear(y) + DayFromMonth(y, m) + d - 1
  }

  predicate ValidDate(y: int, m: nat, d: nat) {
    1 <= m <= 12 && 1 <= d <= DaysInMonth(y, m)
  }

  predicate Valid(f: Fields) {
    ValidDate(f.year, f.month, f.day) && f.hour < 24 && f.minute < 60 && f.second < 60
  }

  function SecondsOf(f: Fields): int
    requires f.month >= 1
  {
    DayNumber(f.year, f.month, f.day) * 86400 + f.hour * 3600 + f.minute * 60 + f.second
  }

  lemma Quotients(n: int, divisor: int)
    requires divisor in {4, 100, 400}
    ensures (n + 1) / divisor - n / divisor == if (n + 1) % divisor == 0 then 1 else 0
  {
  }

  lemma YearStep(y: int)
    ensures DayFromYear(y + 1) == DayFromYear(y) + DaysInYear(y)
  {
    Quotients(y - 1969, 4);
    Quotients(y - 1901, 100);
    Quotients(y - 1601, 400);
    assert (y - 1968) % 4 == y % 4 && (y - 1900) % 100 == y % 100 && (y - 1600) % 400 == y % 400;
  }

  lemma {:induction false} YearsIncrease(y: int, z: int)
    requires y < z
    ensures DayFromYear(y + 1) <= DayFromYear(z)
    decreases z - y
  {
    if y + 1 < z {
      YearStep(z - 1);
      YearsIncrease(y, z - 1);
    }
  }

  lemma {:induction false} MonthsIncrease(y: int, m: nat, n: nat)
    requires 1 <= m < n
    ensures DayFromMonth(y, m) + DaysInMonth(y, m) <= DayFromMonth(y, n)
    decreases n - m
  {
    if m + 1 < n {
      MonthsIncrease(y, m, n - 1);
    }
  }

  lemma MonthsFillYear(y: int)
    ensures DayFromMonth(y, 12) + DaysInMonth(y, 12) == DaysInYear(y)
  {
    assert DayFromMonth(y, 2) == DaysInMonth(y, 1);
    assert DayFromMonth(y, 3) == DaysInMonth(y, 1) + DaysInMonth(y, 2);
    assert DayFromMonth(y, 5) == DayFromMonth(y, 3) + 61;
    assert DayFromMonth(y, 7) == DayFromMonth(y, 5) + 61;
    assert DayFromMonth(y, 9) == DayFromMonth(y, 7) + 62;
    assert DayFromMonth(y, 11) == DayFromMonth(y, 9) + 61;
  }

  /** The day-within-year table of section 21.4.1 of ECMA-262, for every year. */
  lemma MonthStarts(y: int, m: nat)
    requires 1 <= m <= 12
    ensures DayFromMonth(y, m)
         == [0, 31, 59, 90, 120, 151, 181, 212, 243, 273, 304, 334][m - 1]
            + if m >= 3 && y % 4 == 0 && (y % 100 != 0 || y % 400 == 0) then 1 else 0
  {
    if m > 1 {
      MonthStarts(y, m - 1);
    }
  }

  /** Which dates exist: the lengths of the months, and the leap day of a leap year. */
  lemma DatesExist(y: int, m: nat, d: nat)
    ensures var february := if y % 4 == 0 && (y % 100 != 0 || y % 400 == 0) then 29 else 28;
            ValidDate(y, m, d) <==>
            1 <= m <= 12 && 1 <= d <= [31, february, 31, 30, 31, 30, 31, 31, 30, 31, 30, 31][m - 1]
  {
    if 1 <= m <= 12 {
      var february := if y % 4 == 0 && (y % 100 != 0 || y % 400 == 0) then 29 else 28;
      var lengths := [31, february, 31, 30, 31, 30, 31, 31, 30, 31, 30, 31];
      assert lengths[m - 1] == DaysInMonth(y, m);
    }
  }

  /** The time of a date in closed form: years begin in March, so that the leap day is the last one. */
  function SecondsInClosedForm(f: Fields): int {
    var march := if f.month <= 2 then f.year - 1 else f.year;
    var days := 365 * march + march / 4 - march / 100 + march / 400;
    (days + (153 * ((f.month + 9) % 12) + 2) / 5 + f.day - 719469) * 86400 + f.hour * 3600 + f.minute * 60 + f.second
  }

  lemma SecondsAreClosedForm(f: Fields)
    requires 1 <= f.month <= 12
    ensures SecondsOf(f) == SecondsInClosedForm(f)
  {
    MonthStarts(f.year, f.month);
    DaysSinceMarch(f.month);
    YearStart(f.year);
    LeapDays(f.year);
    hide DayFromYear, DayFromMonth;
  }

  lemma YearStart(y: int)
    ensures DayFromYear(y) == 365 * (y - 1) + (y - 1) / 4 - (y - 1) / 100 + (y - 1) / 400 - 719162
  {
    FourthsShift(y - 1);
    HundredthsShift(y - 1);
    var n := y - 1601;
    assert n + 1600 == y - 1 && (n + 1600) / 400 == n / 400 + 4;
  }

  lemma FourthsShift(n: int)
    ensures (n - 1968) / 4 == n / 4 - 492
  {
  }

  lemma HundredthsShift(n: int)
    ensures (n - 1900) / 100 == n / 100 - 19
  {
  }

  lemma LeapDays(y: int)
    ensures y / 4 - y / 100 + y / 400 - (y - 1) / 4 + (y - 1) / 100 - (y - 1) / 400
         == if y % 4 == 0 && (y % 100 != 0 || y % 400 == 0) then 1 else 0
  {
    Quotients(y - 1, 4);
    Quotients(y - 1, 100);
    Quotients(y - 1, 400);
  }

  lemma DaysSinceMarch(m: nat)
    requires 1 <= m <= 12
    ensures (153 * ((m + 9) % 12) + 2) / 5
         == [0, 31, 59, 90, 120, 151, 181, 212, 243, 273, 304, 334][m - 1] + if m <= 2 then 306 else -59
  {
    var starts := [0, 31, 59, 90, 120, 151, 181, 212, 243, 273, 304, 334];
    assert starts[m - 1] < 335;
  }

  /** The largest year from y on that does not start behind day n. */
  function YearFrom(n: int, y: nat): (r: nat)
    requires DayFromYear(y) <= n
    ensures DayFromYear(r) <= n < DayFromYear(r + 1) && r >= y
    decreases n - DayFromYear(y)
  {
    YearStep(y);
    if n < DayFromYear(y + 1) then y else YearFrom(n, y + 1)
  }

  /** The month of the day with `r` days before it in its year. */
  function MonthFrom(y: int, r: nat, m: nat): (month: nat)
    requires 1 <= m <= 12 && DayFromMonth(y, m) <= r < DaysInYear(y)
    ensures m <= month <= 12 && DayFromMonth(y, month) <= r < DayFromMonth(y, month) + DaysInMonth(y, month)
    decreases 12 - m
  {
    MonthsFillYear(y);
    if r < DayFromMonth(y, m) + DaysInMonth(y, m) then m else MonthFrom(y, r, m + 1)
  }

  const YEAR_ZERO: int := DayFromYear(0) * 86400

  /** The calendar fields of a second, as Date.toISOString writes them. */
  function FieldsOf(seconds: int): (f: Fields)
    requires seconds >= YEAR_ZERO
    ensures Valid(f) && SecondsOf(f) == seconds
  {
    var n, time := seconds / 86400, seconds % 86400;
    var year := YearFrom(n, 0);
    YearStep(year);
    var r := n - DayFromYear(year);
    var month := MonthFrom(year, r, 1);
    Fields(year, month, r - DayFromMonth(year, month) + 1, time / 3600, time / 60 % 60, time % 60)
  }

  predicate Earlier(a: Fields, b: Fields) {
    if a.year != b.year then a.year < b.year
    else if a.month != b.month then a.month < b.month
    else if a.day != b.day then a.day < b.day
    else if a.hour != b.hour then a.hour < b.hour
    else if a.minute != b.minute then a.minute < b.minute
    else a.second < b.second
  }

  lemma DayOrder(y: nat, m: nat, d: nat, z: nat, n: nat, e: nat)
    requires ValidDate(y, m, d) && ValidDate(z, n, e)
    requires y < z || (y == z && (m < n || (m == n && d < e)))
    ensures DayNumber(y, m, d) < DayNumber(z, n, e)
  {
    if y < z {
      YearsIncrease(y, z);
      YearStep(y);
      MonthsFillYear(y);
      if m < 12 {
        MonthsIncrease(y, m, 12);
      }
    } else if m < n {
      MonthsIncrease(y, m, n);
    }
  }

  /** Comparing valid fields from the year down is comparing times. */
  lemma FieldOrder(a: Fields, b: Fields)
    requires Valid(a) && Valid(b) && Earlier(a, b)
    ensures SecondsOf(a) < SecondsOf(b)
  {
    if (a.year, a.month, a.day) != (b.year, b.month, b.day) {
      DayOrder(a.year, a.month, a.day, b.year, b.month, b.day);
    }
  }

  lemma FieldOrderExact(a: Fields, b: Fields)
    requires Valid(a) && Valid(b)
    ensures Earlier(a, b) <==> SecondsOf(a) < SecondsOf(b)
    ensures SecondsOf(a) == SecondsOf(b) <==> a == b
  {
    if Earlier(a, b) {
      FieldOrder(a, b);
    } else if a != b {
      FieldOrder(b, a);
    }
  }

  /** Valid fields are the fields of their time. */
  lemma FieldsRoundTrip(f: Fields)
    requires Valid(f)
    ensures SecondsOf(f) >= YEAR_ZERO && FieldsOf(SecondsOf(f)) == f
  {
    if f.year > 0 {
      YearsIncrease(0, f.year);
      YearStep(0);
    }
    FieldOrderExact(FieldsOf(SecondsOf(f)), f);
  }
}
