// Gregorian calendar by counting, and the closed form the SDK uses (src/semantik/error.rs, imf_to_unix).

module Calendar {
  import opened Basics

  datatype DateTime = DateTime(year: int, month: nat, day: nat, hour: nat, minute: nat, second: nat)

  // ----- The calendar, by counting -----

  predicate Leap(y: int) {
    y % 4 == 0 && (y % 100 != 0 || y % 400 == 0)
  }

  function YearLength(y: int): nat {
    if Leap(y) then 366 else 365
  }

  function MonthLength(y: int, m: nat): nat
    requires 1 <= m <= 12
  {
    if m == 2 then (if Leap(y) then 29 else 28)
    else if m == 4 || m == 6 || m == 9 || m == 11 then 30
    else 31
  }

  /** Days from 1970-01-01 to the first day of year `y`. */
  function DaysBeforeYear(y: int): nat
    requires y >= 1970
    decreases y
  {
    if y == 1970 then 0 else DaysBeforeYear(y - 1) + YearLength(y - 1)
  }

  /** Days from the first day of year `y` to the first day of its month `m`. */
  function DaysBeforeMonth(y: int, m: nat): nat
    requires 1 <= m <= 13
    decreases m
  {
    if m == 1 then 0 else DaysBeforeMonth(y, m - 1) + MonthLength(y, m - 1)
  }

  function DayNumber(y: int, m: nat, d: nat): nat
    requires y >= 1970 && 1 <= m <= 12 && d >= 1
  {
    DaysBeforeYear(y) + DaysBeforeMonth(y, m) + d - 1
  }

  function SecondOfDay(t: DateTime): nat {
    t.hour * 3600 + t.minute * 60 + t.second
  }

  /** The ranges `imf_to_unix` checks; they do not look at the length of the month. */
  predicate InRange(t: DateTime) {
    && 1970 <= t.year <= 9999
    && 1 <= t.month <= 12
    && 1 <= t.day <= 31
    && t.hour < 24 && t.minute < 60 && t.second < 60
  }

  predicate Valid(t: DateTime) {
    InRange(t) && t.day <= MonthLength(t.year, t.month)
  }

  // ----- The closed form -----

  // Rust's `/` on i64: toward zero.
  function TruncDiv(a: int, b: nat): int
    requires b > 0
  {
    if a >= 0 then a / b else -((-a) / b)
  }

  /** Days since 1970-01-01 by era, year of era and day of year counted from March. Each `nat` below
      is an unsigned subtraction or sum of the source that must not go below zero. */
  function DaysFromCivil(year: int, month: nat, day: nat): int
    requires year >= 1970 && 1 <= month <= 12 && day >= 1
  {
    var y := year - if month <= 2 then 1 else 0;
    var era := TruncDiv(if y >= 0 then y else y - 399, 400);
    var yoe: nat := y - era * 400;
    var shifted: nat := if month > 2 then month - 3 else month + 9;
    var doy: nat := (153 * shifted + 2) / 5 + day - 1;
    var years: nat := yoe * 365 + yoe / 4 - yoe / 100;
    var doe: nat := years + doy;
    era * 146097 + doe - 719468
  }

  function ImfToUnix(t: DateTime): Option<nat> {
    if !InRange(t) then None
    else
      var days := DaysFromCivil(t.year, t.month, t.day);
      if days < 0 then None
      else Some(days * 86400 + t.hour * 3600 + t.minute * 60 + t.second)
  }

  // ----- The closed form counts days -----

  // Days of the years up to and including `y`, in proleptic counting.
  function YearTerm(y: int): int {
    365 * y + y / 4 - y / 100 + y / 400
  }

  lemma EraSplit(y: nat)
    ensures var era, yoe := y / 400, y % 400;
            era * 146097 + yoe * 365 + yoe / 4 - yoe / 100 == YearTerm(y)
  {
    var era, yoe := y / 400, y % 400;
    assert y == 400 * era + yoe;
    assert y / 4 == 100 * era + yoe / 4;
    assert y / 100 == 4 * era + yoe / 100;
  }

  lemma ClosedForm(year: int, month: nat, day: nat)
    requires year >= 1970 && 1 <= month <= 12 && day >= 1
    ensures DaysFromCivil(year, month, day) ==
            (if month > 2 then YearTerm(year) + (153 * (month - 3) + 2) / 5
             else YearTerm(year - 1) + (153 * (month + 9) + 2) / 5) + day - 1 - 719468
  {
    var y := year - if month <= 2 then 1 else 0;
    EraSplit(y);
  }

  lemma YearTermStep(y: int)
    requires y >= 1
    ensures YearTerm(y) == YearTerm(y - 1) + YearLength(y)
  {
    StepDiv(y, 4);
    StepDiv(y, 100);
    StepDiv(y, 400);
    if y % 400 == 0 {
      MultipleOf100(y);
    }
    if y % 100 == 0 {
      MultipleOf4(y);
    }
  }

  lemma MultipleOf100(y: int)
    requires y % 400 == 0
    ensures y % 100 == 0
  {
    var q := y / 400;
    assert y / 100 == 4 * q;
  }

  lemma MultipleOf4(y: int)
    requires y % 100 == 0
    ensures y % 4 == 0
  {
    var q := y / 100;
    assert y / 4 == 25 * q;
  }

  lemma StepDiv(y: int, k: nat)
    requires y >= 1 && (k == 4 || k == 100 || k == 400)
    ensures y / k - (y - 1) / k == if y % k == 0 then 1 else 0
  {
  }

  lemma {:induction false} YearsCounted(y: int)
    requires y >= 1970
    ensures YearTerm(y - 1) == DaysBeforeYear(y) + YearTerm(1969)
    decreases y
  {
    if y > 1970 {
      YearsCounted(y - 1);
      YearTermStep(y - 1);
    }
  }

  lemma {:induction false} MonthsCounted(y: int, m: nat)
    requires 1 <= m <= 12
    ensures DaysBeforeMonth(y, m) ==
            if m > 2 then 31 + MonthLength(y, 2) + (153 * (m - 3) + 2) / 5 else (153 * (m + 9) + 2) / 5 - 306
    decreases m
  {
    hide Leap;
    if m > 1 {
      MonthsCounted(y, m - 1);
    }
  }

  lemma DaysFromCivilCounts(y: int, m: nat, d: nat)
    requires y >= 1970 && 1 <= m <= 12 && d >= 1
    ensures DaysFromCivil(y, m, d) == DayNumber(y, m, d)
  {
    ClosedForm(y, m, d);
    YearsCounted(y);
    MonthsCounted(y, m);
    YearTermStep(y);
    hide DaysFromCivil, DaysBeforeYear, DaysBeforeMonth, Leap;
    assert YearTerm(1969) == 365 * 1969 + 492 - 19 + 4;
    hide YearTerm;
    assert MonthLength(y, 2) == YearLength(y) - 337;
  }

  /** For every date the ranges let through, the closed form is the day count: no subtraction goes
      below zero and the "before 1970" branch is never taken. A day past the end of its month counts
      on into the next month. */
  lemma ImfToUnixCountsDays(t: DateTime)
    ensures ImfToUnix(t) ==
            if InRange(t) then Some(86400 * DayNumber(t.year, t.month, t.day) + SecondOfDay(t)) else None
  {
    if InRange(t) {
      hide DaysFromCivil, DayNumber;
      DaysFromCivilCounts(t.year, t.month, t.day);
    }
  }

  // ----- Order -----

  predicate Before(a: DateTime, b: DateTime) {
    || a.year < b.year
    || (a.year == b.year && (a.month < b.month
        || (a.month == b.month && (a.day < b.day
            || (a.day == b.day && SecondOfDay(a) < SecondOfDay(b))))))
  }

  lemma {:induction false} YearsGrow(a: int, b: int)
    requires 1970 <= a < b
    ensures DaysBeforeYear(a) + YearLength(a) <= DaysBeforeYear(b)
    decreases b
  {
    if a + 1 < b {
      YearsGrow(a, b - 1);
    }
  }

  lemma {:induction false} MonthsGrow(y: int, a: nat, b: nat)
    requires 1 <= a < b <= 13
    ensures DaysBeforeMonth(y, a) + MonthLength(y, a) <= DaysBeforeMonth(y, b)
    decreases b
  {
    if a + 1 < b {
      MonthsGrow(y, a, b - 1);
    }
  }

  lemma YearIsItsMonths(y: int)
    ensures DaysBeforeMonth(y, 13) == YearLength(y)
  {
    MonthsCounted(y, 12);
    assert DaysBeforeMonth(y, 13) == DaysBeforeMonth(y, 12) + MonthLength(y, 12);
  }

  lemma DayInYear(y: int, m: nat, d: nat)
    requires 1 <= m <= 12 && 1 <= d <= 31
    ensures DaysBeforeMonth(y, m) + d <= YearLength(y)
  {
    YearIsItsMonths(y);
    if m < 12 {
      MonthsGrow(y, m + 1, 13);
    } else {
      MonthsGrow(y, 12, 13);
    }
    assert DaysBeforeMonth(y, m + 1) == DaysBeforeMonth(y, m) + MonthLength(y, m);
  }

  lemma LaterDay(a: DateTime, b: DateTime)
    requires Valid(a) && Valid(b) && Before(a, b)
    ensures var m, n := DayNumber(a.year, a.month, a.day), DayNumber(b.year, b.month, b.day);
            m < n || (m == n && SecondOfDay(a) < SecondOfDay(b))
  {
    hide DaysBeforeYear, DaysBeforeMonth, SecondOfDay;
    if a.year < b.year {
      YearsGrow(a.year, b.year);
      DayInYear(a.year, a.month, a.day);
    } else if a.month < b.month {
      MonthsGrow(a.year, a.month, b.month);
    }
  }

  /** Later dates have larger Unix seconds; so distinct valid dates never share them. */
  lemma StrictlyIncreasing(a: DateTime, b: DateTime)
    requires Valid(a) && Valid(b)
    ensures ImfToUnix(a).Some? && ImfToUnix(b).Some?
    ensures Before(a, b) <==> ImfToUnix(a).value < ImfToUnix(b).value
    ensures ImfToUnix(a) == ImfToUnix(b) <==> a == b
  {
    hide ImfToUnix, DayNumber, SecondOfDay;
    ImfToUnixCountsDays(a);
    ImfToUnixCountsDays(b);
    SecondsUnique(a, b);
    SecondsUnique(b, a);
    if Before(a, b) {
      LaterDay(a, b);
    } else if Before(b, a) {
      LaterDay(b, a);
    }
  }

  lemma SecondsUnique(a: DateTime, b: DateTime)
    requires InRange(a) && InRange(b)
    ensures SecondOfDay(a) < 86400
    ensures SecondOfDay(a) == SecondOfDay(b) ==> a.hour == b.hour && a.minute == b.minute && a.second == b.second
  {
  }

  // ----- The inverse -----

  /** The year that day `n` after the start of year `y` falls in, and the day within it. */
  function YearOf(n: nat, y: int): (int, nat)
    decreases n
  {
    if n < YearLength(y) then (y, n) else YearOf(n - YearLength(y), y + 1)
  }

  /** The month that day `n` after the start of month `m` falls in, and the day within it. */
  function MonthOf(y: int, n: nat, m: nat): (r: (nat, nat))
    requires 1 <= m <= 12
    ensures m <= r.0 <= 12
    decreases 12 - m
  {
    if n < MonthLength(y, m) || m == 12 then (m, n) else MonthOf(y, n - MonthLength(y, m), m + 1)
  }

  function FromUnix(t: nat): DateTime {
    var (year, inYear) := YearOf(t / 86400, 1970);
    var (month, inMonth) := MonthOf(year, inYear, 1);
    var s := t % 86400;
    DateTime(year, month, inMonth + 1, s / 3600, s / 60 % 60, s % 60)
  }

  // 10000-01-01T00:00:00Z.
  const LIMIT: nat := 253402300800

  lemma {:induction false} YearOfFinds(n: nat, y: int)
    requires y >= 1970
    ensures var (year, inYear) := YearOf(n, y);
            year >= y && inYear < YearLength(year) && DaysBeforeYear(y) + n == DaysBeforeYear(year) + inYear
    decreases n
  {
    if n >= YearLength(y) {
      YearOfFinds(n - YearLength(y), y + 1);
    }
  }

  lemma {:induction false} MonthOfFinds(y: int, n: nat, m: nat)
    requires 1 <= m <= 12 && DaysBeforeMonth(y, m) + n < YearLength(y)
    ensures var (month, inMonth) := MonthOf(y, n, m);
            && inMonth < MonthLength(y, month)
            && DaysBeforeMonth(y, m) + n == DaysBeforeMonth(y, month) + inMonth
    decreases 12 - m
  {
    if m == 12 {
      YearIsItsMonths(y);
      assert DaysBeforeMonth(y, 13) == DaysBeforeMonth(y, 12) + MonthLength(y, 12);
    } else if n >= MonthLength(y, m) {
      assert DaysBeforeMonth(y, m + 1) == DaysBeforeMonth(y, m) + MonthLength(y, m);
      MonthOfFinds(y, n - MonthLength(y, m), m + 1);
    }
  }

  lemma LimitIsYear10000()
    ensures 86400 * DaysBeforeYear(10000) == LIMIT
  {
    YearsCounted(10000);
    hide DaysBeforeYear;
    assert YearTerm(9999) == 365 * 9999 + 2499 - 99 + 24;
    assert YearTerm(1969) == 365 * 1969 + 492 - 19 + 4;
  }

  lemma DayFound(n: nat)
    requires n < LIMIT / 86400
    ensures var (year, inYear) := YearOf(n, 1970);
            var (month, inMonth) := MonthOf(year, inYear, 1);
            && 1970 <= year <= 9999
            && inMonth < MonthLength(year, month)
            && DayNumber(year, month, inMonth + 1) == n
  {
    assert DaysBeforeYear(1970) == 0;
    YearOfFinds(n, 1970);
    var (year, inYear) := YearOf(n, 1970);
    assert DaysBeforeMonth(year, 1) == 0;
    MonthOfFinds(year, inYear, 1);
    LimitIsYear10000();
    if year > 10000 {
      YearsGrow(10000, year);
    }
  }

  /** Every second before the year 10000 is the Unix time of a valid date, the one FromUnix names. */
  lemma ToUnixOfFromUnix(t: nat)
    requires t < LIMIT
    ensures Valid(FromUnix(t)) && ImfToUnix(FromUnix(t)) == Some(t)
  {
    hide YearOf, MonthOf, DayNumber, ImfToUnix, Leap;
    DayFound(t / 86400);
    SplitSeconds(t % 86400);
    assert MonthLength(FromUnix(t).year, FromUnix(t).month) <= 31;
    ImfToUnixCountsDays(FromUnix(t));
  }

  lemma SplitSeconds(s: nat)
    requires s < 86400
    ensures s / 3600 < 24 && s / 3600 * 3600 + s / 60 % 60 * 60 + s % 60 == s
  {
    assert s / 60 / 60 == s / 3600;
  }

  /** FromUnix undoes imf_to_unix exactly on valid dates. On the other dates that imf_to_unix accepts
      (a day past the end of its month) the seconds name a different date. */
  lemma FromUnixOfToUnixIff(t: DateTime)
    requires InRange(t)
    ensures ImfToUnix(t).Some? && ImfToUnix(t).value < LIMIT
    ensures FromUnix(ImfToUnix(t).value) == t <==> t.day <= MonthLength(t.year, t.month)
  {
    hide ImfToUnix, FromUnix, DaysBeforeYear, DaysBeforeMonth;
    ImfToUnixCountsDays(t);
    LimitIsYear10000();
    DayInYear(t.year, t.month, t.day);
    SecondsUnique(t, t);
    if t.year < 9999 {
      YearsGrow(t.year, 10000);
    } else {
      YearsGrow(9999, 10000);
    }
    var unix := ImfToUnix(t).value;
    ToUnixOfFromUnix(unix);
    if Valid(t) {
      StrictlyIncreasing(t, FromUnix(unix));
    }
  }

  /** A date with a day that its month lacks shares its Unix time with another date: in a common year, 31
      February with 3 March. */
  lemma February31IsMarch3(year: int, hour: nat, minute: nat, second: nat)
    requires 1970 <= year <= 9999 && !Leap(year) && hour < 24 && minute < 60 && second < 60
    ensures var feb, mar := DateTime(year, 2, 31, hour, minute, second), DateTime(year, 3, 3, hour, minute, second);
            InRange(feb) && !Valid(feb) && Valid(mar) && InRange(mar) && ImfToUnix(feb) == ImfToUnix(mar)
  {
    assert DaysBeforeMonth(year, 3) == DaysBeforeMonth(year, 2) + 28;
    hide DaysBeforeMonth, DaysBeforeYear, Leap, ImfToUnix;
    ImfToUnixCountsDays(DateTime(year, 2, 31, hour, minute, second));
    ImfToUnixCountsDays(DateTime(year, 3, 3, hour, minute, second));
  }
}
