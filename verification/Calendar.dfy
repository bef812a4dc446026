/** The UTC calendar of time.c against the Gregorian calendar (leap rule as in Appendix C of RFC 3339). */
module Calendar {
  const SECONDS_IN_A_DAY: nat := 86400
  const SECONDS_IN_365_DAY_YEAR: nat := 31536000

  // ---------- The Gregorian calendar ----------

  predicate IsLeapYear(year: nat) {
    year % 400 == 0 || (year % 100 != 0 && year % 4 == 0)
  }

  function YearDays(year: nat): nat {
    if IsLeapYear(year) then 366 else 365
  }

  function MonthDays(year: nat, month: nat): (d: nat)
    requires 1 <= month <= 12
    ensures 28 <= d <= 31
  {
    if month == 2 then (if IsLeapYear(year) then 29 else 28)
    else if month == 4 || month == 6 || month == 9 || month == 11 then 30
    else 31
  }

  /** Days from the start of 1970 to the start of a year. */
  function DaysBeforeYear(year: nat): nat
    requires year >= 1970
    decreases year
  {
    if year == 1970 then 0 else DaysBeforeYear(year - 1) + YearDays(year - 1)
  }

  function DaysBeforeMonth(year: nat, month: nat): nat
    requires 1 <= month <= 13
    decreases month
  {
    if month == 1 then 0 else DaysBeforeMonth(year, month - 1) + MonthDays(year, month - 1)
  }

  datatype DateTime = DateTime(year: nat, month: nat, day: nat, hour: nat, minute: nat, second: nat) {
    predicate Valid() {
      && year >= 1970
      && 1 <= month <= 12
      && 1 <= day <= MonthDays(year, month)
      && hour < 24 && minute < 60 && second < 60
    }
  }

  function Days(d: DateTime): nat
    requires d.Valid()
  {
    DaysBeforeYear(d.year) + DaysBeforeMonth(d.year, d.month) + (d.day - 1)
  }

  /** Seconds from the start of 1970. */
  function Seconds(d: DateTime): nat
    requires d.Valid()
  {
    Days(d) * 86400 + d.hour * 3600 + d.minute * 60 + d.second
  }

  /** Earlier, field by field from the year down. */
  predicate Earlier(a: DateTime, b: DateTime) {
    || a.year < b.year
    || (a.year == b.year &&
        (|| a.month < b.month
         || (a.month == b.month &&
             (|| a.day < b.day
              || (a.day == b.day &&
                  (|| a.hour < b.hour
                   || (a.hour == b.hour &&
                       (|| a.minute < b.minute
                        || (a.minute == b.minute && a.second < b.second)))))))))
  }

  lemma {:induction false} YearsMonotone(a: nat, b: nat)
    requires 1970 <= a <= b
    ensures DaysBeforeYear(a) <= DaysBeforeYear(b)
    decreases b
  {
    if a < b { YearsMonotone(a, b - 1); }
  }

  lemma {:induction false} MonthsMonotone(year: nat, a: nat, b: nat)
    requires 1 <= a <= b <= 13
    ensures DaysBeforeMonth(year, a) <= DaysBeforeMonth(year, b)
    decreases b
  {
    if a < b { MonthsMonotone(year, a, b - 1); }
  }

  lemma TwelveMonths(year: nat)
    ensures DaysBeforeMonth(year, 13) == YearDays(year)
  {
    assert DaysBeforeMonth(year, 5) == DaysBeforeMonth(year, 3) + 61;
    assert DaysBeforeMonth(year, 3) == 31 + MonthDays(year, 2);
    assert DaysBeforeMonth(year, 9) == DaysBeforeMonth(year, 7) + 62 == DaysBeforeMonth(year, 5) + 123;
    assert DaysBeforeMonth(year, 13) == DaysBeforeMonth(year, 11) + 61 == DaysBeforeMonth(year, 9) + 122;
  }

  lemma DaysInYear(d: DateTime)
    requires d.Valid()
    ensures DaysBeforeYear(d.year) <= Days(d) < DaysBeforeYear(d.year + 1)
  {
    MonthsMonotone(d.year, d.month + 1, 13);
    TwelveMonths(d.year);
  }

  lemma EarlierHasFewerDays(a: DateTime, b: DateTime)
    requires a.Valid() && b.Valid()
    requires a.year < b.year || (a.year == b.year && (a.month < b.month || (a.month == b.month && a.day < b.day)))
    ensures Days(a) < Days(b)
  {
    hide IsLeapYear;
    if a.year < b.year {
      hide Days, DaysBeforeYear, DaysBeforeMonth, MonthDays;
      DaysInYear(a);
      DaysInYear(b);
      YearsMonotone(a.year + 1, b.year);
    } else if a.month < b.month {
      hide DaysBeforeYear;
      MonthsMonotone(a.year, a.month + 1, b.month);
    } else {
      hide DaysBeforeYear, DaysBeforeMonth, MonthDays;
    }
  }

  lemma EarlierHasFewerSeconds(a: DateTime, b: DateTime)
    requires a.Valid() && b.Valid() && Earlier(a, b)
    ensures Seconds(a) < Seconds(b)
  {
    hide Days;
    if a.year == b.year && a.month == b.month && a.day == b.day {
      assert Days(a) == Days(b) by { SameDate(a, b); }
    } else {
      EarlierHasFewerDays(a, b);
    }
  }

  lemma SameDate(a: DateTime, b: DateTime)
    requires a.Valid() && b.Valid() && a.year == b.year && a.month == b.month && a.day == b.day
    ensures Days(a) == Days(b)
  {
  }

  /** Date-times are ordered as their second counts; so a second count has one date-time only. */
  lemma OrderedBySeconds(a: DateTime, b: DateTime)
    requires a.Valid() && b.Valid()
    ensures Earlier(a, b) <==> Seconds(a) < Seconds(b)
    ensures a == b <==> Seconds(a) == Seconds(b)
  {
    hide Seconds;
    if Earlier(a, b) {
      EarlierHasFewerSeconds(a, b);
    } else if Earlier(b, a) {
      EarlierHasFewerSeconds(b, a);
    }
  }

  // ---------- The count of leap years ----------

  function LeapYears(year: nat): int
    requires year >= 1970
  {
    (year - 1969) / 4 - (year - 1901) / 100 + (year - 1601) / 400
  }

  lemma Quotient4(n: nat, q: nat, r: nat)
    requires n == 4 * q + r && r < 4
    ensures n / 4 == q && n % 4 == r
  {
  }

  lemma Quotient100(n: nat, q: nat, r: nat)
    requires n == 100 * q + r && r < 100
    ensures n / 100 == q && n % 100 == r
  {
  }

  lemma Quotient400(n: nat, q: nat, r: nat)
    requires n == 400 * q + r && r < 400
    ensures n / 400 == q && n % 400 == r
  {
  }

  lemma FourthYear(year: nat)
    requires year >= 1970
    ensures (year - 1968) / 4 == (year - 1969) / 4 + (if year % 4 == 0 then 1 else 0)
  {
    var q, r := (year - 1969) / 4, (year - 1969) % 4;
    if r == 3 {
      Quotient4(year - 1968, q + 1, 0);
      Quotient4(year, q + 493, 0);
    } else {
      Quotient4(year - 1968, q, r + 1);
      Quotient4(year, q + 492, r + 1);
    }
  }

  lemma HundredthYear(year: nat)
    requires year >= 1970
    ensures (year - 1900) / 100 == (year - 1901) / 100 + (if year % 100 == 0 then 1 else 0)
  {
    var q, r := (year - 1901) / 100, (year - 1901) % 100;
    if r == 99 {
      Quotient100(year - 1900, q + 1, 0);
      Quotient100(year, q + 20, 0);
    } else {
      Quotient100(year - 1900, q, r + 1);
      Quotient100(year, q + 19, r + 1);
    }
  }

  lemma FourHundredthYear(year: nat)
    requires year >= 1970
    ensures (year - 1600) / 400 == (year - 1601) / 400 + (if year % 400 == 0 then 1 else 0)
  {
    var q, r := (year - 1601) / 400, (year - 1601) % 400;
    if r == 399 {
      Quotient400(year - 1600, q + 1, 0);
      Quotient400(year, q + 5, 0);
    } else {
      Quotient400(year - 1600, q, r + 1);
      Quotient400(year, q + 4, r + 1);
    }
  }

  lemma MultiplesNest(year: nat)
    ensures year % 400 == 0 ==> year % 100 == 0
    ensures year % 100 == 0 ==> year % 4 == 0
  {
    if year % 400 == 0 { Quotient100(year, 4 * (year / 400), 0); }
    if year % 100 == 0 { Quotient4(year, 25 * (year / 100), 0); }
  }

  lemma LeapYearsStep(year: nat)
    requires year >= 1970
    ensures LeapYears(year + 1) == LeapYears(year) + (if IsLeapYear(year) then 1 else 0)
  {
    FourthYear(year);
    HundredthYear(year);
    FourHundredthYear(year);
    MultiplesNest(year);
    assert LeapYears(year + 1) == (year - 1968) / 4 - (year - 1900) / 100 + (year - 1600) / 400;
  }

  /** The closed formula counts the leap years from 1970 on. */
  lemma {:induction false} LeapYearsCount(year: nat)
    requires year >= 1970
    ensures LeapYears(year) >= 0
    ensures DaysBeforeYear(year) == 365 * (year - 1970) + LeapYears(year)
    decreases year
  {
    if year > 1970 {
      LeapYearsCount(year - 1);
      LeapYearsStep(year - 1);
    }
  }

  // ---------- The conversion ----------

  /** The latest second count whose year estimate still fits in 16 bits. */
  const MAX_SECONDS: nat := 63566 * 31536000

  const SECONDS_PER_MONTH: seq<nat> :=
    [31 * 86400, 28 * 86400, 31 * 86400, 30 * 86400, 31 * 86400, 30 * 86400,
     31 * 86400, 31 * 86400, 30 * 86400, 31 * 86400, 30 * 86400, 31 * 86400]

  function YearStart(year: nat): nat
    requires year >= 1970
  {
    DaysBeforeYear(year) * 86400
  }

  /** The year search: an estimate that is never too early, corrected backwards. */
  method FindYear(time: nat) returns (year: nat, second: nat)
    requires time < MAX_SECONDS
    ensures 1970 <= year < 0x1_0000
    ensures YearStart(year) <= time < YearStart(year + 1)
    ensures second == time - YearStart(year)
  {
    hide DaysBeforeYear, LeapYears;
    second := time;
    year := 1970 + second / SECONDS_IN_365_DAY_YEAR;
    ghost var estimate := year;
    EstimateBound(time);
    LeapYearsCount(year);
    LeapYearsIs(year);
    var leaps := (year - (1970 - 1970 % 4 + 1)) / 4
               - (year - (1970 - 1970 % 100 + 1)) / 100
               + (year - (1970 - 1970 % 400 + 1)) / 400;
    second := second - (year - 1970) * SECONDS_IN_365_DAY_YEAR;
    YearStep(year);
    if second >= leaps * SECONDS_IN_A_DAY {
      second := second - leaps * SECONDS_IN_A_DAY;
    } else {
      while true
        invariant 1970 <= year <= estimate
        invariant second - leaps * SECONDS_IN_A_DAY == time - YearStart(year)
        invariant second < leaps * SECONDS_IN_A_DAY
        decreases year
      {
        YearZero(year);
        YearStep(year - 1);
        second := second + SECONDS_IN_365_DAY_YEAR;
        year := year - 1;
        if IsLeapYear(year) {
          second := second + SECONDS_IN_A_DAY;
        }
        if !(second < leaps * SECONDS_IN_A_DAY) {
          break;
        }
      }
      second := second - leaps * SECONDS_IN_A_DAY;
    }
  }

  lemma EstimateBound(time: nat)
    requires time < MAX_SECONDS
    ensures time / 31536000 <= 63565
    ensures 0 <= time - (time / 31536000) * 31536000 < 31536000
  {
  }

  lemma LeapYearsIs(year: nat)
    requires year >= 1970
    ensures LeapYears(year) == (year - (1970 - 1970 % 4 + 1)) / 4
                             - (year - (1970 - 1970 % 100 + 1)) / 100
                             + (year - (1970 - 1970 % 400 + 1)) / 400
  {
  }

  lemma YearStep(year: nat)
    requires year >= 1970
    ensures YearStart(year + 1) == YearStart(year) + 31536000 + (if IsLeapYear(year) then 86400 else 0)
  {
  }

  lemma YearZero(year: nat)
    requires year >= 1970
    ensures YearStart(year) > 0 ==> year > 1970
  {
  }

  /** Peel a year's remaining seconds into month, day and time. */
  method SplitYear(year: nat, secondOfYear: nat) returns (d: DateTime)
    requires year >= 1970 && secondOfYear < YearDays(year) * 86400
    ensures d.Valid() && d.year == year
    ensures Seconds(d) == YearStart(year) + secondOfYear
  {
    hide DaysBeforeYear, DaysBeforeMonth, IsLeapYear;
    var second := secondOfYear;
    var isALeapYear := IsLeapYear(year);
    var month := 1;
    var a := 0;
    FirstMonth(year);
    TwelveMonths(year);
    while a < 12
      invariant 0 <= a <= 12 && month == a + 1
      invariant 0 <= second && second + DaysBeforeMonth(year, month) * 86400 == secondOfYear
    {
      NextMonth(year, month);
      var secondsPerMonth := SECONDS_PER_MONTH[a];
      if a == 1 && isALeapYear {
        secondsPerMonth := secondsPerMonth + SECONDS_IN_A_DAY;
      }
      assert secondsPerMonth == MonthDays(year, month) * 86400;
      if second >= secondsPerMonth {
        second := second - secondsPerMonth;
        month := month + 1;
      } else {
        break;
      }
      a := a + 1;
    }
    assert month <= 12 && second < MonthDays(year, month) * 86400;
    ghost var secondOfMonth := second;
    var day := second / SECONDS_IN_A_DAY;
    second := second - day * SECONDS_IN_A_DAY;
    day := day + 1;
    var hour := second / 3600;
    second := second - hour * 3600;
    var minute := second / 60;
    second := second - minute * 60;
    d := DateTime(year, month, day, hour, minute, second);
    assert (day - 1) * 86400 + hour * 3600 + minute * 60 + second == secondOfMonth;
  }

  lemma FirstMonth(year: nat)
    ensures DaysBeforeMonth(year, 1) == 0
  {
  }

  lemma NextMonth(year: nat, month: nat)
    requires 1 <= month <= 12
    ensures DaysBeforeMonth(year, month + 1) == DaysBeforeMonth(year, month) + MonthDays(year, month)
  {
  }

  /** The calendar part of the conversion: the fields denote the time exactly. */
  method CalendarFields(time: nat) returns (d: DateTime)
    requires time < MAX_SECONDS
    ensures d.Valid() && d.year < 0x1_0000 && Seconds(d) == time
  {
    hide DaysBeforeYear;
    var year, second := FindYear(time);
    YearStep(year);
    d := SplitYear(year, second);
  }

  // ---------- The calendar in closed form ----------

  const DAYS_BEFORE: seq<nat> := [0, 31, 59, 90, 120, 151, 181, 212, 243, 273, 304, 334, 365]

  lemma DaysBeforeMonthIs(year: nat, month: nat)
    requires 1 <= month <= 13
    ensures DaysBeforeMonth(year, month)
         == DAYS_BEFORE[month - 1]
            + (if month > 2 && (year % 400 == 0 || (year % 100 != 0 && year % 4 == 0)) then 1 else 0)
  {
    assert DaysBeforeMonth(year, 1) == 0 && DaysBeforeMonth(year, 2) == 31;
    var feb := DaysBeforeMonth(year, 3);
    assert feb == 31 + MonthDays(year, 2);
    assert DaysBeforeMonth(year, 4) == feb + 31 && DaysBeforeMonth(year, 5) == feb + 61;
    assert DaysBeforeMonth(year, 6) == feb + 92 && DaysBeforeMonth(year, 7) == feb + 122;
    assert DaysBeforeMonth(year, 8) == feb + 153 && DaysBeforeMonth(year, 9) == feb + 184;
    assert DaysBeforeMonth(year, 10) == feb + 214 && DaysBeforeMonth(year, 11) == feb + 245;
    assert DaysBeforeMonth(year, 12) == feb + 275 && DaysBeforeMonth(year, 13) == feb + 306;
  }

  /** The second count of a date-time, with nothing left to look up. */
  lemma SecondsAre(d: DateTime)
    requires d.Valid()
    ensures Seconds(d)
         == (365 * (d.year - 1970) + (d.year - 1969) / 4 - (d.year - 1901) / 100 + (d.year - 1601) / 400
             + DAYS_BEFORE[d.month - 1]
             + (if d.month > 2 && (d.year % 400 == 0 || (d.year % 100 != 0 && d.year % 4 == 0)) then 1 else 0)
             + d.day - 1) * 86400
            + d.hour * 3600 + d.minute * 60 + d.second
  {
    LeapYearsCount(d.year);
    DaysBeforeMonthIs(d.year, d.month);
    hide DaysBeforeYear, DaysBeforeMonth;
  }

  /** When a date-time is valid. */
  lemma ValidIs(d: DateTime)
    ensures d.Valid() <==>
            && 1970 <= d.year && 1 <= d.month <= 12 && d.hour < 24 && d.minute < 60 && d.second < 60 && 1 <= d.day
            && d.day <= (if d.month in {4, 6, 9, 11} then 30
                         else if d.month != 2 then 31
                         else if d.year % 400 == 0 || (d.year % 100 != 0 && d.year % 4 == 0) then 29
                         else 28)
  {
  }
}
