/**
  The date conversion of src/kernel/drivers/rtc.c (the seconds-since-the-Epoch formula of
  section 4.16 of POSIX.1-2017 Base Definitions) against a calendar counted year by year
  and month by month.
*/
module Rtc {
  import opened Common

  const SECONDS_IN_DAY: nat := 86400

  /** date_t, with century and year put together. */
  datatype Date = Date(year: nat, month: nat, day: nat, hour: nat, minute: nat, second: nat)

  // ---------- The calendar ----------

  predicate IsLeap(y: nat) {
    y % 4 == 0 && (y % 100 != 0 || y % 400 == 0)
  }

  function DaysInMonth(y: nat, m: nat): nat {
    if m == 2 then (if IsLeap(y) then 29 else 28)
    else if m == 4 || m == 6 || m == 9 || m == 11 then 30
    else 31
  }

  /** Leap years from 1970 up to, but not including, y. */
  function LeapYears(y: nat): nat {
    if y <= 1970 then 0 else LeapYears(y - 1) + (if IsLeap(y - 1) then 1 else 0)
  }

  /** Days from the Epoch to the first of January of y. */
  function DaysToYear(y: nat): nat {
    if y <= 1970 then 0 else DaysToYear(y - 1) + (if IsLeap(y - 1) then 366 else 365)
  }

  /** Days from the first of January to the first of month m. */
  function DaysToMonth(y: nat, m: nat): nat {
    if m <= 1 then 0 else DaysToMonth(y, m - 1) + DaysInMonth(y, m - 1)
  }

  /** Seconds since the Epoch, leap seconds ignored. */
  function CalendarSeconds(d: Date): int {
    (DaysToYear(d.year) + DaysToMonth(d.year, d.month) + d.day - 1) * SECONDS_IN_DAY + d.hour * 3600 +
        d.minute * 60 + d.second
  }

  /** Twelve months make a year. */
  lemma MonthsMakeAYear(y: nat)
    ensures DaysToMonth(y, 13) == if IsLeap(y) then 366 else 365
    ensures y >= 1970 ==> DaysToYear(y + 1) == DaysToYear(y) + DaysToMonth(y, 13)
  {
    assert DaysToMonth(y, 2) == 31 && DaysToMonth(y, 3) == 31 + DaysInMonth(y, 2);
    assert DaysToMonth(y, 4) == DaysToMonth(y, 3) + 31 && DaysToMonth(y, 5) == DaysToMonth(y, 4) + 30;
    assert DaysToMonth(y, 6) == DaysToMonth(y, 5) + 31 && DaysToMonth(y, 7) == DaysToMonth(y, 6) + 30;
    assert DaysToMonth(y, 8) == DaysToMonth(y, 7) + 31 && DaysToMonth(y, 9) == DaysToMonth(y, 8) + 31;
    assert DaysToMonth(y, 10) == DaysToMonth(y, 9) + 30 && DaysToMonth(y, 11) == DaysToMonth(y, 10) + 31;
    assert DaysToMonth(y, 12) == DaysToMonth(y, 11) + 30 && DaysToMonth(y, 13) == DaysToMonth(y, 12) + 31;
  }

  // ---------- The closed form ----------

  /** The three leap-year terms, as a number of days; the argument is years since 1900. */
  function LeapTerms(t: nat): int
    requires t >= 70
  {
    (t - 69) / 4 - (t - 1) / 100 + (t + 299) / 400
  }

  lemma LeapStep(y: nat)
    requires y >= 1970
    ensures LeapTerms(y + 1 - 1900) == LeapTerms(y - 1900) + (if IsLeap(y) then 1 else 0)
  {
    Divides(y);
    Quarters(y - 1900);
    Centuries(y - 1900);
    Cycles(y - 1900);
  }

  lemma Divides(y: nat)
    ensures (y % 400 == 0 ==> y % 100 == 0) && (y % 100 == 0 ==> y % 4 == 0)
  {
    if y % 400 == 0 {
      assert y == 100 * (4 * (y / 400));
    }
    if y % 100 == 0 {
      assert y == 4 * (25 * (y / 100));
    }
  }

  lemma Quarters(t: nat)
    requires t >= 70
    ensures (t + 1 - 69) / 4 == (t - 69) / 4 + (if (t + 1900) % 4 == 0 then 1 else 0)
  {
  }

  lemma Centuries(t: nat)
    requires t >= 70
    ensures (t + 1 - 1) / 100 == (t - 1) / 100 + (if (t + 1900) % 100 == 0 then 1 else 0)
  {
  }

  lemma Cycles(t: nat)
    requires t >= 70
    ensures (t + 1 + 299) / 400 == (t + 299) / 400 + (if (t + 1900) % 400 == 0 then 1 else 0)
  {
  }

  /** For every year from 1970 the closed form counts the leap years one by one. */
  lemma {:induction false} LeapTermsCount(y: nat)
    requires y >= 1970
    ensures LeapTerms(y - 1900) == LeapYears(y)
  {
    if y == 1970 {
    } else {
      LeapTermsCount(y - 1);
      LeapStep(y - 1);
    }
  }

  lemma {:induction false} DaysAreYearsAndLeaps(y: nat)
    requires y >= 1970
    ensures DaysToYear(y) == (y - 1970) * 365 + LeapYears(y)
  {
    if y == 1970 {
    } else {
      DaysAreYearsAndLeaps(y - 1);
    }
  }

  const DAYS_IN_MONTH: seq<nat> := [31, 28, 31, 30, 31, 30, 31, 31, 30, 31, 30, 31]

  /** rtc_convert_month_to_days: always the calendar of a common year. */
  method MonthToDays(month: nat) returns (days: nat)
    requires month <= 12
    ensures days == DaysToMonth(1970, month)
  {
    days := 0;
    var i := 0;
    while i < month - 1
      invariant 0 <= i && (i <= month - 1 || (i == 0 && month == 0)) && days == DaysToMonth(1970, i + 1)
    {
      days := days + DAYS_IN_MONTH[i];
      i := i + 1;
    }
  }

  /** The table is short by one day behind the February of a leap year, and right otherwise. */
  lemma {:induction false} MonthTable(y: nat, m: nat)
    ensures DaysToMonth(y, m) == DaysToMonth(1970, m) + (if IsLeap(y) && m > 2 then 1 else 0)
  {
    if m <= 1 {
    } else {
      MonthTable(y, m - 1);
    }
  }

  lemma AddWraps(a: int, b: int)
    ensures (a % TWO32 + b) % TWO32 == (a + b) % TWO32
  {
  }

  /** What the source computes before it is cut to 32 bits. */
  function Sum(start: nat, d: Date): int
    requires d.year >= 1970
  {
    start + d.second + d.minute * 60 + d.hour * 3600 + (d.day + DaysToMonth(1970, d.month) - 1) * SECONDS_IN_DAY +
    (d.year - 1970) * 365 * SECONDS_IN_DAY + LeapTerms(d.year - 1900) * SECONDS_IN_DAY
  }

  /** A difference of unsigned 32-bit numbers. */
  function Sub32(a: nat, b: nat): (r: nat)
    requires a < TWO32 && b < TWO32
    ensures r < TWO32 && (b <= a ==> r == a - b)
  {
    (a + TWO32 - b) % TWO32
  }

  /** The part of the conversion that depends on the year. */
  method AddYears(epoch0: nat, ghost sum: int, tmYear: nat) returns (epoch: nat)
    requires epoch0 == sum % TWO32 && tmYear < TWO32
    ensures 70 <= tmYear < TWO32 - 299 ==>
              epoch == (sum + (tmYear - 70) * 365 * SECONDS_IN_DAY + LeapTerms(tmYear) * SECONDS_IN_DAY) % TWO32
  {
    var years := Sub32(tmYear, 70) * 365;
    var fours, hundreds := Sub32(tmYear, 69) / 4, Sub32(tmYear, 1) / 100;
    var cycles := (tmYear + 299) % TWO32 / 400;
    epoch := Add32(epoch0, sum, years * SECONDS_IN_DAY);
    ghost var s1 := sum + years * SECONDS_IN_DAY;
    epoch := Add32(epoch, s1, fours * SECONDS_IN_DAY);
    ghost var s2 := s1 + fours * SECONDS_IN_DAY;
    epoch := Add32(epoch, s2, -(hundreds * SECONDS_IN_DAY));
    ghost var s3 := s2 - hundreds * SECONDS_IN_DAY;
    epoch := Add32(epoch, s3, cycles * SECONDS_IN_DAY);
    if 70 <= tmYear < TWO32 - 299 {
      assert years == (tmYear - 70) * 365 && fours - hundreds + cycles == LeapTerms(tmYear);
    }
  }

  /** rtc_convert_date_to_time, every addition in 32 bits; right for years from 1970 on. */
  method ConvertDateToTime(d: Date, start: nat) returns (epoch: nat)
    requires d.year < TWO32 - 299 && 1 <= d.month <= 12 && start < TWO32
    ensures d.year >= 1970 ==>
              && epoch == Sum(start, d) % TWO32
              && epoch == (start + CalendarSeconds(d) - (if IsLeap(d.year) &&
                  d.month > 2 then SECONDS_IN_DAY else 0)) % TWO32
  {
    epoch := Add32(start, start, d.second);
    epoch := Add32(epoch, start + d.second, d.minute * 60);
    epoch := Add32(epoch, start + d.second + d.minute * 60, d.hour * 3600);
    var days := MonthToDays(d.month);
    var yday := d.day + days - 1;
    ghost var sum := start + d.second + d.minute * 60 + d.hour * 3600;
    epoch := Add32(epoch, sum, yday * SECONDS_IN_DAY);
    epoch := AddYears(epoch, sum + yday * SECONDS_IN_DAY, Sub32(d.year, 1900));
    if d.year >= 1970 {
      SumIsCalendar(start, d);
    }
  }

  /** One 32-bit addition or subtraction, on top of an exact sum cut to 32 bits. */
  method Add32(acc: nat, ghost sum: int, x: int) returns (r: nat)
    requires acc == sum % TWO32
    ensures r == (sum + x) % TWO32
  {
    AddWraps(sum, x);
    r := (acc + x) % TWO32;
  }

  /** The sum is the calendar's, except for the day that the month table misses. */
  lemma SumIsCalendar(start: nat, d: Date)
    requires d.year >= 1970
    ensures Sum(start, d) == start + CalendarSeconds(d) - (if IsLeap(d.year) && d.month > 2 then SECONDS_IN_DAY else 0)
  {
    LeapTermsCount(d.year);
    DaysAreYearsAndLeaps(d.year);
    MonthTable(d.year, d.month);
  }

  /**
    Modulo 2^32, one conversion from the initial value 4 gives the calendar's seconds plus 4
    exactly for dates in a common year or before March.
  */
  lemma RightIffNoLeapDayMissed(d: Date)
    requires d.year >= 1970
    ensures Sum(4, d) % TWO32 == (CalendarSeconds(d) + 4) % TWO32 <==> !(IsLeap(d.year) && d.month > 2)
  {
    SumIsCalendar(4, d);
    AddWraps(CalendarSeconds(d) + 4, -86400);
  }

  /** The first of March 2024 comes out a day early. */
  lemma MarchFirst2024IsADayEarly()
    ensures Sum(4, Date(2024, 3, 1, 0, 0, 0)) == CalendarSeconds(Date(2024, 3, 1, 0, 0, 0)) + 4 - SECONDS_IN_DAY
    ensures Sum(4, Date(2024, 3, 1, 0, 0, 0)) % TWO32 != (CalendarSeconds(Date(2024, 3, 1, 0, 0, 0)) + 4) % TWO32
  {
    var d := Date(2024, 3, 1, 0, 0, 0);
    SumIsCalendar(4, d);
    RightIffNoLeapDayMissed(d);
  }
}
