/**
 * The proleptic Gregorian calendar the journal's clock reads come from: the
 * days-in-month rule, stepping a date forward and back by whole days (what
 * adding a `chrono::Duration::days` does to a local date), the day of the
 * week, and the Monday-to-Sunday week around a date.
 */
module Calendar {

  datatype Date = Date(year: int, month: nat, day: nat)

  /** A clock reading: a calendar date and a time of day. */
  datatype DateTime = DateTime(date: Date, hour: nat, minute: nat, second: nat)

  /** Gregorian leap years: every fourth year, except centuries not divisible by 400. */
  predicate IsLeapYear(year: int) {
    (year % 4 == 0 && year % 100 != 0) || year % 400 == 0
  }

  /**
   * The days-in-month table of the week query, including its fallback of 30
   * for a month number outside 1..12.
   */
  function DaysInMonth(month: nat, year: int): (n: nat)
    ensures 1 <= month <= 12 ==> 28 <= n <= 31
  {
    match month
    case 1 | 3 | 5 | 7 | 8 | 10 | 12 => 31
    case 4 | 6 | 9 | 11 => 30
    case 2 => if IsLeapYear(year) then 29 else 28
    case _ => 30
  }

  predicate ValidDate(d: Date) {
    1 <= d.month <= 12 && 1 <= d.day <= DaysInMonth(d.month, d.year)
  }

  /** What a clock can report: a real date and a time of day within it. */
  predicate ValidDateTime(t: DateTime) {
    ValidDate(t.date) && t.hour < 24 && t.minute < 60 && t.second < 60
  }

  /** The month after `month` of `year`, as a (year, month) pair. */
  function NextMonth(year: int, month: nat): (int, nat) {
    if month < 12 then (year, month + 1) else (year + 1, 1)
  }

  function NextDay(d: Date): Date {
    if d.day < DaysInMonth(d.month, d.year) then Date(d.year, d.month, d.day + 1)
    else
      var (y, m) := NextMonth(d.year, d.month);
      Date(y, m, 1)
  }

  function PrevDay(d: Date): Date {
    if d.day > 1 then Date(d.year, d.month, d.day - 1)
    else if d.month > 1 then Date(d.year, d.month - 1, DaysInMonth(d.month - 1, d.year))
    else Date(d.year - 1, 12, 31)
  }

  /** `d` moved by `n` whole days, forward for positive `n` and back for negative. */
  function AddDays(d: Date, n: int): Date
    decreases if n < 0 then -n else n
  {
    if n == 0 then d
    else if n > 0 then AddDays(NextDay(d), n - 1)
    else AddDays(PrevDay(d), n + 1)
  }

  /** Days from the epoch to 1 March of `y` in the March-based count. */
  function MarchStart(y: int): int {
    365 * y + y / 4 - y / 100 + y / 400
  }

  /** Days from 1 March to the first of the month `mp` months later. */
  function DaysBefore(mp: nat): nat {
    match mp
    case 0 => 0
    case 1 => 31
    case 2 => 61
    case 3 => 92
    case 4 => 122
    case 5 => 153
    case 6 => 184
    case 7 => 214
    case 8 => 245
    case 9 => 275
    case 10 => 306
    case _ => 337
  }

  /**
   * Days since a fixed epoch, counting years from 1 March so that the leap
   * day falls at the end (an independent reference for the day-stepping).
   */
  function DayNumber(d: Date): int {
    var y := if d.month <= 2 then d.year - 1 else d.year;
    var mp := if d.month > 2 then d.month - 3 else d.month + 9;
    MarchStart(y) + DaysBefore(mp) + d.day - 1
  }

  /** `weekday().num_days_from_monday()`: 0 for Monday up to 6 for Sunday. */
  function Weekday(d: Date): (w: nat)
    ensures w < 7
  {
    (DayNumber(d) + 2) % 7
  }

  /** The Monday on or before `d`. */
  function WeekStart(d: Date): Date {
    AddDays(d, -(Weekday(d) as int))
  }

  /** The seven dates Monday through Sunday of the week holding `d`. */
  function WeekDates(d: Date): seq<Date> {
    var start := WeekStart(d);
    seq(7, i => AddDays(start, i))
  }

  /** The days `lo..=hi` of one month, in order; empty when `hi < lo`. */
  function DayRange(year: int, month: nat, lo: nat, hi: nat): (r: seq<Date>)
    ensures |r| == if hi < lo then 0 else hi - lo + 1
    ensures forall i :: 0 <= i < |r| ==> r[i] == Date(year, month, lo + i)
  {
    if hi < lo then [] else seq(hi - lo + 1, i requires 0 <= i => Date(year, month, lo + i))
  }

  /** Inside one month, `lo..=hi` visits real dates, each the day after the one before. */
  lemma DayRangeValid(year: int, month: nat, lo: nat, hi: nat)
    requires 1 <= month <= 12 && 1 <= lo && hi <= DaysInMonth(month, year)
    ensures var r := DayRange(year, month, lo, hi);
      && (forall i :: 0 <= i < |r| ==> ValidDate(r[i]))
      && (forall i :: 0 <= i < |r| - 1 ==> r[i + 1] == NextDay(r[i]))
  {
  }

  /**
   * The dates the week query visits, in its order: the days from Monday to
   * Sunday of one month, or, when the week crosses a month boundary, the
   * rest of Monday's month followed by the start of Sunday's month.
   */
  function WeekVisits(d: Date): seq<Date> {
    var start := WeekStart(d);
    SpanVisits(start, AddDays(start, 6))
  }

  /** The dates visited from `start` to `end`, by the rule above. */
  function SpanVisits(start: Date, end: Date): seq<Date> {
    if start.year == end.year && start.month == end.month then
      DayRange(start.year, start.month, start.day, end.day)
    else
      DayRange(start.year, start.month, start.day, DaysInMonth(start.month, start.year))
      + DayRange(end.year, end.month, 1, end.day)
  }

  /** February has 29 days exactly in leap years; every other month has a fixed length. */
  lemma FebruaryLength(year: int)
    ensures DaysInMonth(2, year) == 29 <==> IsLeapYear(year)
    ensures DaysInMonth(2, year) == 28 <==> !IsLeapYear(year)
  {
  }

  function YearLength(year: int): nat {
    DaysInMonth(1, year) + DaysInMonth(2, year) + DaysInMonth(3, year) + DaysInMonth(4, year)
    + DaysInMonth(5, year) + DaysInMonth(6, year) + DaysInMonth(7, year) + DaysInMonth(8, year)
    + DaysInMonth(9, year) + DaysInMonth(10, year) + DaysInMonth(11, year) + DaysInMonth(12, year)
  }

  /** The twelve months add up to 366 days in a leap year and 365 otherwise. */
  lemma YearLengthRule(year: int)
    ensures YearLength(year) == if IsLeapYear(year) then 366 else 365
  {
  }

  lemma NextDayValid(d: Date)
    requires ValidDate(d)
    ensures ValidDate(NextDay(d))
  {
  }

  lemma PrevDayValid(d: Date)
    requires ValidDate(d)
    ensures ValidDate(PrevDay(d))
  {
  }

  /** Stepping back a day and then forward again returns to the same date. */
  lemma NextOfPrev(d: Date)
    requires ValidDate(d)
    ensures NextDay(PrevDay(d)) == d
  {
  }

  /** `y / k` goes up by one from `y - 1` exactly when `k` divides `y`. */
  lemma DivStep(y: int, k: int)
    requires k == 4 || k == 100 || k == 400
    ensures y / k - (y - 1) / k == if y % k == 0 then 1 else 0
  {
    var q, r := y / k, y % k;
    assert y == k * q + r && 0 <= r < k;
    if r == 0 {
      assert y - 1 == k * (q - 1) + (k - 1);
    } else {
      assert y - 1 == k * q + (r - 1);
    }
  }

  /** The number of days the leap rule puts between 1 March of `y - 1` and of `y`. */
  lemma LeapStep(y: int)
    ensures MarchStart(y) - MarchStart(y - 1) == if IsLeapYear(y) then 366 else 365
  {
    DivStep(y, 4);
    DivStep(y, 100);
    DivStep(y, 400);
    DivisorChain(y);
  }

  /** A multiple of `k * c` is a multiple of `c`. */
  lemma MultipleOf(y: int, k: int, c: int)
    requires (k, c) == (4, 100) || (k, c) == (25, 4)
    requires y % (k * c) == 0
    ensures y % c == 0
  {
    var q := y / (k * c);
    assert y == c * (k * q);
  }

  /** A multiple of 400 is one of 100, and a multiple of 100 is one of 4. */
  lemma DivisorChain(y: int)
    ensures y % 400 == 0 ==> y % 100 == 0
    ensures y % 100 == 0 ==> y % 4 == 0
  {
    if y % 400 == 0 {
      MultipleOf(y, 4, 100);
    }
    if y % 100 == 0 {
      MultipleOf(y, 25, 4);
    }
  }

  /** The day count and the day-stepping agree: the next day is one day later. */
  lemma DayNumberNext(d: Date)
    requires ValidDate(d)
    ensures DayNumber(NextDay(d)) == DayNumber(d) + 1
  {
    if d.day == DaysInMonth(d.month, d.year) {
      MonthEndNext(d.year, d.month);
    }
  }

  /** From the last day of a month to the first of the next is one day in the count. */
  lemma MonthEndNext(year: int, month: nat)
    requires 1 <= month <= 12
    ensures var last := Date(year, month, DaysInMonth(month, year));
      DayNumber(NextDay(last)) == DayNumber(last) + 1
  {
    if month == 2 {
      LeapStep(year);
    }
  }

  lemma DayNumberPrev(d: Date)
    requires ValidDate(d)
    ensures DayNumber(PrevDay(d)) == DayNumber(d) - 1
  {
    PrevDayValid(d);
    DayNumberNext(PrevDay(d));
    NextOfPrev(d);
  }

  /** Moving by `n` days gives a real date exactly `n` days away. */
  lemma {:induction false} AddDaysNumber(d: Date, n: int)
    requires ValidDate(d)
    ensures ValidDate(AddDays(d, n))
    ensures DayNumber(AddDays(d, n)) == DayNumber(d) + n
    decreases if n < 0 then -n else n
  {
    if n > 0 {
      NextDayValid(d);
      DayNumberNext(d);
      AddDaysNumber(NextDay(d), n - 1);
    } else if n < 0 {
      PrevDayValid(d);
      DayNumberPrev(d);
      AddDaysNumber(PrevDay(d), n + 1);
    }
  }

  lemma {:induction false} AddDaysForward(d: Date, k: nat)
    ensures AddDays(d, k + 1) == NextDay(AddDays(d, k))
    decreases k
  {
    if k > 0 {
      AddDaysForward(NextDay(d), k - 1);
    }
  }

  lemma {:induction false} AddDaysBackward(d: Date, k: nat)
    ensures AddDays(d, -(k as int + 1)) == PrevDay(AddDays(d, -(k as int)))
    decreases k
  {
    if k > 0 {
      AddDaysBackward(PrevDay(d), k - 1);
    }
  }

  /** Going back `k` days and forward `k` days returns to the same date. */
  lemma {:induction false} AddDaysUndo(d: Date, k: nat)
    requires ValidDate(d)
    ensures AddDays(AddDays(d, -(k as int)), k) == d
    decreases k
  {
    if k > 0 {
      var e := AddDays(d, -(k as int - 1));
      AddDaysNumber(d, -(k as int - 1));
      AddDaysBackward(d, k - 1);
      assert AddDays(d, -(k as int)) == PrevDay(e);
      PrevDayValid(e);
      NextOfPrev(e);
      assert AddDays(PrevDay(e), k) == AddDays(e, k - 1);
      AddDaysUndo(d, k - 1);
    }
  }

  /** The week starts on a Monday, no more than six days before `d`. */
  lemma WeekStartIsMonday(d: Date)
    requires ValidDate(d)
    ensures ValidDate(WeekStart(d)) && Weekday(WeekStart(d)) == 0
    ensures DayNumber(d) - 6 <= DayNumber(WeekStart(d)) <= DayNumber(d)
  {
    var w := Weekday(d);
    var start := WeekStart(d);
    AddDaysNumber(d, -(w as int));
    var n := DayNumber(d);
    assert DayNumber(start) == n - w;
    ModSevenShift(n + 2);
    assert Weekday(start) == (n - w + 2) % 7;
  }

  /** `d` is the day `Weekday(d)` days after the Monday of its week. */
  lemma WeekStartReachesDate(d: Date)
    requires ValidDate(d)
    ensures AddDays(WeekStart(d), Weekday(d)) == d
  {
    AddDaysUndo(d, Weekday(d));
  }

  /** The Monday and the Sunday of the week are real dates. */
  lemma WeekEnds(d: Date)
    requires ValidDate(d)
    ensures ValidDate(WeekStart(d)) && ValidDate(AddDays(WeekStart(d), 6))
  {
    WeekStartIsMonday(d);
    AddDaysNumber(WeekStart(d), 6);
  }

  /** Taking away its remainder leaves a multiple of seven. */
  lemma ModSevenShift(a: int)
    ensures (a - a % 7) % 7 == 0
  {
  }

  /** The week's dates are seven consecutive real days, `d` among them. */
  lemma WeekDatesConsecutive(d: Date)
    requires ValidDate(d)
    ensures |WeekDates(d)| == 7 && WeekDates(d)[Weekday(d)] == d
    ensures Weekday(WeekDates(d)[0]) == 0
    ensures forall i :: 0 <= i < 7 ==> ValidDate(WeekDates(d)[i])
    ensures forall i :: 0 <= i < 6 ==> WeekDates(d)[i + 1] == NextDay(WeekDates(d)[i])
  {
    WeekStartIsMonday(d);
    WeekStartReachesDate(d);
    var start := WeekStart(d);
    forall i | 0 <= i < 7
      ensures ValidDate(WeekDates(d)[i])
    {
      AddDaysNumber(start, i);
    }
    forall i | 0 <= i < 6
      ensures WeekDates(d)[i + 1] == NextDay(WeekDates(d)[i])
    {
      AddDaysForward(start, i);
    }
  }

  /** Within a month, moving forward `n` days only moves the day number. */
  lemma {:induction false} AddDaysWithinMonth(d: Date, n: nat)
    requires ValidDate(d) && d.day + n <= DaysInMonth(d.month, d.year)
    ensures AddDays(d, n) == Date(d.year, d.month, d.day + n)
    decreases n
  {
    if n > 0 {
      AddDaysWithinMonth(NextDay(d), n - 1);
    }
  }

  /** Moving forward past the end of the month, by less than four weeks, lands in the next month. */
  lemma {:induction false} AddDaysIntoNextMonth(d: Date, n: nat)
    requires ValidDate(d)
    requires DaysInMonth(d.month, d.year) < d.day + n <= DaysInMonth(d.month, d.year) + 28
    ensures AddDays(d, n) == Date(NextMonth(d.year, d.month).0, NextMonth(d.year, d.month).1,
                                  d.day + n - DaysInMonth(d.month, d.year))
    decreases n
  {
    if d.day < DaysInMonth(d.month, d.year) {
      AddDaysIntoNextMonth(NextDay(d), n - 1);
    } else {
      AddDaysWithinMonth(NextDay(d), n - 1);
    }
  }

  /**
   * The week query visits exactly the seven dates from Monday to Sunday, in
   * order, whether or not the week crosses into another month or year.
   */
  lemma WeekVisitsAreWeek(d: Date)
    requires ValidDate(d)
    ensures WeekVisits(d) == WeekDates(d)
  {
    WeekStartIsMonday(d);
    var start := WeekStart(d);
    var end := AddDays(start, 6);
    var dim := DaysInMonth(start.month, start.year);
    var visits, week := WeekVisits(d), WeekDates(d);
    if start.day + 6 <= dim {
      AddDaysWithinMonth(start, 6);
      forall i | 0 <= i < 7
        ensures visits[i] == week[i]
      {
        AddDaysWithinMonth(start, i);
      }
    } else {
      AddDaysIntoNextMonth(start, 6);
      assert !(start.year == end.year && start.month == end.month);
      var first := dim - start.day + 1;
      forall i | 0 <= i < 7
        ensures visits[i] == week[i]
      {
        if i < first {
          AddDaysWithinMonth(start, i);
        } else {
          AddDaysIntoNextMonth(start, i);
        }
      }
    }
  }

  /** 16 February 2026 is a Monday. */
  lemma WeekdayExample()
    ensures Weekday(Date(2026, 2, 16)) == 0
  {
  }

  /** 22 February 2026 is a Sunday. */
  lemma WeekdaySundayExample()
    ensures Weekday(Date(2026, 2, 22)) == 6
  {
  }

  /** 1 January 1970 is a Thursday. */
  lemma WeekdayEpochExample()
    ensures Weekday(Date(1970, 1, 1)) == 3
  {
  }

  /** The week of Friday 27 February 2026 runs from Monday 23 February to Sunday 1 March. */
  lemma WeekAcrossMonthExample()
    ensures WeekStart(Date(2026, 2, 27)) == Date(2026, 2, 23)
    ensures AddDays(Date(2026, 2, 23), 6) == Date(2026, 3, 1)
  {
    assert Weekday(Date(2026, 2, 27)) == 4;
    AddDaysUndo(Date(2026, 2, 23), 4);
    assert AddDays(Date(2026, 2, 27), -4) == Date(2026, 2, 23);
    AddDaysIntoNextMonth(Date(2026, 2, 23), 6);
  }
}
