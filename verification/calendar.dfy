/** Dates as day numbers, the proleptic Gregorian calendar that maps a year,
    month and day to a day number, weekdays, and the inclusive `DateRange`
    value type with its containment, intersection and clamping operations. */
module Calendar {

  /** A day number as Python's `date.toordinal()`: 0001-01-01 is day 1, a Monday. */
  type Date = int

  predicate IsLeap(y: int) {
    y % 4 == 0 && (y % 100 != 0 || y % 400 == 0)
  }

  function DaysInMonth(y: int, m: int): int
    requires 1 <= m <= 12
  {
    if m == 2 then (if IsLeap(y) then 29 else 28)
    else if m == 4 || m == 6 || m == 9 || m == 11 then 30
    else 31
  }

  /** The year, month and day values Python's `date` constructor accepts. */
  predicate ValidDate(y: int, m: int, d: int) {
    1 <= y <= 9999 && 1 <= m <= 12 && 1 <= d <= DaysInMonth(y, m)
  }

  function DaysBeforeYear(y: int): int
    requires y >= 1
  {
    var p := y - 1;
    p * 365 + p / 4 - p / 100 + p / 400
  }

  function DaysBeforeMonth(y: int, m: int): int
    requires 1 <= m <= 12
  {
    var table := [0, 31, 59, 90, 120, 151, 181, 212, 243, 273, 304, 334];
    table[m - 1] + (if m > 2 && IsLeap(y) then 1 else 0)
  }

  /** The day number of a valid calendar date. */
  function DayNumber(y: int, m: int, d: int): (r: Date)
    requires ValidDate(y, m, d)
    ensures r >= 1
  {
    DaysBeforeYear(y) + DaysBeforeMonth(y, m) + d
  }

  /** The calendar date after a valid one (the last representable date has none). */
  function Successor(y: int, m: int, d: int): (r: (int, int, int))
    requires ValidDate(y, m, d)
    requires !(y == 9999 && m == 12 && d == 31)
    ensures ValidDate(r.0, r.1, r.2)
  {
    if d < DaysInMonth(y, m) then (y, m, d + 1)
    else if m < 12 then (y, m + 1, 1)
    else (y + 1, 1, 1)
  }

  lemma YearLength(y: int)
    requires y >= 1
    ensures DaysBeforeYear(y + 1) == DaysBeforeYear(y) + (if IsLeap(y) then 366 else 365)
  {
    var p := y - 1;
    assert y / 4 - p / 4 == (if y % 4 == 0 then 1 else 0);
    assert y / 100 - p / 100 == (if y % 100 == 0 then 1 else 0);
    assert y / 400 - p / 400 == (if y % 400 == 0 then 1 else 0);
    if y % 100 == 0 {
      assert y % 4 == 0;
    }
    if y % 400 == 0 {
      assert y % 100 == 0;
    }
  }

  /** Day numbers have no gaps: the day after a date is numbered one higher,
      across month and year ends too. */
  lemma DayNumberSuccessor(y: int, m: int, d: int)
    requires ValidDate(y, m, d)
    requires !(y == 9999 && m == 12 && d == 31)
    ensures var (y', m', d') := Successor(y, m, d); DayNumber(y', m', d') == DayNumber(y, m, d) + 1
  {
    if d == DaysInMonth(y, m) && m == 12 {
      YearLength(y);
    }
  }

  /** Python's `date.weekday()`: Monday is 0 and Sunday is 6. */
  function Weekday(d: Date): int {
    (d + 6) % 7
  }

  /** Monday to Friday. */
  predicate IsWeekday(d: Date) {
    Weekday(d) < 5
  }

  /** `monday_of_week`: the Monday on or before `d`. */
  function Monday(d: Date): (m: Date)
    ensures Weekday(m) == 0
    ensures m <= d < m + 7
  {
    d - Weekday(d)
  }

  /** Inside a week the weekday counts the days since its Monday. */
  lemma WeekdayInWeek(m: Date, k: int)
    requires Weekday(m) == 0 && 0 <= k < 7
    ensures Weekday(m + k) == k
    ensures Monday(m + k) == m
  {
  }

  /** Distinct Mondays are at least a week apart. */
  lemma MondaysApart(m1: Date, m2: Date)
    requires Weekday(m1) == 0 && Weekday(m2) == 0 && m1 < m2
    ensures m1 + 7 <= m2
  {
  }

  /** A week after a Monday is a Monday. */
  lemma NextMonday(m: Date)
    requires Weekday(m) == 0
    ensures Weekday(m + 7) == 0
  {
  }

  lemma MondayMonotone(a: Date, b: Date)
    requires a <= b
    ensures Monday(a) <= Monday(b)
  {
    if Monday(b) < Monday(a) {
      MondaysApart(Monday(b), Monday(a));
    }
  }

  /** The first day of classes of Fall 2025 is printed as a Monday. */
  lemma August25th2025IsMonday()
    ensures Weekday(DayNumber(2025, 8, 25)) == 0
  {
  }

  /** An inclusive date interval. As in the importer, nothing forces `start <= end`. */
  datatype DateRange = DateRange(start: Date, end: Date) {

    predicate Contains(d: Date) {
      start <= d <= end
    }

    predicate Intersects(other: DateRange) {
      !(end < other.start || other.end < start)
    }

    /** The part of this range inside `[lo, hi]`: exactly the days both
        contain. It is non-empty exactly when both ranges are non-empty and
        intersect. */
    function Clamp(lo: Date, hi: Date): (r: DateRange)
      ensures lo <= r.start && r.end <= hi
      ensures start <= r.start && r.end <= end
      ensures forall d :: r.Contains(d) <==> Contains(d) && lo <= d <= hi
      ensures r.start <= r.end <==> start <= end && lo <= hi && Intersects(DateRange(lo, hi))
    {
      DateRange(if start < lo then lo else start, if end < hi then end else hi)
    }
  }

  /** For non-empty ranges, intersecting means sharing a day. */
  lemma IntersectsIffCommonDay(a: DateRange, b: DateRange)
    requires a.start <= a.end && b.start <= b.end
    ensures a.Intersects(b) <==> exists d :: a.Contains(d) && b.Contains(d)
  {
    if a.Intersects(b) {
      var d := if a.start < b.start then b.start else a.start;
      assert a.Contains(d) && b.Contains(d);
    }
  }

  /** `daterange_inclusive`: the days from `start` to `end`, in order. */
  function DaysInclusive(start: Date, end: Date): (r: seq<Date>)
    ensures |r| == if start <= end then end - start + 1 else 0
    ensures forall i :: 0 <= i < |r| ==> r[i] == start + i
    decreases end - start
  {
    if start > end then [] else [start] + DaysInclusive(start + 1, end)
  }

  /** The generated days are exactly the days of the range. */
  lemma DaysInclusiveMembers(start: Date, end: Date, d: Date)
    ensures d in DaysInclusive(start, end) <==> DateRange(start, end).Contains(d)
  {
    var r := DaysInclusive(start, end);
    if start <= d <= end {
      assert r[d - start] == d;
    }
  }

  /** An all-day event as the calendar service stores it: the end is exclusive. */
  datatype AllDaySpan = AllDaySpan(start: Date, endExclusive: Date)

  /** `to_google_allday`: the half-open span covers the same days as the
      inclusive range it comes from. */
  function ToAllDay(start: Date, endInclusive: Date): (r: AllDaySpan)
    ensures r.start == start
    ensures forall d :: r.start <= d < r.endExclusive <==> DateRange(start, endInclusive).Contains(d)
  {
    AllDaySpan(start, endInclusive + 1)
  }
}
