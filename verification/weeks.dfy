/** Week labelling: every Monday-to-Friday window from the week of the first
    day of classes to the week of the last one becomes a "Week N" event
    spanning its first to its last instructional day, unless it has none;
    weeks with fewer than five instructional days are marked short. */
module Weeks {
  import opened Results
  import opened Strings
  import opened Calendar

  // ---------------------------------------------------------------------------
  // Instructional days
  // ---------------------------------------------------------------------------

  /** `is_blackout`: some blackout range contains the day. */
  predicate InBlackout(d: Date, blackouts: seq<DateRange>) {
    exists i :: 0 <= i < |blackouts| && blackouts[i].Contains(d)
  }

  /** A day of classes: inside the term, Monday to Friday, and in no
      blackout range. */
  predicate Instructional(d: Date, first: Date, last: Date, blackouts: seq<DateRange>) {
    first <= d <= last && IsWeekday(d) && !InBlackout(d, blackouts)
  }

  predicate Increasing(s: seq<Date>) {
    forall i, j :: 0 <= i < j < |s| ==> s[i] < s[j]
  }

  /** The inner loop's filter: drop weekend days and blackout days, keeping
      the order of the rest. */
  function KeepClassDays(days: seq<Date>, blackouts: seq<DateRange>): (r: seq<Date>)
    ensures forall d :: d in r <==> d in days && IsWeekday(d) && !InBlackout(d, blackouts)
    ensures |r| <= |days|
    ensures Increasing(days) ==> Increasing(r)
    decreases |days|
  {
    if days == [] then []
    else
      var rest := KeepClassDays(days[1..], blackouts);
      if IsWeekday(days[0]) && !InBlackout(days[0], blackouts) then
        assert Increasing(days) ==> forall j :: 0 <= j < |rest| ==> days[0] < rest[j] by {
          if Increasing(days) {
            forall j | 0 <= j < |rest|
              ensures days[0] < rest[j]
            {
              assert rest[j] in days[1..];
              var k :| 0 <= k < |days[1..]| && days[1..][k] == rest[j];
              assert days[k + 1] == rest[j];
            }
          }
        }
        [days[0]] + rest
      else rest
  }

  /** When every day passes the filter, it keeps them all. */
  lemma {:induction false} KeepClassDaysAll(days: seq<Date>, blackouts: seq<DateRange>)
    requires forall i :: 0 <= i < |days| ==> IsWeekday(days[i]) && !InBlackout(days[i], blackouts)
    ensures KeepClassDays(days, blackouts) == days
    decreases |days|
  {
    if days != [] {
      KeepClassDaysAll(days[1..], blackouts);
      assert days == [days[0]] + days[1..];
    }
  }

  /** The instructional days of the Monday-to-Friday window starting at
      `mon`: the window is clamped to the term, its days are enumerated and
      filtered. They are exactly the instructional days of the window, in
      increasing order. */
  function WeekDays(mon: Date, first: Date, last: Date, blackouts: seq<DateRange>): (r: seq<Date>)
    ensures Increasing(r)
    ensures forall d :: d in r <==> mon <= d < mon + 5 && Instructional(d, first, last, blackouts)
  {
    var w := DateRange(mon, mon + 4).Clamp(first, last);
    var days := DaysInclusive(w.start, w.end);
    forall d
      ensures d in days <==> w.Contains(d)
    {
      DaysInclusiveMembers(w.start, w.end, d);
    }
    KeepClassDays(days, blackouts)
  }

  /** An increasing sequence of days rises by at least one per position. */
  lemma {:induction false} IncreasingRise(s: seq<Date>, i: nat, j: nat)
    requires Increasing(s) && i <= j < |s|
    ensures s[j] - s[i] >= j - i
    decreases j - i
  {
    if i < j {
      IncreasingRise(s, i + 1, j);
    }
  }

  /** An increasing sequence inside `n` consecutive days has at most `n`
      elements, and with exactly `n` it holds every one of them. */
  lemma IncreasingWithin(s: seq<Date>, lo: Date, n: nat)
    requires Increasing(s)
    requires forall i :: 0 <= i < |s| ==> lo <= s[i] < lo + n
    ensures |s| <= n
    ensures |s| == n ==> forall d :: lo <= d < lo + n ==> d in s
  {
    if |s| > 0 {
      IncreasingRise(s, 0, |s| - 1);
    }
    if |s| == n {
      forall d | lo <= d < lo + n
        ensures d in s
      {
        var k := d - lo;
        IncreasingRise(s, 0, k);
        IncreasingRise(s, k, n - 1);
        assert s[k] == d;
      }
    }
  }

  /** The importer marks a week short when it has fewer than five
      instructional days: exactly when one of its weekdays is not a day of
      classes. */
  lemma WeekDaysShort(mon: Date, first: Date, last: Date, blackouts: seq<DateRange>)
    requires Weekday(mon) == 0
    ensures |WeekDays(mon, first, last, blackouts)| < 5 <==>
              exists d :: mon <= d < mon + 5 && !Instructional(d, first, last, blackouts)
  {
    var r := WeekDays(mon, first, last, blackouts);
    assert forall i :: 0 <= i < |r| ==> mon <= r[i] < mon + 5 by {
      forall i | 0 <= i < |r|
        ensures mon <= r[i] < mon + 5
      {
        assert r[i] in r;
      }
    }
    IncreasingWithin(r, mon, 5);
    if forall d :: mon <= d < mon + 5 ==> Instructional(d, first, last, blackouts) {
      assert Instructional(mon, first, last, blackouts);
      assert Instructional(mon + 4, first, last, blackouts);
      var days := DaysInclusive(mon, mon + 4);
      forall i | 0 <= i < |days|
        ensures IsWeekday(days[i]) && !InBlackout(days[i], blackouts)
      {
        assert Instructional(days[i], first, last, blackouts);
      }
      KeepClassDaysAll(days, blackouts);
    }
  }

  // ---------------------------------------------------------------------------
  // Week events
  // ---------------------------------------------------------------------------

  /** One week label: its number, whether it is short, and its first and
      last instructional day. */
  datatype WeekEvent = WeekEvent(number: nat, short: bool, start: Date, end: Date) {

    /** `f"Week {n}"`, followed by `" (short)"` for a short week. */
    function Title(): string {
      "Week " + NatToString(number) + (if short then " (short)" else "")
    }

    predicate Covers(d: Date) {
      start <= d <= end
    }
  }

  /** Reads a title back: the number after "Week " and whether the short
      marker follows it. */
  function ParseTitle(t: string): (r: Option<(nat, bool)>)
    ensures r.Some? ==> StartsWith(t, "Week ")
  {
    if !StartsWith(t, "Week ") then None
    else
      var (digits, rest) := TakeWhile(t[5..], IsDigit);
      if digits == [] then None
      else if rest == [] then Some((DigitsValue(digits), false))
      else if rest == " (short)" then Some((DigitsValue(digits), true))
      else None
  }

  /** Titles carry their number and short marker: distinct weeks get
      distinct titles. */
  lemma ParseTitleOfTitle(e: WeekEvent)
    ensures ParseTitle(e.Title()) == Some((e.number, e.short))
  {
    var digits := NatToString(e.number);
    var suffix := if e.short then " (short)" else "";
    var t := e.Title();
    assert t == "Week " + (digits + suffix);
    assert t[5..] == digits + suffix;
    TakeWhileSplit(digits, suffix, IsDigit);
  }

  /** A week label as the importer promises it: its first and last days are
      days of classes in one Monday-to-Friday window, every day of classes
      of that window lies between them, and it is short exactly when the
      window has a weekday without classes. */
  predicate IsWeekEvent(e: WeekEvent, first: Date, last: Date, blackouts: seq<DateRange>) {
    var mon := Monday(e.start);
    && e.start <= e.end < mon + 5
    && Instructional(e.start, first, last, blackouts)
    && Instructional(e.end, first, last, blackouts)
    && (forall d :: mon <= d < mon + 5 && Instructional(d, first, last, blackouts) ==> e.Covers(d))
    && (e.short <==> exists d :: mon <= d < mon + 5 && !Instructional(d, first, last, blackouts))
  }

  /** One pass of the outer loop: the label of the window starting at
      `mon`, or none when the window has no instructional day. */
  function WeekEventAt(mon: Date, number: nat, first: Date, last: Date, blackouts: seq<DateRange>)
    : (r: Option<WeekEvent>)
    requires Weekday(mon) == 0
    ensures r.None? <==> forall d :: mon <= d < mon + 5 ==> !Instructional(d, first, last, blackouts)
    ensures r.Some? ==> r.value.number == number && Monday(r.value.start) == mon
    ensures r.Some? ==> IsWeekEvent(r.value, first, last, blackouts)
  {
    var days := WeekDays(mon, first, last, blackouts);
    if |days| == 0 then
      NoClassDays(mon, first, last, blackouts);
      None
    else
      WeekEventOfDays(mon, number, first, last, blackouts);
      Some(WeekEvent(number, |days| < 5, days[0], days[|days| - 1]))
  }

  lemma NoClassDays(mon: Date, first: Date, last: Date, blackouts: seq<DateRange>)
    requires |WeekDays(mon, first, last, blackouts)| == 0
    ensures forall d :: mon <= d < mon + 5 ==> !Instructional(d, first, last, blackouts)
  {
    assert WeekDays(mon, first, last, blackouts) == [];
  }

  /** The label built from a window's first and last day of classes is a
      label of that window. */
  lemma WeekEventOfDays(mon: Date, number: nat, first: Date, last: Date, blackouts: seq<DateRange>)
    requires Weekday(mon) == 0
    requires |WeekDays(mon, first, last, blackouts)| > 0
    ensures var days := WeekDays(mon, first, last, blackouts);
            var e := WeekEvent(number, |days| < 5, days[0], days[|days| - 1]);
            Monday(e.start) == mon && IsWeekEvent(e, first, last, blackouts)
  {
    var days := WeekDays(mon, first, last, blackouts);
    var e := WeekEvent(number, |days| < 5, days[0], days[|days| - 1]);
    assert days[0] in days && days[|days| - 1] in days;
    WeekdayInWeek(mon, days[0] - mon);
    WeekDaysShort(mon, first, last, blackouts);
    WindowCovered(mon, first, last, blackouts);
  }

  /** Every day of classes of a window lies between its first and last
      day of classes. */
  lemma WindowCovered(mon: Date, first: Date, last: Date, blackouts: seq<DateRange>)
    requires |WeekDays(mon, first, last, blackouts)| > 0
    ensures var days := WeekDays(mon, first, last, blackouts);
            forall d :: mon <= d < mon + 5 && Instructional(d, first, last, blackouts) ==>
              days[0] <= d <= days[|days| - 1]
  {
    var days := WeekDays(mon, first, last, blackouts);
    forall d | mon <= d < mon + 5 && Instructional(d, first, last, blackouts)
      ensures days[0] <= d <= days[|days| - 1]
    {
      assert d in days;
      var k :| 0 <= k < |days| && days[k] == d;
    }
  }

  /** Some label covers the day. */
  predicate Covered(events: seq<WeekEvent>, d: Date) {
    exists i :: 0 <= i < |events| && events[i].Covers(d)
  }

  /** A day of classes lies in the window of its own Monday. */
  lemma InstructionalInWindow(d: Date, first: Date, last: Date, blackouts: seq<DateRange>)
    requires Instructional(d, first, last, blackouts)
    ensures Monday(d) <= d < Monday(d) + 5
  {
  }

  /** What the outer loop keeps true once every window before `cur` has
      been visited: the labels so far are numbered 1, 2, 3, ..., each is a
      label of its own window, they are in order and end before `cur`, and
      every day of classes before the week of `cur` is covered. */
  ghost predicate Labelled(events: seq<WeekEvent>, cur: Date, first: Date, last: Date, blackouts: seq<DateRange>) {
    && (forall i :: 0 <= i < |events| ==> events[i].number == i + 1)
    && (forall i :: 0 <= i < |events| ==> IsWeekEvent(events[i], first, last, blackouts))
    && (forall i :: 0 <= i < |events| ==> events[i].end < cur)
    && (forall i, j :: 0 <= i < j < |events| ==> events[i].end < events[j].start)
    && (forall d :: Instructional(d, first, last, blackouts) && Monday(d) < cur ==> Covered(events, d))
  }

  /** The loop starts from no labels at the week of `first`. */
  lemma LabelledStart(first: Date, last: Date, blackouts: seq<DateRange>)
    ensures Labelled([], Monday(first), first, last, blackouts)
  {
    forall d | Instructional(d, first, last, blackouts)
      ensures Monday(first) <= Monday(d)
    {
      MondayMonotone(first, d);
    }
  }

  /** Visiting the window of `cur` keeps the loop's promise for the next
      Monday. */
  lemma LabelledStep(events: seq<WeekEvent>, cur: Date, first: Date, last: Date, blackouts: seq<DateRange>)
    requires Weekday(cur) == 0
    requires Labelled(events, cur, first, last, blackouts)
    ensures var next := WeekEventAt(cur, |events| + 1, first, last, blackouts);
            Labelled(if next.Some? then events + [next.value] else events, cur + 7, first, last, blackouts)
  {
    var next := WeekEventAt(cur, |events| + 1, first, last, blackouts);
    if next.Some? {
      LabelledAppend(events, next.value, cur, first, last, blackouts);
    } else {
      LabelledSkip(events, cur, first, last, blackouts);
    }
  }

  /** A Monday no earlier than `cur` and before the next one is `cur`. */
  lemma SameMonday(d: Date, cur: Date)
    requires Weekday(cur) == 0
    requires cur <= Monday(d) < cur + 7
    ensures Monday(d) == cur
  {
    if cur < Monday(d) {
      MondaysApart(cur, Monday(d));
    }
  }

  /** A window without a day of classes adds no label. */
  lemma LabelledSkip(events: seq<WeekEvent>, cur: Date, first: Date, last: Date, blackouts: seq<DateRange>)
    requires Weekday(cur) == 0
    requires Labelled(events, cur, first, last, blackouts)
    requires forall d :: cur <= d < cur + 5 ==> !Instructional(d, first, last, blackouts)
    ensures Labelled(events, cur + 7, first, last, blackouts)
  {
    forall d | Instructional(d, first, last, blackouts) && Monday(d) < cur + 7
      ensures Monday(d) < cur
    {
      if cur <= Monday(d) {
        SameMonday(d, cur);
        InstructionalInWindow(d, first, last, blackouts);
      }
    }
  }

  /** The label of the window of `cur` is appended as the next one. */
  lemma LabelledAppend(events: seq<WeekEvent>, e: WeekEvent, cur: Date, first: Date, last: Date,
                       blackouts: seq<DateRange>)
    requires Weekday(cur) == 0
    requires Labelled(events, cur, first, last, blackouts)
    requires e.number == |events| + 1 && Monday(e.start) == cur
    requires IsWeekEvent(e, first, last, blackouts)
    ensures Labelled(events + [e], cur + 7, first, last, blackouts)
  {
    AppendNumbered(events, e, cur, first, last, blackouts);
    AppendOrdered(events, e, cur, first, last, blackouts);
    CoveredAppend(events, e, cur, first, last, blackouts);
  }

  lemma AppendNumbered(events: seq<WeekEvent>, e: WeekEvent, cur: Date, first: Date, last: Date,
                       blackouts: seq<DateRange>)
    requires forall i :: 0 <= i < |events| ==> events[i].number == i + 1
    requires forall i :: 0 <= i < |events| ==> IsWeekEvent(events[i], first, last, blackouts)
    requires e.number == |events| + 1 && IsWeekEvent(e, first, last, blackouts)
    ensures forall i :: 0 <= i < |events + [e]| ==> (events + [e])[i].number == i + 1
    ensures forall i :: 0 <= i < |events + [e]| ==> IsWeekEvent((events + [e])[i], first, last, blackouts)
  {
    var after := events + [e];
    forall i | 0 <= i < |after|
      ensures after[i].number == i + 1 && IsWeekEvent(after[i], first, last, blackouts)
    {
      if i < |events| {
        assert after[i] == events[i];
      } else {
        assert after[i] == e;
      }
    }
  }

  lemma AppendOrdered(events: seq<WeekEvent>, e: WeekEvent, cur: Date, first: Date, last: Date,
                      blackouts: seq<DateRange>)
    requires forall i :: 0 <= i < |events| ==> events[i].end < cur
    requires forall i, j :: 0 <= i < j < |events| ==> events[i].end < events[j].start
    requires cur <= e.start <= e.end < cur + 7
    ensures forall i :: 0 <= i < |events + [e]| ==> (events + [e])[i].end < cur + 7
    ensures forall i, j :: 0 <= i < j < |events + [e]| ==> (events + [e])[i].end < (events + [e])[j].start
  {
    var after := events + [e];
    forall i | 0 <= i < |after|
      ensures after[i].end < cur + 7
    {
      if i < |events| {
        assert after[i] == events[i];
      } else {
        assert after[i] == e;
      }
    }
    forall i, j | 0 <= i < j < |after|
      ensures after[i].end < after[j].start
    {
      assert after[i] == events[i];
      if j < |events| {
        assert after[j] == events[j];
      } else {
        assert after[j] == e;
      }
    }
  }

  lemma CoveredAppend(events: seq<WeekEvent>, e: WeekEvent, cur: Date, first: Date, last: Date,
                      blackouts: seq<DateRange>)
    requires Weekday(cur) == 0 && Monday(e.start) == cur
    requires forall d :: cur <= d < cur + 5 && Instructional(d, first, last, blackouts) ==> e.Covers(d)
    requires forall d :: Instructional(d, first, last, blackouts) && Monday(d) < cur ==> Covered(events, d)
    ensures forall d :: Instructional(d, first, last, blackouts) && Monday(d) < cur + 7 ==> Covered(events + [e], d)
  {
    var after := events + [e];
    forall d | Instructional(d, first, last, blackouts) && Monday(d) < cur + 7
      ensures Covered(after, d)
    {
      if Monday(d) < cur {
        var i :| 0 <= i < |events| && events[i].Covers(d);
        assert after[i] == events[i];
      } else {
        SameMonday(d, cur);
        InstructionalInWindow(d, first, last, blackouts);
        assert after[|events|].Covers(d);
      }
    }
  }

  /** Past the week of `last`, every day of classes is covered. */
  lemma LabelledDone(events: seq<WeekEvent>, cur: Date, first: Date, last: Date, blackouts: seq<DateRange>)
    requires Labelled(events, cur, first, last, blackouts)
    requires Monday(last) < cur
    ensures forall d :: Instructional(d, first, last, blackouts) ==> Covered(events, d)
  {
    forall d | Instructional(d, first, last, blackouts)
      ensures Monday(d) < cur
    {
      MondayMonotone(d, last);
    }
  }

  /** `instructional_week_events`: walk the Mondays from the week of
      `first` to the week of `last`; a window with a day of classes becomes
      the next numbered label, a window without one is skipped and does not
      use up a number. The labels are numbered 1, 2, 3, ... in order, each
      is a label of its own window as `IsWeekEvent` describes, later labels
      lie after earlier ones, and every day of classes is covered. */
  method InstructionalWeekEvents(first: Date, last: Date, blackouts: seq<DateRange>)
    returns (events: seq<WeekEvent>)
    ensures forall i :: 0 <= i < |events| ==> events[i].number == i + 1
    ensures forall i :: 0 <= i < |events| ==> IsWeekEvent(events[i], first, last, blackouts)
    ensures forall i, j :: 0 <= i < j < |events| ==> events[i].end < events[j].start
    ensures forall d :: Instructional(d, first, last, blackouts) ==> Covered(events, d)
  {
    var cur := Monday(first);
    var boundary := Monday(last);
    events := [];
    LabelledStart(first, last, blackouts);
    while cur <= boundary
      invariant Weekday(cur) == 0
      invariant Labelled(events, cur, first, last, blackouts)
      decreases boundary - cur
    {
      LabelledStep(events, cur, first, last, blackouts);
      NextMonday(cur);
      var next := WeekEventAt(cur, |events| + 1, first, last, blackouts);
      events := if next.Some? then events + [next.value] else events;
      cur := cur + 7;
    }
    LabelledDone(events, cur, first, last, blackouts);
  }
}
