/** Building one term: fetch the academic-year page and read the term's
    key dates, holidays and breaks from it; fetch the first reachable
    dates-and-deadlines page and read the drop and withdrawal deadlines;
    then keep the holidays and breaks that touch the term and label its
    weeks, with breaks and holidays as blackout days. Fetching a page and
    turning its HTML into text lines are parameters. */
module Term {
  import opened Results
  import opened Strings
  import opened Calendar
  import opened Search
  import PageUrls
  import TermBlocks
  import Bullets
  import Deadlines
  import opened Weeks

  const FullPartOfTerm: string := "Full Part of Term"
  const FirstDayLabel: string := "First Day of Classes"
  const LastDayLabel: string := "Last Day of Classes"
  const StudyDayLabel: string := "Study Day"
  const ExamsLabel: string := "Exams"

  /** The breaks looked up as ranges. */
  const BreakLabels: seq<string> := ["Spring Break", "Fall Break", "Thanksgiving Holidays"]

  /** The holidays looked up as single days. */
  const HolidayLabels: seq<string> := ["Labor Day", "M. L. King, Jr. Holiday"]

  // ---------------------------------------------------------------------------
  // The academic-year page
  // ---------------------------------------------------------------------------

  /** The text searched for the term's dates: the page's normalised lines,
      cut to the term's block and to its "Full Part of Term" subsection,
      joined by newlines. Only a missing spring heading is an error. */
  function TermText(raw: seq<string>, year: int, semester: string): (r: Result<string>)
    ensures r.Err? <==>
              && Lower(semester) == "spring"
              && forall i :: 0 <= i < |TermBlocks.NormalizeLines(raw)| ==>
                   !Contains(TermBlocks.NormalizeLines(raw)[i], TermBlocks.SpringKey(year))
    ensures r.Err? ==> r.error == SectionNotFound(TermBlocks.SpringKey(year))
    ensures r.Ok? ==>
              var block := TermBlocks.TermBlock(TermBlocks.NormalizeLines(raw), year, semester);
              block.Ok? && r.value == Join(TermBlocks.Subsection(block.value, FullPartOfTerm), "\n")
  {
    var lines := TermBlocks.NormalizeLines(raw);
    var block :- TermBlocks.TermBlock(lines, year, semester);
    Ok(Join(TermBlocks.Subsection(block, FullPartOfTerm), "\n"))
  }

  /** What the academic-year page says about the term. */
  datatype KeyDates = KeyDates(
    first: Date,
    last: Date,
    studyDay: Option<Date>,
    exams: Option<DateRange>,
    holidays: seq<(string, Date)>,
    breaks: seq<(string, DateRange)>)

  /** The four key lookups succeed and both days of classes are found. */
  predicate KeyLookupsOk(text: string) {
    && Bullets.FindBulletDate(text, FirstDayLabel).Ok?
    && Bullets.FindBulletDate(text, LastDayLabel).Ok?
    && Bullets.FindBulletDate(text, StudyDayLabel).Ok?
    && Bullets.FindBulletRange(text, ExamsLabel).Ok?
    && Bullets.FindBulletDate(text, FirstDayLabel).value.Some?
    && Bullets.FindBulletDate(text, LastDayLabel).value.Some?
  }

  /** The labels looked up as ranges before the holidays. */
  function RangeLabels(): seq<string> {
    BreakLabels + [ExamsLabel]
  }

  /** Every lookup of the label lists succeeds. */
  predicate ListsOk(text: string) {
    Bullets.AllOk(RangeLabels(), Bullets.RangeFinder(text)) && Bullets.AllOk(HolidayLabels, Bullets.DateFinder(text))
  }

  /** The lookups of `build_term_events` in their order: first and last day
      of classes, study day, exams, then (after the check that both days of
      classes were found) the labelled ranges, the holidays and the breaks.
      The first lookup whose date does not parse aborts. */
  function ReadKeyDates(text: string): (r: Result<KeyDates>)
    ensures Bullets.FindBulletDate(text, FirstDayLabel).Err? ==>
              r == Err(Bullets.FindBulletDate(text, FirstDayLabel).error)
    ensures Bullets.FindBulletDate(text, FirstDayLabel).Ok? && Bullets.FindBulletDate(text, LastDayLabel).Err? ==>
              r == Err(Bullets.FindBulletDate(text, LastDayLabel).error)
    ensures (&& Bullets.FindBulletDate(text, FirstDayLabel).Ok?
             && Bullets.FindBulletDate(text, LastDayLabel).Ok?
             && Bullets.FindBulletDate(text, StudyDayLabel).Err?)
            ==> r == Err(Bullets.FindBulletDate(text, StudyDayLabel).error)
    ensures (&& Bullets.FindBulletDate(text, FirstDayLabel).Ok?
             && Bullets.FindBulletDate(text, LastDayLabel).Ok?
             && Bullets.FindBulletDate(text, StudyDayLabel).Ok?
             && Bullets.FindBulletRange(text, ExamsLabel).Err?)
            ==> r == Err(Bullets.FindBulletRange(text, ExamsLabel).error)
    ensures (&& Bullets.FindBulletDate(text, FirstDayLabel).Ok?
             && Bullets.FindBulletDate(text, LastDayLabel).Ok?
             && Bullets.FindBulletDate(text, StudyDayLabel).Ok?
             && Bullets.FindBulletRange(text, ExamsLabel).Ok?
             && (Bullets.FindBulletDate(text, FirstDayLabel).value.None? ||
                 Bullets.FindBulletDate(text, LastDayLabel).value.None?))
            ==> r == Err(MissingClassDays)
    ensures r.Ok? <==> KeyLookupsOk(text) && ListsOk(text)
    ensures KeyLookupsOk(text) && !Bullets.AllOk(RangeLabels(), Bullets.RangeFinder(text)) ==>
              r.Err? && Bullets.FirstError(RangeLabels(), Bullets.RangeFinder(text), r.error)
    ensures KeyLookupsOk(text) && Bullets.AllOk(RangeLabels(), Bullets.RangeFinder(text)) &&
            !Bullets.AllOk(HolidayLabels, Bullets.DateFinder(text)) ==>
              r.Err? && Bullets.FirstError(HolidayLabels, Bullets.DateFinder(text), r.error)
    ensures r.Ok? ==> Bullets.FindBulletDate(text, FirstDayLabel) == Ok(Some(r.value.first))
    ensures r.Ok? ==> Bullets.FindBulletDate(text, LastDayLabel) == Ok(Some(r.value.last))
    ensures r.Ok? ==> Bullets.FindBulletDate(text, StudyDayLabel) == Ok(r.value.studyDay)
    ensures r.Ok? ==> Bullets.FindBulletRange(text, ExamsLabel) == Ok(r.value.exams)
    ensures r.Ok? ==> HolidaysListed(text, r.value.holidays) && BreaksListed(text, r.value.breaks)
  {
    var first :- Bullets.FindBulletDate(text, FirstDayLabel);
    var last :- Bullets.FindBulletDate(text, LastDayLabel);
    var study :- Bullets.FindBulletDate(text, StudyDayLabel);
    var exams :- Bullets.FindBulletRange(text, ExamsLabel);
    if first.None? || last.None? then Err(MissingClassDays)
    else ReadListed(text, KeyDates(first.value, last.value, study, exams, [], []))
  }

  /** `holidays` are the holidays the text names, with their dates: one
      entry per label found, in the order of the labels. */
  predicate HolidaysListed(text: string, holidays: seq<(string, Date)>) {
    Bullets.FoundInOrder(holidays, HolidayLabels, Bullets.DateFinder(text))
  }

  /** `breaks` are the breaks the text names, with their ranges, in the
      order of the labels. */
  predicate BreaksListed(text: string, breaks: seq<(string, DateRange)>) {
    Bullets.FoundInOrder(breaks, BreakLabels, Bullets.RangeFinder(text))
  }

  /** The lookups after the check for the days of classes: the labelled
      ranges (looked up only for their errors), the holidays, the breaks. */
  function ReadListed(text: string, k: KeyDates): (r: Result<KeyDates>)
    ensures r.Ok? <==> ListsOk(text)
    ensures !Bullets.AllOk(RangeLabels(), Bullets.RangeFinder(text)) ==>
              r.Err? && Bullets.FirstError(RangeLabels(), Bullets.RangeFinder(text), r.error)
    ensures Bullets.AllOk(RangeLabels(), Bullets.RangeFinder(text)) &&
            !Bullets.AllOk(HolidayLabels, Bullets.DateFinder(text)) ==>
              r.Err? && Bullets.FirstError(HolidayLabels, Bullets.DateFinder(text), r.error)
    ensures r.Ok? ==> r.value.(holidays := k.holidays, breaks := k.breaks) == k
    ensures r.Ok? ==> HolidaysListed(text, r.value.holidays) && BreaksListed(text, r.value.breaks)
  {
    var labelled :- Bullets.FindAnyLabeledRanges(text, RangeLabels());
    var holidays :- Bullets.FindLabeledDates(text, HolidayLabels);
    // The breaks are a prefix of the ranges already looked up: this cannot fail.
    Bullets.AllOkPrefix(BreakLabels, [ExamsLabel], Bullets.RangeFinder(text));
    var breaks := Bullets.FindAnyLabeledRanges(text, BreakLabels).value;
    Ok(k.(holidays := holidays, breaks := breaks))
  }

  // ---------------------------------------------------------------------------
  // Fetching
  // ---------------------------------------------------------------------------

  /** A page that must be fetched: its text, or an error naming it. */
  function Fetched(url: string, fetch: string -> Option<string>): (r: Result<string>)
    ensures r.Ok? <==> fetch(url).Some?
    ensures r.Ok? ==> r.value == fetch(url).value
    ensures r.Err? ==> r.error == FetchFailed(url)
  {
    match fetch(url)
    case None => Err(FetchFailed(url))
    case Some(html) => Ok(html)
  }

  /** The retry loop: the first address that could be fetched, with its
      text; nothing when every fetch failed. */
  function FirstFetched(urls: seq<string>, fetch: string -> Option<string>): (r: Option<(string, string)>)
    ensures r.None? <==> forall i :: 0 <= i < |urls| ==> fetch(urls[i]).None?
    ensures r.Some? ==> exists i ::
              && 0 <= i < |urls| && urls[i] == r.value.0 && fetch(urls[i]) == Some(r.value.1)
              && forall j :: 0 <= j < i ==> fetch(urls[j]).None?
  {
    match FirstIndex(urls, 0, u => fetch(u).Some?)
    case None => None
    case Some(i) => Some((urls[i], fetch(urls[i]).value))
  }

  /** Everything the two pages contribute. */
  datatype Sources = Sources(
    academicUrl: string,
    deadlinesUrl: string,
    key: KeyDates,
    lastDrop: Option<Date>,
    lastWithdraw: Option<Date>)

  predicate GoodSemester(semester: string) {
    Lower(semester) == "fall" || Lower(semester) == "spring"
  }

  /** The academic-year part of `build_term_events`, with its errors in
      the importer's order: the semester, the page, the term's block, the key
      dates. The result is the page's address and the key dates. */
  function ReadAcademic(year: int, semester: string, fetch: string -> Option<string>,
                        pageLines: string -> seq<string>): (r: Result<(string, KeyDates)>)
    ensures !GoodSemester(semester) ==> r == Err(BadSemester(semester))
    ensures GoodSemester(semester) ==> PageUrls.AcademicUrl(year, semester).Ok?
    ensures GoodSemester(semester) && fetch(PageUrls.AcademicUrl(year, semester).value).None? ==>
              r == Err(FetchFailed(PageUrls.AcademicUrl(year, semester).value))
    ensures r.Ok? ==>
              && PageUrls.AcademicUrl(year, semester) == Ok(r.value.0)
              && fetch(r.value.0).Some?
              && TermText(pageLines(fetch(r.value.0).value), year, semester).Ok?
              && ReadKeyDates(TermText(pageLines(fetch(r.value.0).value), year, semester).value) == Ok(r.value.1)
    ensures GoodSemester(semester) && fetch(PageUrls.AcademicUrl(year, semester).value).Some? ==>
              var text := TermText(pageLines(fetch(PageUrls.AcademicUrl(year, semester).value).value), year, semester);
              && (text.Err? ==> r == Err(text.error))
              && (text.Ok? ==> (r.Ok? <==> ReadKeyDates(text.value).Ok?))
              && (text.Ok? && r.Err? ==> r.error == ReadKeyDates(text.value).error)
  {
    if !GoodSemester(semester) then Err(BadSemester(semester))
    else
      var academicUrl := PageUrls.AcademicUrl(year, semester).value;
      var academicHtml :- Fetched(academicUrl, fetch);
      var text :- TermText(pageLines(academicHtml), year, semester);
      var key :- ReadKeyDates(text);
      Ok((academicUrl, key))
  }

  /** The dates-and-deadlines part of `build_term_events`: the first of
      the two candidate addresses that can be fetched (a page fetched empty
      counts as not fetched, and the loop does not retry after it), and
      the deadlines read from it. */
  function ReadDeadlinePage(year: int, semester: string, fetch: string -> Option<string>,
                            pageLines: string -> seq<string>): (r: Result<(string, (Option<Date>, Option<Date>))>)
    ensures r.Ok? ==>
              var urls := PageUrls.CandidateDeadlineUrls(year, semester);
              || (r.value.0 == urls[0] && fetch(urls[0]).Some?)
              || (r.value.0 == urls[1] && fetch(urls[0]).None? && fetch(urls[1]).Some?)
    ensures r.Ok? ==>
              && fetch(r.value.0).Some? && fetch(r.value.0).value != []
              && Deadlines.ParseDeadlines(pageLines(fetch(r.value.0).value)) == Ok(r.value.1)
    ensures (forall i :: 0 <= i < 2 ==> fetch(PageUrls.CandidateDeadlineUrls(year, semester)[i]).None?) ==>
              r == Err(NoDeadlinesPage)
    ensures var urls := PageUrls.CandidateDeadlineUrls(year, semester);
            var u := if fetch(urls[0]).Some? then urls[0] else urls[1];
            fetch(u).Some? ==>
              && (fetch(u).value == [] ==> r == Err(NoDeadlinesPage))
              && (fetch(u).value != [] ==>
                    var parsed := Deadlines.ParseDeadlines(pageLines(fetch(u).value));
                    && (parsed.Ok? ==> r == Ok((u, parsed.value)))
                    && (parsed.Err? ==> r == Err(parsed.error)))
  {
    var urls := PageUrls.CandidateDeadlineUrls(year, semester);
    match FirstFetched(urls, fetch)
    case None => Err(NoDeadlinesPage)
    case Some((deadlinesUrl, deadlinesHtml)) =>
      if deadlinesHtml == [] then Err(NoDeadlinesPage)
      else
        var deadlines :- Deadlines.ParseDeadlines(pageLines(deadlinesHtml));
        Ok((deadlinesUrl, deadlines))
  }

  /** The page-reading part of `build_term_events`: the academic-year page
      first, whose error wins, then the dates-and-deadlines page. */
  function ReadSources(year: int, semester: string, fetch: string -> Option<string>,
                       pageLines: string -> seq<string>): (r: Result<Sources>)
    ensures r.Ok? <==> ReadAcademic(year, semester, fetch, pageLines).Ok? && ReadDeadlinePage(year, semester, fetch, pageLines).Ok?
    ensures r.Ok? ==> ReadAcademic(year, semester, fetch, pageLines) == Ok((r.value.academicUrl, r.value.key))
    ensures r.Ok? ==> ReadDeadlinePage(year, semester, fetch, pageLines) ==
                        Ok((r.value.deadlinesUrl, (r.value.lastDrop, r.value.lastWithdraw)))
    ensures ReadAcademic(year, semester, fetch, pageLines).Err? ==> r == Err(ReadAcademic(year, semester, fetch, pageLines).error)
    ensures ReadAcademic(year, semester, fetch, pageLines).Ok? && ReadDeadlinePage(year, semester, fetch, pageLines).Err? ==>
              r == Err(ReadDeadlinePage(year, semester, fetch, pageLines).error)
  {
    var academic :- ReadAcademic(year, semester, fetch, pageLines);
    var deadlines :- ReadDeadlinePage(year, semester, fetch, pageLines);
    Ok(Sources(academic.0, deadlines.0, academic.1, deadlines.1.0, deadlines.1.1))
  }

  // ---------------------------------------------------------------------------
  // Holidays, breaks and blackouts
  // ---------------------------------------------------------------------------

  /** The holidays on a day of the term. */
  function OnTermDay(term: DateRange): ((string, Date)) -> bool {
    (h: (string, Date)) => term.Contains(h.1)
  }

  /** A holiday as a one-day range. */
  function OneDayRange(h: (string, Date)): (string, DateRange) {
    (h.0, DateRange(h.1, h.1))
  }

  /** The holidays on a day of the term, each as a one-day range, in order. */
  function HolidaysInTerm(holidays: seq<(string, Date)>, term: DateRange): (r: seq<(string, DateRange)>)
    ensures Images(r, holidays, OnTermDay(term), OneDayRange)
    ensures forall k :: 0 <= k < |r| ==>
              r[k].1.start == r[k].1.end && term.Contains(r[k].1.start) && (r[k].0, r[k].1.start) in holidays
    ensures forall i :: 0 <= i < |holidays| && term.Contains(holidays[i].1) ==>
              (holidays[i].0, DateRange(holidays[i].1, holidays[i].1)) in r
    decreases |holidays|
  {
    if holidays == [] then []
    else
      var rest := HolidaysInTerm(holidays[1..], term);
      ImagesCons(rest, holidays, OnTermDay(term), OneDayRange);
      var r := if OnTermDay(term)(holidays[0]) then [OneDayRange(holidays[0])] + rest else rest;
      ImagesMembers(r, holidays, OnTermDay(term), OneDayRange);
      r
  }

  /** The breaks that overlap the term. */
  function TouchesTerm(term: DateRange): ((string, DateRange)) -> bool {
    (b: (string, DateRange)) => b.1.Intersects(term)
  }

  /** A break kept as it is. */
  function Unclipped(b: (string, DateRange)): (string, DateRange) {
    b
  }

  /** The breaks that overlap the term, unclipped, in order. */
  function BreaksInTerm(breaks: seq<(string, DateRange)>, term: DateRange): (r: seq<(string, DateRange)>)
    ensures Images(r, breaks, TouchesTerm(term), Unclipped)
    ensures forall k :: 0 <= k < |r| ==> r[k] in breaks && r[k].1.Intersects(term)
    ensures forall i :: 0 <= i < |breaks| && breaks[i].1.Intersects(term) ==> breaks[i] in r
    decreases |breaks|
  {
    if breaks == [] then []
    else
      var rest := BreaksInTerm(breaks[1..], term);
      ImagesCons(rest, breaks, TouchesTerm(term), Unclipped);
      var r := if TouchesTerm(term)(breaks[0]) then [Unclipped(breaks[0])] + rest else rest;
      ImagesMembers(r, breaks, TouchesTerm(term), Unclipped);
      r
  }

  /** The blackout ranges for week counting: the breaks clipped to the
      term, then the holidays. */
  function Blackouts(breaks: seq<(string, DateRange)>, holidays: seq<(string, DateRange)>,
                     first: Date, last: Date): seq<DateRange>
  {
    seq(|breaks|, i requires 0 <= i < |breaks| => breaks[i].1.Clamp(first, last)) +
    seq(|holidays|, i requires 0 <= i < |holidays| => holidays[i].1)
  }

  /** A day is a blackout day exactly when it is a term day inside one of
      the breaks, or inside one of the holiday ranges. */
  lemma BlackoutDays(breaks: seq<(string, DateRange)>, holidays: seq<(string, DateRange)>,
                     first: Date, last: Date, d: Date)
    ensures InBlackout(d, Blackouts(breaks, holidays, first, last)) <==>
              || (first <= d <= last && exists i :: 0 <= i < |breaks| && breaks[i].1.Contains(d))
              || (exists i :: 0 <= i < |holidays| && holidays[i].1.Contains(d))
  {
    var b := Blackouts(breaks, holidays, first, last);
    if InBlackout(d, b) {
      var k :| 0 <= k < |b| && b[k].Contains(d);
      if k < |breaks| {
        assert breaks[k].1.Contains(d);
      } else {
        assert holidays[k - |breaks|].1.Contains(d);
      }
    }
    if first <= d <= last && exists i :: 0 <= i < |breaks| && breaks[i].1.Contains(d) {
      var i :| 0 <= i < |breaks| && breaks[i].1.Contains(d);
      assert b[i].Contains(d);
    }
    if exists i :: 0 <= i < |holidays| && holidays[i].1.Contains(d) {
      var i :| 0 <= i < |holidays| && holidays[i].1.Contains(d);
      assert b[|breaks| + i].Contains(d);
    }
  }

  /** The blackouts of the key dates. */
  function TermBlackouts(key: KeyDates): seq<DateRange> {
    var term := DateRange(key.first, key.last);
    Blackouts(BreaksInTerm(key.breaks, term), HolidaysInTerm(key.holidays, term), key.first, key.last)
  }

  /** A day of classes, in terms of what the page lists: a weekday from the
      first to the last day of classes that lies in no break and is no
      holiday. */
  predicate IsClassDay(key: KeyDates, d: Date) {
    && key.first <= d <= key.last && IsWeekday(d)
    && (forall i :: 0 <= i < |key.breaks| ==> !key.breaks[i].1.Contains(d))
    && (forall i :: 0 <= i < |key.holidays| ==> key.holidays[i].1 != d)
  }

  /** The days the week counting treats as instructional are exactly the
      days of classes. */
  lemma ClassDaysOfTerm(key: KeyDates, d: Date)
    ensures Instructional(d, key.first, key.last, TermBlackouts(key)) <==> IsClassDay(key, d)
  {
    var term := DateRange(key.first, key.last);
    BlackoutDays(BreaksInTerm(key.breaks, term), HolidaysInTerm(key.holidays, term), key.first, key.last, d);
    if key.first <= d <= key.last {
      BreakDays(key.breaks, term, d);
      HolidayDays(key.holidays, term, d);
    }
  }

  /** On a term day, the breaks kept for the term contain the day exactly
      when one of all the breaks does. */
  lemma BreakDays(breaks: seq<(string, DateRange)>, term: DateRange, d: Date)
    requires term.Contains(d)
    ensures (exists i :: 0 <= i < |breaks| && breaks[i].1.Contains(d)) ==>
              exists i :: 0 <= i < |BreaksInTerm(breaks, term)| && BreaksInTerm(breaks, term)[i].1.Contains(d)
    ensures (exists i :: 0 <= i < |BreaksInTerm(breaks, term)| && BreaksInTerm(breaks, term)[i].1.Contains(d)) ==>
              exists i :: 0 <= i < |breaks| && breaks[i].1.Contains(d)
  {
    var kept := BreaksInTerm(breaks, term);
    if exists i :: 0 <= i < |breaks| && breaks[i].1.Contains(d) {
      var i :| 0 <= i < |breaks| && breaks[i].1.Contains(d);
      assert breaks[i].1.Intersects(term);
      var k :| 0 <= k < |kept| && kept[k] == breaks[i];
      assert kept[k].1.Contains(d);
    }
    if exists i :: 0 <= i < |kept| && kept[i].1.Contains(d) {
      var i :| 0 <= i < |kept| && kept[i].1.Contains(d);
      var j :| 0 <= j < |breaks| && breaks[j] == kept[i];
      assert breaks[j].1.Contains(d);
    }
  }

  /** On a term day, the holidays kept for the term contain the day exactly
      when one of all the holidays is that day. */
  lemma HolidayDays(holidays: seq<(string, Date)>, term: DateRange, d: Date)
    requires term.Contains(d)
    ensures (exists i :: 0 <= i < |holidays| && holidays[i].1 == d) ==>
              exists i :: 0 <= i < |HolidaysInTerm(holidays, term)| && HolidaysInTerm(holidays, term)[i].1.Contains(d)
    ensures (exists i :: 0 <= i < |HolidaysInTerm(holidays, term)| && HolidaysInTerm(holidays, term)[i].1.Contains(d)) ==>
              exists i :: 0 <= i < |holidays| && holidays[i].1 == d
  {
    var kept := HolidaysInTerm(holidays, term);
    if i :| 0 <= i < |holidays| && holidays[i].1 == d {
      assert (holidays[i].0, DateRange(d, d)) in kept;
      var k :| 0 <= k < |kept| && kept[k] == (holidays[i].0, DateRange(d, d));
      assert kept[k].1.Contains(d);
    }
    if i :| 0 <= i < |kept| && kept[i].1.Contains(d) {
      assert kept[i].1.start == d;
      assert (kept[i].0, d) in holidays;
      var j :| 0 <= j < |holidays| && holidays[j] == (kept[i].0, d);
      assert holidays[j].1 == d;
    }
  }

  // ---------------------------------------------------------------------------
  // The whole term
  // ---------------------------------------------------------------------------

  /** What `build_term_events` returns. */
  datatype TermEvents = TermEvents(
    sources: Sources,
    breaksInTerm: seq<(string, DateRange)>,
    holidaysInTerm: seq<(string, DateRange)>,
    weeks: seq<WeekEvent>)

  /** The week labels of a term: numbered 1, 2, 3, ... in order, each
      spanning the days of classes of one week (the counting's blackouts
      being the term's breaks and holidays), and every day of classes
      inside a label. */
  ghost predicate WeeksOfTerm(weeks: seq<WeekEvent>, key: KeyDates) {
    && (forall i :: 0 <= i < |weeks| ==> weeks[i].number == i + 1)
    && (forall i :: 0 <= i < |weeks| ==> IsWeekEvent(weeks[i], key.first, key.last, TermBlackouts(key)))
    && (forall i, j :: 0 <= i < j < |weeks| ==> weeks[i].end < weeks[j].start)
    && (forall d :: IsClassDay(key, d) ==> Covered(weeks, d))
  }

  /** The labels counted with the term's blackouts are the term's labels. */
  lemma WeeksOfTermFrom(weeks: seq<WeekEvent>, key: KeyDates)
    requires forall i :: 0 <= i < |weeks| ==> weeks[i].number == i + 1
    requires forall i :: 0 <= i < |weeks| ==> IsWeekEvent(weeks[i], key.first, key.last, TermBlackouts(key))
    requires forall i, j :: 0 <= i < j < |weeks| ==> weeks[i].end < weeks[j].start
    requires forall d :: Instructional(d, key.first, key.last, TermBlackouts(key)) ==> Covered(weeks, d)
    ensures WeeksOfTerm(weeks, key)
  {
    forall d | IsClassDay(key, d)
      ensures Covered(weeks, d)
    {
      ClassDaysOfTerm(key, d);
    }
  }

  /** `build_term_events`: the pages' data, the holidays and breaks that
      touch the term, and the week labels. It fails exactly when reading
      the pages fails, with the same error. */
  method BuildTerm(year: int, semester: string, fetch: string -> Option<string>,
                   pageLines: string -> seq<string>) returns (r: Result<TermEvents>)
    ensures r.Err? ==> ReadSources(year, semester, fetch, pageLines) == Err(r.error)
    ensures r.Ok? ==> ReadSources(year, semester, fetch, pageLines) == Ok(r.value.sources)
    ensures r.Ok? ==>
              var key := r.value.sources.key;
              && r.value.breaksInTerm == BreaksInTerm(key.breaks, DateRange(key.first, key.last))
              && r.value.holidaysInTerm == HolidaysInTerm(key.holidays, DateRange(key.first, key.last))
    ensures r.Ok? ==> WeeksOfTerm(r.value.weeks, r.value.sources.key)
  {
    var sources := ReadSources(year, semester, fetch, pageLines);
    if sources.Err? {
      return Err(sources.error);
    }
    var key := sources.value.key;
    var term := DateRange(key.first, key.last);
    var holidays := HolidaysInTerm(key.holidays, term);
    var breaks := BreaksInTerm(key.breaks, term);
    assert Blackouts(breaks, holidays, key.first, key.last) == TermBlackouts(key);
    var weeks := InstructionalWeekEvents(key.first, key.last, TermBlackouts(key));
    WeeksOfTermFrom(weeks, key);
    r := Ok(TermEvents(sources.value, breaks, holidays, weeks));
  }
}
