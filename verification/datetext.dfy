/** The date grammar of the calendar pages: month words, the `Month D, YYYY`
    date, the single-month `Month D-D, YYYY` range and the two-month
    `Month D - Month D, YYYY` range, written as token grammars. Each grammar
    has a datatype of its tokens, a `Text` that renders them, and a matcher
    that reads them back greedily from the start of a string, as the regular
    expressions of the importer do. */
module DateText {
  import opened Results
  import opened Strings
  import opened Calendar

  /** dateutil's English month words (full names, three-letter abbreviations
      and "sept"), compared without regard to case. */
  function MonthNumber(word: string): (r: Option<int>)
    ensures r.Some? ==> 1 <= r.value <= 12
  {
    MonthOfLower(Lower(word))
  }

  /** The month a lower-case month word names. */
  function MonthOfLower(w: string): (r: Option<int>)
    ensures r.Some? ==> 1 <= r.value <= 12
  {
    if w == "jan" || w == "january" then Some(1)
    else if w == "feb" || w == "february" then Some(2)
    else if w == "mar" || w == "march" then Some(3)
    else if w == "apr" || w == "april" then Some(4)
    else if w == "may" then Some(5)
    else if w == "jun" || w == "june" then Some(6)
    else if w == "jul" || w == "july" then Some(7)
    else if w == "aug" || w == "august" then Some(8)
    else if w == "sep" || w == "sept" || w == "september" then Some(9)
    else if w == "oct" || w == "october" then Some(10)
    else if w == "nov" || w == "november" then Some(11)
    else if w == "dec" || w == "december" then Some(12)
    else None
  }

  predicate IsHyphen(c: char) {
    c == '-'
  }

  /** `[-–]`: a hyphen or an en dash. */
  predicate IsDash(c: char) {
    c == '-' || c == EnDash
  }

  // ---------------------------------------------------------------------------
  // Grammar pieces
  // ---------------------------------------------------------------------------

  /** `[A-Za-z]+\s+\d{1,2}`: a month word, whitespace and a one- or two-digit day. */
  datatype MonthDay = MonthDay(month: string, gap: string, day: string) {
    predicate WellFormed() {
      && |month| > 0 && All(month, IsLetter)
      && |gap| > 0 && All(gap, IsSpace)
      && 1 <= |day| <= 2 && All(day, IsDigit)
    }

    function Text(): string {
      month + (gap + day)
    }
  }

  /** `\s*-\s*`, with the dash character class given by the caller. */
  datatype DashSep = DashSep(before: string, dash: char, after: string) {
    predicate WellFormed(isDash: char -> bool) {
      All(before, IsSpace) && isDash(dash) && All(after, IsSpace)
    }

    function Text(): string {
      before + ([dash] + after)
    }
  }

  /** `,\s*\d{4}` and whatever text follows the four year digits. */
  datatype YearTail = YearTail(gap: string, year: string, rest: string) {
    predicate WellFormed() {
      All(gap, IsSpace) && |year| == 4 && All(year, IsDigit)
    }

    function Text(): string {
      "," + (gap + (year + rest))
    }
  }

  /** Reads a `MonthDay` greedily from the start of `s`. A day is the whole
      digit run and must have one or two digits: in every pattern here the
      next token cannot start with a digit, so a regular expression cannot
      backtrack into a shorter day either. */
  function MatchMonthDay(s: string): (r: Option<(MonthDay, string)>)
    ensures r.Some? ==> r.value.0.WellFormed() && r.value.0.Text() + r.value.1 == s
    ensures r.Some? ==> r.value.1 == [] || !IsDigit(r.value.1[0])
  {
    var (month, s1) := TakeWhile(s, IsLetter);
    var (gap, s2) := TakeWhile(s1, IsSpace);
    var (day, s3) := TakeWhile(s2, IsDigit);
    if month == [] || gap == [] || !(1 <= |day| <= 2) then None
    else
      assert month + (gap + day) + s3 == s;
      Some((MonthDay(month, gap, day), s3))
  }

  /** Reads `\s*<dash>\s*` greedily from the start of `s`. */
  function MatchDash(s: string, isDash: char -> bool): (r: Option<(DashSep, string)>)
    ensures r.Some? ==> r.value.0.WellFormed(isDash) && r.value.0.Text() + r.value.1 == s
    ensures r.Some? ==> r.value.1 == [] || !IsSpace(r.value.1[0])
  {
    var (before, s1) := TakeWhile(s, IsSpace);
    if s1 == [] || !isDash(s1[0]) then None
    else
      var (after, s2) := TakeWhile(s1[1..], IsSpace);
      var sep := DashSep(before, s1[0], after);
      DashSplit(s, before, s1, after, s2);
      Some((sep, s2))
  }

  lemma DashSplit(s: string, before: string, s1: string, after: string, s2: string)
    requires before + s1 == s && s1 != [] && after + s2 == s1[1..]
    ensures DashSep(before, s1[0], after).Text() + s2 == s
  {
    assert s1 == [s1[0]] + (after + s2);
    AppendAssoc3(before, [s1[0]], after, s2);
  }

  /** Reads `,\s*\d{4}` from the start of `s`; the year is the first four digits. */
  function MatchYearTail(s: string): (r: Option<YearTail>)
    ensures r.Some? ==> r.value.WellFormed() && r.value.Text() == s
  {
    if s == [] || s[0] != ',' then None
    else
      var (gap, s1) := TakeWhile(s[1..], IsSpace);
      if |s1| < 4 || !All(s1[..4], IsDigit) then None
      else
        assert s == [','] + s[1..];
        assert s1 == s1[..4] + s1[4..];
        Some(YearTail(gap, s1[..4], s1[4..]))
  }

  // ---------------------------------------------------------------------------
  // The three date grammars
  // ---------------------------------------------------------------------------

  /** `Month D, YYYY` followed by anything. */
  datatype DateMatch = DateMatch(md: MonthDay, tail: YearTail) {
    predicate WellFormed() {
      md.WellFormed() && tail.WellFormed()
    }

    function Text(): string {
      md.Text() + tail.Text()
    }
  }

  /** `Month D1-D2, YYYY` followed by anything: one month, two days. */
  datatype RangeMatch = RangeMatch(md: MonthDay, sep: DashSep, day2: string, tail: YearTail) {
    predicate WellFormed(isDash: char -> bool) {
      && md.WellFormed() && sep.WellFormed(isDash)
      && 1 <= |day2| <= 2 && All(day2, IsDigit)
      && tail.WellFormed()
    }

    function Text(): string {
      md.Text() + (sep.Text() + (day2 + tail.Text()))
    }
  }

  /** `Month1 D1 - Month2 D2, YYYY` followed by anything: two months. */
  datatype SpanMatch = SpanMatch(first: MonthDay, sep: DashSep, second: MonthDay, tail: YearTail) {
    predicate WellFormed() {
      first.WellFormed() && sep.WellFormed(IsHyphen) && second.WellFormed() && tail.WellFormed()
    }

    function Text(): string {
      first.Text() + (sep.Text() + (second.Text() + tail.Text()))
    }
  }

  /** `[A-Za-z]+\s+\d{1,2},\s*\d{4}` at the start of `s`. */
  function MatchDate(s: string): (r: Option<DateMatch>)
    ensures r.Some? ==> r.value.WellFormed() && r.value.Text() == s
  {
    match MatchMonthDay(s)
    case None => None
    case Some((md, s1)) =>
      match MatchYearTail(s1)
      case None => None
      case Some(tail) => Some(DateMatch(md, tail))
  }

  /** `[A-Za-z]+\s+\d{1,2}\s*<dash>\s*\d{1,2},\s*\d{4}` at the start of `s`. */
  function MatchRange(s: string, isDash: char -> bool): (r: Option<RangeMatch>)
    ensures r.Some? ==> r.value.WellFormed(isDash) && r.value.Text() == s
  {
    match MatchMonthDay(s)
    case None => None
    case Some((md, s1)) =>
      match MatchDash(s1, isDash)
      case None => None
      case Some((sep, s2)) =>
        var (day2, s3) := TakeWhile(s2, IsDigit);
        if !(1 <= |day2| <= 2) then None
        else
          match MatchYearTail(s3)
          case None => None
          case Some(tail) =>
            Some(RangeMatch(md, sep, day2, tail))
  }

  /** `[A-Za-z]+\s+\d{1,2}\s*-\s*[A-Za-z]+\s+\d{1,2},\s*\d{4}` at the start of `s`. */
  function MatchSpan(s: string): (r: Option<SpanMatch>)
    ensures r.Some? ==> r.value.WellFormed() && r.value.Text() == s
  {
    match MatchMonthDay(s)
    case None => None
    case Some((first, s1)) =>
      match MatchDash(s1, IsHyphen)
      case None => None
      case Some((sep, s2)) =>
        match MatchMonthDay(s2)
        case None => None
        case Some((second, s3)) =>
          match MatchYearTail(s3)
          case None => None
          case Some(tail) =>
            Some(SpanMatch(first, sep, second, tail))
  }

  // ---------------------------------------------------------------------------
  // From tokens to dates
  // ---------------------------------------------------------------------------

  /** What dateutil makes of `f"{month} {day}, {year}"`: the date when the
      month word is known and the day exists in that month. */
  function DateOf(month: string, day: string, year: string): Result<Date>
    requires All(day, IsDigit) && All(year, IsDigit)
  {
    var d := DigitsValue(day);
    var y := DigitsValue(year);
    match MonthNumber(month)
    case Some(m) =>
      if ValidDate(y, m, d) then Ok(DayNumber(y, m, d))
      else Err(UnparsableDate(month + " " + NatToString(d) + ", " + NatToString(y)))
    case None => Err(UnparsableDate(month + " " + NatToString(d) + ", " + NatToString(y)))
  }

  /** The range a single-month match denotes. Both ends share month and
      year, so the range spans exactly the difference of the two days, and
      it is inverted exactly when the second day is the smaller. */
  function RangeOf(m: RangeMatch): (r: Result<DateRange>)
    requires m.WellFormed(IsDash)
    ensures r.Ok? <==> DateOf(m.md.month, m.md.day, m.tail.year).Ok? && DateOf(m.md.month, m.day2, m.tail.year).Ok?
    ensures r.Ok? ==> r.value.start == DateOf(m.md.month, m.md.day, m.tail.year).value
    ensures r.Ok? ==> r.value.end - r.value.start == DigitsValue(m.day2) - DigitsValue(m.md.day)
  {
    var start :- DateOf(m.md.month, m.md.day, m.tail.year);
    var end :- DateOf(m.md.month, m.day2, m.tail.year);
    Ok(DateRange(start, end))
  }

  /** `parse_month_day_year`: the whole (normalised) text must be one
      `Month D, YYYY` date. */
  function ParseMonthDayYear(text: string): Result<Date>
  {
    match MatchDate(Normalize(text))
    case Some(m) =>
      if m.tail.rest == [] then DateOf(m.md.month, m.md.day, m.tail.year)
      else Err(UnparsableDate(text))
    case None => Err(UnparsableDate(text))
  }

  /** `parse_range`: en dashes become hyphens and whitespace is normalised;
      a single-month range (with or without text after the year, which the
      second pattern discards) gives its two days, and anything else must be
      a single date, which gives a one-day range. */
  function ParseRange(text: string): Result<DateRange>
  {
    RangeOfNormal(Normalize(ReplaceChar(text, EnDash, '-')))
  }

  /** `parse_range` after its dash replacement and normalisation. */
  function RangeOfNormal(t: string): Result<DateRange>
  {
    match MatchRange(t, IsHyphen)
    case Some(m) => RangeOf(m)
    case None => OneDay(ParseMonthDayYear(t))
  }

  /** A parsed date as a one-day range; a parse error stays an error. */
  function OneDay(d: Result<Date>): (r: Result<DateRange>)
    ensures r.Ok? <==> d.Ok?
    ensures r.Ok? ==> r.value.start == r.value.end == d.value
    ensures r.Err? ==> r.error == d.error
  {
    var x :- d;
    Ok(DateRange(x, x))
  }

  // ---------------------------------------------------------------------------
  // Round trips: each matcher reads back exactly the tokens it is shown
  // ---------------------------------------------------------------------------

  lemma MatchMonthDayText(md: MonthDay, rest: string)
    requires md.WellFormed()
    requires rest == [] || !IsDigit(rest[0])
    ensures MatchMonthDay(md.Text() + rest) == Some((md, rest))
  {
    var s := md.Text() + rest;
    assert s == md.month + (md.gap + (md.day + rest));
    TakeWhileSplit(md.month, md.gap + (md.day + rest), IsLetter);
    TakeWhileSplit(md.gap, md.day + rest, IsSpace);
    TakeWhileSplit(md.day, rest, IsDigit);
  }

  lemma MatchDashText(sep: DashSep, rest: string, isDash: char -> bool)
    requires sep.WellFormed(isDash) && !IsSpace(sep.dash)
    requires rest == [] || !IsSpace(rest[0])
    ensures MatchDash(sep.Text() + rest, isDash) == Some((sep, rest))
  {
    var s1 := [sep.dash] + (sep.after + rest);
    assert sep.Text() + rest == sep.before + s1;
    TakeWhileSplit(sep.before, s1, IsSpace);
    assert s1[1..] == sep.after + rest;
    TakeWhileSplit(sep.after, rest, IsSpace);
  }

  lemma MatchYearTailText(tail: YearTail)
    requires tail.WellFormed()
    ensures MatchYearTail(tail.Text()) == Some(tail)
  {
    var s := tail.Text();
    assert s[1..] == tail.gap + (tail.year + tail.rest);
    TakeWhileSplit(tail.gap, tail.year + tail.rest, IsSpace);
    var s1 := tail.year + tail.rest;
    assert s1[..4] == tail.year && s1[4..] == tail.rest;
  }

  lemma MatchDateText(m: DateMatch)
    requires m.WellFormed()
    ensures MatchDate(m.Text()) == Some(m)
  {
    MatchMonthDayText(m.md, m.tail.Text());
    MatchYearTailText(m.tail);
  }

  lemma MatchRangeText(m: RangeMatch, isDash: char -> bool)
    requires m.WellFormed(isDash)
    requires !IsSpace(m.sep.dash) && !IsDigit(m.sep.dash)
    ensures MatchRange(m.Text(), isDash) == Some(m)
  {
    var s2 := m.day2 + m.tail.Text();
    var s1 := m.sep.Text() + s2;
    assert s1[0] == (if m.sep.before == [] then m.sep.dash else m.sep.before[0]);
    MatchMonthDayText(m.md, s1);
    MatchDashText(m.sep, s2, isDash);
    TakeWhileSplit(m.day2, m.tail.Text(), IsDigit);
    MatchYearTailText(m.tail);
  }

  lemma MatchSpanText(m: SpanMatch)
    requires m.WellFormed()
    ensures MatchSpan(m.Text()) == Some(m)
  {
    var s2 := m.second.Text() + m.tail.Text();
    var s1 := m.sep.Text() + s2;
    assert s1[0] == (if m.sep.before == [] then m.sep.dash else m.sep.before[0]);
    assert s2[0] == m.second.month[0];
    MatchMonthDayText(m.first, s1);
    MatchDashText(m.sep, s2, IsHyphen);
    MatchMonthDayText(m.second, m.tail.Text());
    MatchYearTailText(m.tail);
  }

  // ---------------------------------------------------------------------------
  // What normalisation does to a captured date or range
  // ---------------------------------------------------------------------------

  /** The text of a date capture as one right-nested concatenation. */
  lemma DateTextFlat(m: DateMatch)
    ensures m.Text() == m.md.month + (m.md.gap + (m.md.day + ("," + (m.tail.gap + (m.tail.year + m.tail.rest)))))
  {
    AppendAssoc3(m.md.month, m.md.gap, m.md.day, m.tail.Text());
  }

  /** The text of a single-month range capture as one right-nested concatenation. */
  lemma RangeTextFlat(m: RangeMatch)
    ensures m.Text() == m.md.month + (m.md.gap + (m.md.day + (m.sep.before + ([m.sep.dash] + (m.sep.after + (m.day2 + ("," + (m.tail.gap + (m.tail.year + m.tail.rest)))))))))
  {
    var z := m.day2 + m.tail.Text();
    AppendAssoc3(m.sep.before, [m.sep.dash], m.sep.after, z);
    AppendAssoc3(m.md.month, m.md.gap, m.md.day, m.sep.Text() + z);
  }

  /** The text of a two-month capture: the first month and day, the dash,
      then the second date as a date capture. */
  lemma SpanTextFlat(m: SpanMatch)
    ensures m.Text() == m.first.month + (m.first.gap + (m.first.day + (m.sep.before + ([m.sep.dash] + (m.sep.after + DateMatch(m.second, m.tail).Text())))))
  {
    var z := m.second.Text() + m.tail.Text();
    AppendAssoc3(m.sep.before, [m.sep.dash], m.sep.after, z);
    AppendAssoc3(m.first.month, m.first.gap, m.first.day, m.sep.Text() + z);
  }

  /** The tokens of a capture after dash replacement and whitespace
      normalisation: single spaces where there was whitespace, a hyphen. */
  function CanonRange(m: RangeMatch): RangeMatch {
    RangeMatch(MonthDay(m.md.month, " ", m.md.day),
               DashSep(SpaceIf(m.sep.before), '-', SpaceIf(m.sep.after)),
               m.day2, YearTail(SpaceIf(m.tail.gap), m.tail.year, []))
  }

  function CanonDate(m: DateMatch): DateMatch {
    DateMatch(MonthDay(m.md.month, " ", m.md.day), YearTail(SpaceIf(m.tail.gap), m.tail.year, []))
  }

  lemma NoEnDashIn(s: string)
    requires All(s, IsLetter) || All(s, IsSpace) || All(s, IsDigit)
    ensures EnDash !in s
  {
  }

  /** The only en dash a date capture can hold is its range dash. */
  lemma ReplaceRangeDash(m: RangeMatch)
    requires m.WellFormed(IsDash) && m.tail.rest == []
    ensures ReplaceChar(m.Text(), EnDash, '-') == m.(sep := m.sep.(dash := '-')).Text()
  {
    var y := m.sep.after + (m.day2 + ("," + (m.tail.gap + m.tail.year)));
    RangeTextFlat(m);
    RangeTextFlat(m.(sep := m.sep.(dash := '-')));
    assert m.tail.year + m.tail.rest == m.tail.year;
    NoEnDashIn(m.md.month);
    NoEnDashIn(m.md.gap);
    NoEnDashIn(m.md.day);
    NoEnDashIn(m.sep.before);
    NoEnDashIn(m.sep.after);
    NoEnDashIn(m.day2);
    NoEnDashIn(m.tail.gap);
    NoEnDashIn(m.tail.year);
    ReplaceCharAfter4(m.md.month, m.md.gap, m.md.day, m.sep.before, m.sep.dash, y, EnDash, '-');
  }

  /** Collapsing the whitespace of `D, YYYY`. */
  lemma CollapseDayYear(day: string, gap: string, year: string)
    requires All(day, IsDigit) && All(gap, IsSpace) && |year| == 4 && All(year, IsDigit)
    ensures Collapse(day + ("," + (gap + year))) == day + ("," + (SpaceIf(gap) + year))
  {
    var a := day + ",";
    DigitsCollapse(year);
    DayCommaNotSpace(day);
    CollapseSegment(a, gap, year);
    AppendAssoc(day, ",", gap + year);
    AppendAssoc(day, ",", SpaceIf(gap) + year);
  }

  lemma DigitsCollapse(s: string)
    requires All(s, IsDigit)
    ensures s == [] || !IsSpace(s[0])
    ensures Collapse(s) == s
  {
    assert All(s, NotSpace);
    CollapseNonSpacePrefix(s, []);
    assert s + [] == s;
  }

  lemma DayCommaNotSpace(day: string)
    requires All(day, IsDigit)
    ensures All(day + ",", NotSpace)
  {
    var a := day + ",";
    forall i | 0 <= i < |a|
      ensures NotSpace(a[i])
    {
      if i < |day| {
        assert a[i] == day[i];
      }
    }
  }

  /** Collapsing the whitespace of `-\s*D, YYYY`. */
  lemma CollapseDashDayYear(after: string, day2: string, gap: string, year: string)
    requires All(after, IsSpace) && 1 <= |day2| && All(day2, IsDigit)
    requires All(gap, IsSpace) && |year| == 4 && All(year, IsDigit)
    ensures Collapse("-" + (after + (day2 + ("," + (gap + year)))))
         == "-" + (SpaceIf(after) + (day2 + ("," + (SpaceIf(gap) + year))))
  {
    var t := day2 + ("," + (gap + year));
    assert t[0] == day2[0];
    CollapseDayYear(day2, gap, year);
    CollapseSegment("-", after, t);
  }

  /** Normalising a captured `Month D, YYYY` leaves its canonical spelling. */
  lemma NormalizeDateCapture(m: DateMatch)
    requires m.WellFormed() && m.tail.rest == []
    ensures Normalize(m.Text()) == CanonDate(m).Text()
  {
    CollapseDateCapture(m);
    CanonDateEnds(m);
    assert IsLetter(m.md.month[0]) && IsDigit(m.tail.year[3]);
    NormalizeOfCollapsed(m.Text(), CanonDate(m).Text());
  }

  /** Normalising a captured single-month range (dash already replaced)
      leaves its canonical spelling. */
  lemma NormalizeRangeCapture(m: RangeMatch)
    requires m.WellFormed(IsHyphen) && m.tail.rest == []
    ensures Normalize(m.Text()) == CanonRange(m).Text()
  {
    var md := m.md;
    var t := m.day2 + ("," + (m.tail.gap + m.tail.year));
    var u := m.day2 + ("," + (SpaceIf(m.tail.gap) + m.tail.year));
    RangeTextFlat(m);
    RangeTextFlat(CanonRange(m));
    assert m.tail.year + m.tail.rest == m.tail.year;
    assert m.tail.year + [] == m.tail.year;
    CollapseDayYear(m.day2, m.tail.gap, m.tail.year);
    assert t[0] == m.day2[0];
    LastOfAppend(SpaceIf(m.tail.gap), m.tail.year);
    LastOfAppend(",", SpaceIf(m.tail.gap) + m.tail.year);
    LastOfAppend(m.day2, "," + (SpaceIf(m.tail.gap) + m.tail.year));
    NormalizeDashedText(md.month, md.gap, md.day, m.sep.before, m.sep.after, t, u);
  }

  /** The canonical spelling of a range capture is itself a well-formed
      capture with nothing after the year, naming the same range. */
  lemma CanonRangeWellFormed(m: RangeMatch)
    requires m.WellFormed(IsDash)
    ensures var c := CanonRange(m.(sep := m.sep.(dash := '-')));
            c.WellFormed(IsHyphen) && c.WellFormed(IsDash) && c.tail.rest == []
  {
  }

  lemma RangeOfCanon(m: RangeMatch)
    requires m.WellFormed(IsDash)
    ensures CanonRange(m.(sep := m.sep.(dash := '-'))).WellFormed(IsDash)
    ensures RangeOf(CanonRange(m.(sep := m.sep.(dash := '-')))) == RangeOf(m)
  {
    CanonRangeWellFormed(m);
  }

  function CanonSpan(m: SpanMatch): SpanMatch {
    SpanMatch(MonthDay(m.first.month, " ", m.first.day),
              DashSep(SpaceIf(m.sep.before), '-', SpaceIf(m.sep.after)),
              MonthDay(m.second.month, " ", m.second.day),
              YearTail(SpaceIf(m.tail.gap), m.tail.year, []))
  }

  /** Normalising a captured two-month range leaves its canonical spelling. */
  lemma NormalizeSpanCapture(m: SpanMatch)
    requires m.WellFormed() && m.tail.rest == []
    ensures Normalize(m.Text()) == CanonSpan(m).Text()
  {
    var d := DateMatch(m.second, m.tail);
    CollapseDateCapture(d);
    CanonDateEnds(d);
    var t3 := d.Text();
    var u3 := CanonDate(d).Text();
    var f := m.first;
    SpanTextFlat(m);
    SpanTextFlat(CanonSpan(m));
    assert DateMatch(CanonSpan(m).second, CanonSpan(m).tail) == CanonDate(d);
    DateTextFlat(d);
    assert t3[0] == m.second.month[0];
    NormalizeDashedText(f.month, f.gap, f.day, m.sep.before, m.sep.after, t3, u3);
  }

  lemma NormalizeDashedText(month: string, gap: string, day: string, before: string, after: string, t: string, u: string)
    requires month != [] && All(month, IsLetter) && gap != [] && All(gap, IsSpace) && All(day, IsDigit) && day != []
    requires All(before, IsSpace) && All(after, IsSpace)
    requires t != [] && !IsSpace(t[0]) && Collapse(t) == u && u != [] && !IsSpace(u[|u| - 1])
    ensures Normalize(month + (gap + (day + (before + ("-" + (after + t))))))
         == month + (" " + (day + (SpaceIf(before) + ("-" + (SpaceIf(after) + u)))))
  {
    CollapseDashedHead(month, gap, day, before, after, t);
    var r5 := SpaceIf(after) + u;
    var r4 := "-" + r5;
    var r3 := SpaceIf(before) + r4;
    var r2 := day + r3;
    var r1 := " " + r2;
    LastOfAppend(SpaceIf(after), u);
    LastOfAppend("-", r5);
    LastOfAppend(SpaceIf(before), r4);
    LastOfAppend(day, r3);
    LastOfAppend(" ", r2);
    LastOfAppend(month, r1);
    NormalizeOfCollapsed(month + (gap + (day + (before + ("-" + (after + t))))), month + r1);
  }

  /** Collapsing `Month D\s*-\s*` in front of a text that does not start
      with whitespace. */
  lemma CollapseDashedHead(month: string, gap: string, day: string, before: string, after: string, t: string)
    requires All(month, IsLetter) && gap != [] && All(gap, IsSpace) && All(day, IsDigit) && day != []
    requires All(before, IsSpace) && All(after, IsSpace)
    requires t != [] && !IsSpace(t[0])
    ensures Collapse(month + (gap + (day + (before + ("-" + (after + t))))))
         == month + (" " + (day + (SpaceIf(before) + ("-" + (SpaceIf(after) + Collapse(t))))))
  {
    var t2 := "-" + (after + t);
    var t1 := day + (before + t2);
    assert All(month, NotSpace);
    assert All(day, NotSpace);
    CollapseSegment("-", after, t);
    CollapseSegment(day, before, t2);
    assert t1[0] == day[0];
    CollapseSegment(month, gap, t1);
  }

  /** Collapsing a captured `Month D, YYYY` gives its canonical spelling. */
  lemma CollapseDateCapture(d: DateMatch)
    requires d.WellFormed() && d.tail.rest == []
    ensures Collapse(d.Text()) == CanonDate(d).Text()
  {
    var t4 := d.md.day + ("," + (d.tail.gap + d.tail.year));
    DateTextFlat(d);
    DateTextFlat(CanonDate(d));
    assert d.tail.year + d.tail.rest == d.tail.year;
    assert d.tail.year + [] == d.tail.year;
    CollapseDayYear(d.md.day, d.tail.gap, d.tail.year);
    assert t4[0] == d.md.day[0];
    CollapseSegment(d.md.month, d.md.gap, t4);
  }

  /** The canonical spelling of a date starts with the month's first letter
      and ends with the year's last digit. */
  lemma CanonDateEnds(d: DateMatch)
    requires d.WellFormed() && d.tail.rest == []
    ensures var c := CanonDate(d).Text(); c != [] && c[0] == d.md.month[0] && c[|c| - 1] == d.tail.year[3]
  {
    var u4 := d.md.day + ("," + (SpaceIf(d.tail.gap) + d.tail.year));
    DateTextFlat(CanonDate(d));
    assert d.tail.year + [] == d.tail.year;
    LastOfAppend(SpaceIf(d.tail.gap), d.tail.year);
    LastOfAppend(",", SpaceIf(d.tail.gap) + d.tail.year);
    LastOfAppend(d.md.day, "," + (SpaceIf(d.tail.gap) + d.tail.year));
    LastOfAppend(" ", u4);
    LastOfAppend(d.md.month, " " + u4);
  }

  /** A two-month capture holds no en dash (its dash is a hyphen). */
  lemma ReplaceSpanDash(m: SpanMatch)
    requires m.WellFormed() && m.tail.rest == []
    ensures ReplaceChar(m.Text(), EnDash, '-') == m.Text()
  {
    var d := DateMatch(m.second, m.tail);
    DateNoEnDash(d);
    SpanTextFlat(m);
    NoEnDashIn(m.first.month);
    NoEnDashIn(m.first.gap);
    NoEnDashIn(m.first.day);
    NoEnDashIn(m.sep.before);
    NoEnDashIn(m.sep.after);
    ReplaceCharAbsent(m.Text(), EnDash, '-');
  }

  /** A date capture holds no en dash. */
  lemma ReplaceDateDash(m: DateMatch)
    requires m.WellFormed() && m.tail.rest == []
    ensures ReplaceChar(m.Text(), EnDash, '-') == m.Text()
  {
    DateNoEnDash(m);
    ReplaceCharAbsent(m.Text(), EnDash, '-');
  }

  lemma DateNoEnDash(m: DateMatch)
    requires m.WellFormed() && m.tail.rest == []
    ensures EnDash !in m.Text()
  {
    DateTextFlat(m);
    NoEnDashIn(m.md.month);
    NoEnDashIn(m.md.gap);
    NoEnDashIn(m.md.day);
    NoEnDashIn(m.tail.gap);
    NoEnDashIn(m.tail.year);
  }

  // ---------------------------------------------------------------------------
  // Parsing a capture gives the date its tokens name
  // ---------------------------------------------------------------------------

  /** Re-parsing a `Month D, YYYY` capture, whatever its whitespace, yields
      the date of its month word, day and year. */
  lemma ParseMonthDayYearOfCapture(m: DateMatch)
    requires m.WellFormed() && m.tail.rest == []
    ensures ParseMonthDayYear(m.Text()) == DateOf(m.md.month, m.md.day, m.tail.year)
  {
    NormalizeDateCapture(m);
    ParseNormalDate(m.Text(), CanonDate(m));
  }

  lemma ParseNormalDate(text: string, c: DateMatch)
    requires c.WellFormed() && c.tail.rest == []
    requires Normalize(text) == c.Text()
    ensures ParseMonthDayYear(text) == DateOf(c.md.month, c.md.day, c.tail.year)
  {
    MatchDateText(c);
  }

  /** Parsing a single-month range capture, with either dash and any
      whitespace, yields the range of its tokens. */
  lemma ParseRangeOfCapture(m: RangeMatch)
    requires m.WellFormed(IsDash) && m.tail.rest == []
    ensures ParseRange(m.Text()) == RangeOf(m)
  {
    var m1 := m.(sep := m.sep.(dash := '-'));
    ReplaceRangeDash(m);
    assert m1.WellFormed(IsHyphen);
    NormalizeRangeCapture(m1);
    CanonRangeWellFormed(m);
    ParseNormalRange(m.Text(), CanonRange(m1));
    RangeOfCanon(m);
  }

  lemma ParseNormalRange(text: string, c: RangeMatch)
    requires c.WellFormed(IsHyphen) && c.tail.rest == []
    requires Normalize(ReplaceChar(text, EnDash, '-')) == c.Text()
    ensures ParseRange(text) == RangeOf(c)
  {
    RangeOfNormalText(c);
  }

  lemma RangeOfNormalText(c: RangeMatch)
    requires c.WellFormed(IsHyphen)
    ensures RangeOfNormal(c.Text()) == RangeOf(c)
  {
    MatchRangeText(c, IsHyphen);
  }

  /** A plain date given to the range parser is the one-day range of
      that date, or fails as the date does. */
  lemma ParseRangeOfDate(m: DateMatch)
    requires m.WellFormed() && m.tail.rest == []
    ensures ParseRange(m.Text()) == OneDay(DateOf(m.md.month, m.md.day, m.tail.year))
  {
    CanonDateOfText(m);
    RangeOfNormalDate(CanonDate(m));
  }

  /** What the range parser makes of a captured date before matching: the
      canonical spelling, itself a well-formed capture. */
  lemma CanonDateOfText(m: DateMatch)
    requires m.WellFormed() && m.tail.rest == []
    ensures Normalize(ReplaceChar(m.Text(), EnDash, '-')) == CanonDate(m).Text()
    ensures CanonDate(m).WellFormed() && CanonDate(m).tail.rest == []
  {
    ReplaceDateDash(m);
    NormalizeDateCapture(m);
    CanonDateWellFormed(m);
  }

  lemma CanonDateWellFormed(m: DateMatch)
    requires m.WellFormed()
    ensures CanonDate(m).WellFormed() && CanonDate(m).tail.rest == []
  {
  }

  lemma RangeOfNormalDate(c: DateMatch)
    requires c.WellFormed() && c.tail.rest == []
    ensures RangeOfNormal(c.Text()) == OneDay(DateOf(c.md.month, c.md.day, c.tail.year))
  {
    MatchMonthDayText(c.md, c.tail.Text());
    assert TakeWhile(c.tail.Text(), IsSpace).0 == [];
    assert MatchDash(c.tail.Text(), IsHyphen) == None;
    assert MatchRange(c.Text(), IsHyphen) == None;
    ParseMonthDayYearOfCapture(c);
  }

  /** The month words of the examples. */
  lemma OctoberMonth()
    ensures MonthNumber("October") == Some(10)
  {
    LowerOctober();
    MonthOfWord("October", "october", 10);
  }

  lemma MarchMonth()
    ensures MonthNumber("March") == Some(3)
  {
    LowerMarch();
    MonthOfWord("March", "march", 3);
  }

  lemma FebruaryMonth()
    ensures MonthNumber("February") == Some(2)
  {
    LowerFebruary();
    MonthOfWord("February", "february", 2);
  }

  lemma MonthOfWord(word: string, lower: string, m: int)
    requires Lower(word) == lower
    requires (lower == "october" && m == 10) || (lower == "march" && m == 3) || (lower == "february" && m == 2)
    ensures MonthNumber(word) == Some(m)
  {
  }

  lemma LowerOctober()
    ensures Lower("October") == "october"
  {
  }

  lemma LowerMarch()
    ensures Lower("March") == "march"
  {
  }

  lemma LowerFebruary()
    ensures Lower("February") == "february"
  {
  }

  /** Decimal readings of the numbers of the examples. */
  lemma YearNumbers()
    ensures DigitsValue("2025") == 2025 && DigitsValue("2026") == 2026
  {
    assert "2025"[..3] == "202" && "2026"[..3] == "202";
    assert "202"[..2] == "20" && "20"[..1] == "2" && "2"[..0] == "";
  }

  lemma DayNumbers()
    ensures DigitsValue("9") == 9 && DigitsValue("11") == 11
    ensures DigitsValue("14") == 14 && DigitsValue("15") == 15
  {
    assert "11"[..1] == "1" && "14"[..1] == "1" && "15"[..1] == "1" && "1"[..0] == "";
    assert "9"[..0] == "";
  }

  /** The dates of the examples. */
  lemma October11()
    ensures DateOf("October", "11", "2025") == Ok(DayNumber(2025, 10, 11))
  {
    OctoberMonth();
    YearNumbers();
    DayNumbers();
    ExampleDate("October", 10, "11", 11, "2025", 2025);
  }

  lemma October14()
    ensures DateOf("October", "14", "2025") == Ok(DayNumber(2025, 10, 14))
  {
    OctoberMonth();
    YearNumbers();
    DayNumbers();
    ExampleDate("October", 10, "14", 14, "2025", 2025);
  }

  lemma March9()
    ensures DateOf("March", "9", "2026") == Ok(DayNumber(2026, 3, 9))
  {
    MarchMonth();
    YearNumbers();
    DayNumbers();
    ExampleDate("March", 3, "9", 9, "2026", 2026);
  }

  lemma March15()
    ensures DateOf("March", "15", "2026") == Ok(DayNumber(2026, 3, 15))
  {
    MarchMonth();
    YearNumbers();
    DayNumbers();
    ExampleDate("March", 3, "15", 15, "2026", 2026);
  }

  lemma ExampleDate(month: string, m: int, day: string, d: int, year: string, y: int)
    requires All(day, IsDigit) && All(year, IsDigit)
    requires MonthNumber(month) == Some(m) && DigitsValue(day) == d && DigitsValue(year) == y
    requires ValidDate(y, m, d)
    ensures DateOf(month, day, year) == Ok(DayNumber(y, m, d))
  {
  }

  /** The first example of the range parser's documentation. */
  lemma ParseRangeExample(text: string)
    requires text == "October 11-14, 2025"
    ensures ParseRange(text) == Ok(DateRange(DayNumber(2025, 10, 11), DayNumber(2025, 10, 14)))
  {
    var m := RangeMatch(MonthDay("October", " ", "11"), DashSep("", '-', ""), "14", YearTail(" ", "2025", ""));
    OctoberRangeText(m);
    ParseRangeOfCapture(m);
    October11();
    October14();
  }

  /** An en dash with space around it parses like a hyphen. */
  lemma ParseRangeEnDashExample(text: string)
    requires text == "March 9 \U{2013} 15, 2026"
    ensures ParseRange(text) == Ok(DateRange(DayNumber(2026, 3, 9), DayNumber(2026, 3, 15)))
  {
    var m := RangeMatch(MonthDay("March", " ", "9"), DashSep(" ", EnDash, " "), "15", YearTail(" ", "2026", ""));
    MarchRangeText(m);
    ParseRangeOfCapture(m);
    March9();
    March15();
  }

  lemma OctoberRangeText(m: RangeMatch)
    requires m == RangeMatch(MonthDay("October", " ", "11"), DashSep("", '-', ""), "14", YearTail(" ", "2025", ""))
    ensures m.Text() == "October 11-14, 2025"
    ensures m.WellFormed(IsDash) && m.tail.rest == []
  {
    RangeTextFlat(m);
  }

  lemma MarchRangeText(m: RangeMatch)
    requires m == RangeMatch(MonthDay("March", " ", "9"), DashSep(" ", EnDash, " "), "15", YearTail(" ", "2026", ""))
    ensures m.Text() == "March 9 \U{2013} 15, 2026"
    ensures m.WellFormed(IsDash) && m.tail.rest == []
  {
    RangeTextFlat(m);
  }

  // ---------------------------------------------------------------------------
  // Splitting off the text after the year
  // ---------------------------------------------------------------------------

  /** A date match is its capture (up to the year) followed by the rest. */
  lemma DateMatchSplit(m: DateMatch)
    ensures m.Text() == m.(tail := m.tail.(rest := [])).Text() + m.tail.rest
  {
    assert m.tail.year + [] == m.tail.year;
  }

  lemma RangeMatchSplit(m: RangeMatch)
    ensures m.Text() == m.(tail := m.tail.(rest := [])).Text() + m.tail.rest
  {
    assert m.tail.year + [] == m.tail.year;
  }
}
