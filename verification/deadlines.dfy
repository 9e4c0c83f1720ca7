/** The dates-and-deadlines page: its lines lose their bullet prefixes, a
    scan finds the first `FULL` line under the drop heading and under the
    withdrawal heading, and the end date of each is read from the date or
    range written after `FULL`. */
module Deadlines {
  import opened Results
  import opened Strings
  import opened Calendar
  import opened Search
  import opened DateText
  import TermBlocks

  // ---------------------------------------------------------------------------
  // Page lines
  // ---------------------------------------------------------------------------

  /** `[\s\-\*•·]`: whitespace, hyphen, asterisk, bullet, middle dot. */
  predicate IsBulletChar(c: char) {
    IsSpace(c) || c == '-' || c == '*' || c == '\U{2022}' || c == '\U{00B7}'
  }

  /** `strip_bullets`: drop the leading run of bullet characters, then strip.
      What is left is empty or starts with a character that is no bullet,
      and never ends in whitespace. */
  function StripBullets(s: string): (r: string)
    ensures r == [] || !IsBulletChar(r[0])
    ensures r == [] || !IsSpace(r[|r| - 1])
    ensures |r| <= |s|
  {
    var rest := TakeWhile(s, IsBulletChar).1;
    StripAfterBullets(rest);
    Strip(rest)
  }

  lemma StripAfterBullets(rest: string)
    requires rest == [] || !IsBulletChar(rest[0])
    ensures Strip(rest) == [] || !IsBulletChar(Strip(rest)[0])
  {
    var l := LStrip(rest);
    assert l == [] || l[0] == rest[0];
    assert RStrip(l) == [] || RStrip(l)[0] == l[0];
  }

  /** On a line that does not end in whitespace (a normalised line, say),
      stripping bullets removes exactly the leading bullet run: the result
      is the line's suffix after that run. */
  lemma StripBulletsOfTrimmed(s: string)
    requires s == [] || !IsSpace(s[|s| - 1])
    ensures var r := StripBullets(s);
            && |r| <= |s| && r == s[|s| - |r|..]
            && All(s[..|s| - |r|], IsBulletChar)
  {
    var t := TakeWhile(s, IsBulletChar);
    var pre, rest := t.0, t.1;
    assert pre + rest == s;
    if rest != [] {
      LastOfAppend(pre, rest);
    }
    StripBulletsSplit(s, pre, rest);
    BulletPrefix(s, pre, rest);
  }

  lemma BulletPrefix(s: string, pre: string, rest: string)
    requires pre + rest == s && All(pre, IsBulletChar)
    ensures |rest| <= |s| && rest == s[|s| - |rest|..] && All(s[..|s| - |rest|], IsBulletChar)
  {
    assert s[..|pre|] == pre;
    assert s[|pre|..] == rest;
  }

  /** Bullets in front of a trimmed text that starts with no bullet are
      exactly what is removed. */
  lemma StripBulletsSplit(s: string, pre: string, rest: string)
    requires s == pre + rest && All(pre, IsBulletChar)
    requires rest == [] || (!IsBulletChar(rest[0]) && !IsSpace(rest[|rest| - 1]))
    ensures StripBullets(s) == rest
  {
    TakeWhileSplit(pre, rest, IsBulletChar);
    StripTrimmed(rest);
  }

  /** Stripping bullets twice is stripping them once. */
  lemma StripBulletsIdempotent(s: string)
    ensures StripBullets(StripBullets(s)) == StripBullets(s)
  {
    var r := StripBullets(s);
    assert [] + r == r;
    StripBulletsSplit(r, [], r);
  }

  /** The page's text lines, normalised, without empty lines and without
      bullet prefixes (a line of bullets only becomes empty and stays). */
  function DeadlineLines(raw: seq<string>): seq<string> {
    var n := TermBlocks.NormalizeLines(raw);
    seq(|n|, i requires 0 <= i < |n| => StripBullets(n[i]))
  }

  /** Each deadline line is what remains of the matching page line after
      its leading bullet run. */
  lemma DeadlineLinesFacts(raw: seq<string>, i: nat)
    requires i < |TermBlocks.NormalizeLines(raw)|
    ensures |DeadlineLines(raw)| == |TermBlocks.NormalizeLines(raw)|
    ensures var n := TermBlocks.NormalizeLines(raw)[i];
            var r := DeadlineLines(raw)[i];
            |r| <= |n| && r == n[|n| - |r|..] && All(n[..|n| - |r|], IsBulletChar)
  {
    var n := TermBlocks.NormalizeLines(raw);
    NormalizedLineEnd(raw, i);
    StrippedSuffix(n[i], DeadlineLines(raw)[i]);
  }

  lemma NormalizedLineEnd(raw: seq<string>, i: nat)
    requires i < |TermBlocks.NormalizeLines(raw)|
    ensures var n := TermBlocks.NormalizeLines(raw)[i]; n == [] || !IsSpace(n[|n| - 1])
  {
    TermBlocks.NormalizeLinesNormal(raw);
  }

  lemma StrippedSuffix(s: string, r: string)
    requires s == [] || !IsSpace(s[|s| - 1])
    requires r == StripBullets(s)
    ensures |r| <= |s| && r == s[|s| - |r|..] && All(s[..|s| - |r|], IsBulletChar)
  {
    StripBulletsOfTrimmed(s);
  }

  // ---------------------------------------------------------------------------
  // Finding the FULL lines
  // ---------------------------------------------------------------------------

  /** `re.search(r"Drop Period", l, re.IGNORECASE)`. */
  predicate DropHeader(l: string) {
    Contains(Lower(l), "drop period")
  }

  /** `re.search(r"Withdrawal Period", l, re.IGNORECASE)`. */
  predicate WithdrawHeader(l: string) {
    Contains(Lower(l), "withdrawal period")
  }

  /** `re.match(r"^FULL\b", l)`. */
  predicate IsFullLine(l: string) {
    StartsWith(l, "FULL") && (|l| == 4 || !IsWordChar(l[4]))
  }

  /** The section a line belongs to. */
  datatype Section = Outside | InDrop | InWithdraw

  /** The section in force when line `i` is reached: set by the last header
      line before it, a line naming both periods counting as a drop header. */
  function SectionAt(lines: seq<string>, i: nat): Section
    requires i <= |lines|
    decreases i
  {
    if i == 0 then Outside
    else if DropHeader(lines[i - 1]) then InDrop
    else if WithdrawHeader(lines[i - 1]) then InWithdraw
    else SectionAt(lines, i - 1)
  }

  /** Line `i` is a `FULL` line inside section `sec` (header lines never are). */
  predicate IsCandidate(lines: seq<string>, i: nat, sec: Section)
    requires i < |lines|
  {
    && !DropHeader(lines[i]) && !WithdrawHeader(lines[i])
    && SectionAt(lines, i) == sec && IsFullLine(lines[i])
  }

  /** `r` is the first candidate of section `sec` among the first `n` lines,
      or nothing when there is none. */
  predicate IsFirstCandidate(r: Option<string>, lines: seq<string>, sec: Section, n: nat)
    requires n <= |lines|
  {
    match r
    case None => forall i :: 0 <= i < n ==> !IsCandidate(lines, i, sec)
    case Some(l) =>
      exists i :: 0 <= i < n && IsCandidate(lines, i, sec) && lines[i] == l
                  && forall j :: 0 <= j < i ==> !IsCandidate(lines, j, sec)
  }

  /** The scanner's variables between two lines. */
  datatype ScanState = ScanState(inDrop: bool, inWithdraw: bool, drop: Option<string>, withdraw: Option<string>)
  {
    /** Python's truth value of the captured lines: both present and non-empty. */
    predicate BothCaptured() {
      drop.Some? && drop.value != [] && withdraw.Some? && withdraw.value != []
    }
  }

  /** What one line does to the scanner: a header switches the section, a
      first `FULL` line inside a section is captured; any other line
      changes nothing. */
  function Step(l: string, st: ScanState): ScanState {
    if DropHeader(l) then st.(inDrop := true, inWithdraw := false)
    else if WithdrawHeader(l) then st.(inDrop := false, inWithdraw := true)
    else if st.inDrop && st.drop.None? && IsFullLine(l) then st.(drop := Some(l))
    else if st.inWithdraw && st.withdraw.None? && IsFullLine(l) then st.(withdraw := Some(l))
    else st
  }

  /** The loop's `break`: reached only by a line that is neither a header
      nor captured, once both lines are captured. */
  predicate Stops(l: string, st: ScanState) {
    && !DropHeader(l) && !WithdrawHeader(l)
    && !(st.inDrop && st.drop.None? && IsFullLine(l))
    && !(st.inWithdraw && st.withdraw.None? && IsFullLine(l))
    && st.BothCaptured()
  }

  /** The loop of `parse_deadlines_drop_withdraw` from line `i` on,
      including its early exit. */
  function ScanFrom(lines: seq<string>, i: nat, st: ScanState): (Option<string>, Option<string>)
    requires i <= |lines|
    decreases |lines| - i
  {
    if i == |lines| || Stops(lines[i], st) then (st.drop, st.withdraw)
    else ScanFrom(lines, i + 1, Step(lines[i], st))
  }

  /** The scanner's state agrees with the section reached at line `i` and
      holds the first candidates found so far. */
  predicate ScanInvariant(lines: seq<string>, i: nat, st: ScanState)
    requires i <= |lines|
  {
    && SectionAt(lines, i) == (if st.inDrop then InDrop else if st.inWithdraw then InWithdraw else Outside)
    && !(st.inDrop && st.inWithdraw)
    && IsFirstCandidate(st.drop, lines, InDrop, i)
    && IsFirstCandidate(st.withdraw, lines, InWithdraw, i)
  }

  /** A first candidate among the first `n` lines stays first among more. */
  lemma FirstCandidateExtends(r: Option<string>, lines: seq<string>, sec: Section, n: nat, m: nat)
    requires n <= m <= |lines|
    requires r.Some? && IsFirstCandidate(r, lines, sec, n)
    ensures IsFirstCandidate(r, lines, sec, m)
  {
  }

  /** One more line keeps a first candidate (or its absence) when it is
      not a new candidate. */
  lemma FirstCandidateStep(r: Option<string>, lines: seq<string>, sec: Section, i: nat)
    requires i < |lines| && IsFirstCandidate(r, lines, sec, i)
    requires r.Some? || !IsCandidate(lines, i, sec)
    ensures IsFirstCandidate(r, lines, sec, i + 1)
  {
  }

  /** The first candidate found at line `i`. */
  lemma FirstCandidateAt(lines: seq<string>, sec: Section, i: nat)
    requires i < |lines| && IsFirstCandidate(None, lines, sec, i) && IsCandidate(lines, i, sec)
    ensures IsFirstCandidate(Some(lines[i]), lines, sec, i + 1)
  {
  }

  /** Each line keeps the scanner's invariant. */
  lemma StepKeepsInvariant(lines: seq<string>, i: nat, st: ScanState)
    requires i < |lines| && ScanInvariant(lines, i, st)
    ensures ScanInvariant(lines, i + 1, Step(lines[i], st))
  {
    var l := lines[i];
    if DropHeader(l) || WithdrawHeader(l) {
      FirstCandidateStep(st.drop, lines, InDrop, i);
      FirstCandidateStep(st.withdraw, lines, InWithdraw, i);
    } else if st.inDrop && st.drop.None? && IsFullLine(l) {
      FirstCandidateAt(lines, InDrop, i);
      FirstCandidateStep(st.withdraw, lines, InWithdraw, i);
    } else if st.inWithdraw && st.withdraw.None? && IsFullLine(l) {
      FirstCandidateStep(st.drop, lines, InDrop, i);
      FirstCandidateAt(lines, InWithdraw, i);
    } else {
      FirstCandidateStep(st.drop, lines, InDrop, i);
      FirstCandidateStep(st.withdraw, lines, InWithdraw, i);
    }
  }

  /** From a state that keeps the invariant, the scan ends with the first
      candidates of the whole page, early exit or not. */
  lemma {:induction false} ScanFromFinds(lines: seq<string>, i: nat, st: ScanState)
    requires i <= |lines| && ScanInvariant(lines, i, st)
    ensures IsFirstCandidate(ScanFrom(lines, i, st).0, lines, InDrop, |lines|)
    ensures IsFirstCandidate(ScanFrom(lines, i, st).1, lines, InWithdraw, |lines|)
    decreases |lines| - i
  {
    if i < |lines| {
      if Stops(lines[i], st) {
        FirstCandidateExtends(st.drop, lines, InDrop, i, |lines|);
        FirstCandidateExtends(st.withdraw, lines, InWithdraw, i, |lines|);
      } else {
        StepKeepsInvariant(lines, i, st);
        ScanFromFinds(lines, i + 1, Step(lines[i], st));
      }
    }
  }

  /** The scan over the whole page: the first `FULL` line of the drop
      section and the first of the withdrawal section. */
  function FindFullLines(lines: seq<string>): (r: (Option<string>, Option<string>))
    ensures IsFirstCandidate(r.0, lines, InDrop, |lines|)
    ensures IsFirstCandidate(r.1, lines, InWithdraw, |lines|)
  {
    var st := ScanState(false, false, None, None);
    ScanFromFinds(lines, 0, st);
    ScanFrom(lines, 0, st)
  }

  // ---------------------------------------------------------------------------
  // The end date of a FULL line
  // ---------------------------------------------------------------------------

  /** `[\s\-–:]`: the separators between `FULL` and the dates. */
  predicate IsSepChar(c: char) {
    IsSpace(c) || c == '-' || c == EnDash || c == ':'
  }

  /** What `extract_end_date_from_full_line` keeps of a line: `FULL` (as a
      word) and the separators after it are removed, the rest is stripped,
      its en dashes become hyphens and its whitespace is normalised. */
  function FullRest(line: string): string {
    Normalize(ReplaceChar(DropSeparators(DropFull(line)), EnDash, '-'))
  }

  /** `re.sub(r"^FULL\b", "", line).strip()`. */
  function DropFull(line: string): string {
    Strip(if IsFullLine(line) then line[4..] else line)
  }

  /** `re.sub(r"^[\s\-–:]+", "", rest).strip()`. */
  function DropSeparators(rest: string): string {
    Strip(TakeWhile(rest, IsSepChar).1)
  }

  /** A date capture at the start of `s`: what `[A-Za-z]+\s+\d{1,2},\s*\d{4}`
      matches there, without the text after the year. */
  function DateCaptureAt(s: string): (r: Option<DateMatch>)
    ensures r.Some? ==> r.value.WellFormed() && r.value.tail.rest == [] && OccursAt(s, r.value.Text(), 0)
    ensures r.Some? <==> MatchDate(s).Some?
  {
    match MatchDate(s)
    case None => None
    case Some(m) =>
      DateMatchSplit(m);
      var c := m.(tail := m.tail.(rest := []));
      assert s[..|c.Text()|] == c.Text();
      Some(c)
  }

  function DateCaptures(): string -> Option<DateMatch> {
    s => DateCaptureAt(s)
  }

  /** The number of characters a capture spans. */
  function CaptureWidth(m: DateMatch): nat {
    |m.Text()|
  }

  /** A capture spans at least its month word and at most what it was read from. */
  lemma CaptureWidths()
    ensures forall u :: DateCaptures()(u).Some? ==>
              0 < CaptureWidth(DateCaptures()(u).value) <= |u|
  {
    forall u | DateCaptures()(u).Some?
      ensures 0 < CaptureWidth(DateCaptures()(u).value) <= |u|
    {
      var m := DateCaptureAt(u).value;
      assert m.Text()[0] == m.md.month[0];
    }
  }

  /** `re.findall` of the date pattern over the whole string. */
  function FindAllDates(s: string): seq<(nat, DateMatch)> {
    CaptureWidths();
    FindAll(s, 0, DateCaptures(), CaptureWidth)
  }

  /** Every capture `re.findall` reports is a well-formed date that occurs
      in `s` where it is reported; there are none exactly when no capture
      starts anywhere. */
  lemma FindAllDatesFacts(s: string)
    ensures FindAllDates(s) == [] <==> NoMatchBetween(s, 0, |s| + 1, DateCaptures())
    ensures forall k :: 0 <= k < |FindAllDates(s)| ==>
              && FindAllDates(s)[k].1.WellFormed() && FindAllDates(s)[k].1.tail.rest == []
              && OccursAt(s, FindAllDates(s)[k].1.Text(), FindAllDates(s)[k].0)
  {
    CaptureWidths();
    var r := FindAllDates(s);
    FindAllOccur(s, 0, DateCaptures(), CaptureWidth);
    FindAllGaps(s, 0, DateCaptures(), CaptureWidth);
    forall k | 0 <= k < |r|
      ensures r[k].1.WellFormed() && r[k].1.tail.rest == [] && OccursAt(s, r[k].1.Text(), r[k].0)
    {
      CaptureOccurs(s, r[k].0, r[k].1);
    }
  }

  lemma CaptureOccurs(s: string, q: nat, m: DateMatch)
    requires q <= |s| && DateCaptures()(s[q..]) == Some(m)
    ensures m.WellFormed() && m.tail.rest == [] && OccursAt(s, m.Text(), q)
  {
    assert DateCaptureAt(s[q..]) == Some(m);
    assert s[q..][..|m.Text()|] == s[q..q + |m.Text()|];
  }

  /** A whole-string match of one of the three date forms. */
  predicate FullDate(rest: string) {
    MatchDate(rest).Some? && MatchDate(rest).value.tail.rest == []
  }

  predicate FullSpan(rest: string) {
    MatchSpan(rest).Some? && MatchSpan(rest).value.tail.rest == []
  }

  predicate FullRange(rest: string) {
    MatchRange(rest, IsHyphen).Some? && MatchRange(rest, IsHyphen).value.tail.rest == []
  }

  /** The end date written in the normalised rest of a `FULL` line: a
      single date, the second date of a two-month range, the second day of
      a single-month range, or else the last date written anywhere. There
      is no date only when none of these occurs. */
  function EndDateOfRest(rest: string): (r: Result<Option<Date>>)
    ensures r == Ok(None) <==>
              !FullDate(rest) && !FullSpan(rest) && !FullRange(rest) && NoMatchBetween(rest, 0, |rest| + 1, DateCaptures())
  {
    FindAllDatesFacts(rest);
    if FullDate(rest) then
      ParseMonthDayYear(rest).AsSome()
    else if FullSpan(rest) then
      var m := MatchSpan(rest).value;
      DateOf(m.second.month, m.second.day, m.tail.year).AsSome()
    else if FullRange(rest) then
      var m := MatchRange(rest, IsHyphen).value;
      DateOf(m.md.month, m.day2, m.tail.year).AsSome()
    else
      var found := FindAllDates(rest);
      if found == [] then Ok(None)
      else ParseMonthDayYear(found[|found| - 1].1.Text()).AsSome()
  }

  /** `extract_end_date_from_full_line`: no line (or an empty one) has no
      end date; otherwise the end date is read from what is left of the
      line once `FULL`, the separators and the surrounding whitespace are
      removed. */
  function ExtractEndDate(line: Option<string>): (r: Result<Option<Date>>)
    ensures line.None? || line.value == [] ==> r == Ok(None)
    ensures line.Some? && line.value != [] ==> r == EndDateOfRest(FullRest(line.value))
  {
    if line.None? || line.value == [] then Ok(None)
    else EndDateOfRest(FullRest(line.value))
  }

  // ---------------------------------------------------------------------------
  // The end date each form of FULL line yields
  // ---------------------------------------------------------------------------

  /** A single date is its own end date. */
  lemma EndOfDate(c: DateMatch)
    requires c.WellFormed() && c.tail.rest == []
    ensures EndDateOfRest(c.Text()) == DateOf(c.md.month, c.md.day, c.tail.year).AsSome()
  {
    MatchDateText(c);
    ParseMonthDayYearOfCapture(c);
  }

  /** A two-month range ends on its second month and day. */
  lemma EndOfSpan(c: SpanMatch)
    requires c.WellFormed() && c.tail.rest == []
    ensures EndDateOfRest(c.Text()) == DateOf(c.second.month, c.second.day, c.tail.year).AsSome()
  {
    var after := c.sep.Text() + (c.second.Text() + c.tail.Text());
    assert after[0] == (if c.sep.before == [] then c.sep.dash else c.sep.before[0]);
    MatchMonthDayText(c.first, after);
    assert MatchDate(c.Text()).None?;
    MatchSpanText(c);
  }

  /** A single-month range ends on its second day. */
  lemma EndOfRange(c: RangeMatch)
    requires c.WellFormed(IsHyphen) && c.tail.rest == []
    ensures EndDateOfRest(c.Text()) == DateOf(c.md.month, c.day2, c.tail.year).AsSome()
  {
    RangeIsNoDate(c);
    RangeIsNoSpan(c);
    MatchRangeText(c, IsHyphen);
  }

  lemma RangeIsNoDate(c: RangeMatch)
    requires c.WellFormed(IsHyphen)
    ensures MatchDate(c.Text()).None?
  {
    var after := c.sep.Text() + (c.day2 + c.tail.Text());
    assert after[0] == (if c.sep.before == [] then c.sep.dash else c.sep.before[0]);
    MatchMonthDayText(c.md, after);
  }

  lemma RangeIsNoSpan(c: RangeMatch)
    requires c.WellFormed(IsHyphen)
    ensures MatchSpan(c.Text()).None?
  {
    var days := c.day2 + c.tail.Text();
    var after := c.sep.Text() + days;
    assert days[0] == c.day2[0];
    MatchMonthDayText(c.md, after);
    MatchDashText(c.sep, days, IsHyphen);
    assert TakeWhile(days, IsLetter).0 == [];
  }

  /** Otherwise the last date written anywhere in the rest decides. */
  lemma EndOfLastDate(rest: string)
    requires !FullDate(rest) && !FullSpan(rest) && !FullRange(rest) && FindAllDates(rest) != []
    ensures FindAllDates(rest)[|FindAllDates(rest)| - 1].1.WellFormed()
    ensures EndDateOfRest(rest) == DateOf(FindAllDates(rest)[|FindAllDates(rest)| - 1].1.md.month,
                                          FindAllDates(rest)[|FindAllDates(rest)| - 1].1.md.day,
                                          FindAllDates(rest)[|FindAllDates(rest)| - 1].1.tail.year).AsSome()
  {
    FindAllDatesFacts(rest);
    ParseMonthDayYearOfCapture(FindAllDates(rest)[|FindAllDates(rest)| - 1].1);
  }

  /** What is left of `FULL`, separators and a text from its first letter to
      its last non-space character is that text, dashes replaced and
      whitespace normalised. */
  lemma RestOfFullLine(sep: string, body: string)
    requires sep != [] && All(sep, IsSepChar)
    requires body != [] && IsLetter(body[0]) && !IsSpace(body[|body| - 1])
    ensures FullRest("FULL" + (sep + body)) == Normalize(ReplaceChar(body, EnDash, '-'))
  {
    var k := DropFullOf(sep, body);
    DropSeparatorsOf(sep[k..], body);
  }

  /** Removing the word `FULL` and stripping keeps a tail of the separators. */
  lemma DropFullOf(sep: string, body: string) returns (k: nat)
    requires sep != [] && All(sep, IsSepChar)
    requires body != [] && IsLetter(body[0]) && !IsSpace(body[|body| - 1])
    ensures k <= |sep| && DropFull("FULL" + (sep + body)) == sep[k..] + body
  {
    var line := "FULL" + (sep + body);
    assert line[..4] == "FULL" && line[4] == sep[0];
    SeparatorEndsWord(sep[0]);
    assert IsFullLine(line);
    assert line[4..] == sep + body;
    k := StripBeforeBody(sep, body);
  }

  /** Removing the separators and stripping leaves the text. */
  lemma DropSeparatorsOf(sep: string, body: string)
    requires All(sep, IsSepChar)
    requires body != [] && IsLetter(body[0]) && !IsSpace(body[|body| - 1])
    ensures DropSeparators(sep + body) == body
  {
    TakeWhileSplit(sep, body, IsSepChar);
    StripTrimmed(body);
  }

  lemma SeparatorEndsWord(c: char)
    requires IsSepChar(c)
    ensures !IsWordChar(c)
  {
  }

  /** Stripping whitespace in front of a trimmed text only eats into what
      comes before it. */
  lemma StripBeforeBody(pre: string, body: string) returns (k: nat)
    requires body != [] && !IsSpace(body[0]) && !IsSpace(body[|body| - 1])
    ensures k <= |pre| && Strip(pre + body) == pre[k..] + body
  {
    var (a, b) := TakeWhile(pre, IsSpace);
    k := |a|;
    assert pre[k..] == b;
    if b == [] {
      assert pre == a;
      TakeWhileSplit(a, body, IsSpace);
    } else {
      assert (b + body)[0] == b[0];
      TakeWhileSplit(a, b + body, IsSpace);
      assert pre + body == a + (b + body);
    }
    var l := b + body;
    assert LStrip(pre + body) == l;
    assert l[|l| - 1] == body[|body| - 1];
  }

  /** A `FULL` line holding one date ends on that date. */
  lemma FullLineDate(sep: string, m: DateMatch)
    requires sep != [] && All(sep, IsSepChar)
    requires m.WellFormed() && m.tail.rest == []
    ensures ExtractEndDate(Some("FULL" + (sep + m.Text()))) == DateOf(m.md.month, m.md.day, m.tail.year).AsSome()
  {
    RestOfDateLine(sep, m);
    CanonDateWellFormed(m);
    EndOfDate(CanonDate(m));
  }

  lemma RestOfDateLine(sep: string, m: DateMatch)
    requires sep != [] && All(sep, IsSepChar)
    requires m.WellFormed() && m.tail.rest == []
    ensures FullRest("FULL" + (sep + m.Text())) == CanonDate(m).Text()
  {
    assert m.Text()[0] == m.md.month[0];
    assert m.tail.year + [] == m.tail.year;
    assert m.Text()[|m.Text()| - 1] == m.tail.year[3];
    RestOfFullLine(sep, m.Text());
    ReplaceDateDash(m);
    NormalizeDateCapture(m);
  }

  /** A `FULL` line holding a two-month range ends on its second date. */
  lemma FullLineSpan(sep: string, m: SpanMatch)
    requires sep != [] && All(sep, IsSepChar)
    requires m.WellFormed() && m.tail.rest == []
    ensures ExtractEndDate(Some("FULL" + (sep + m.Text()))) == DateOf(m.second.month, m.second.day, m.tail.year).AsSome()
  {
    RestOfSpanLine(sep, m);
    CanonSpanWellFormed(m);
    EndOfSpan(CanonSpan(m));
  }

  lemma CanonSpanWellFormed(m: SpanMatch)
    requires m.WellFormed()
    ensures CanonSpan(m).WellFormed() && CanonSpan(m).tail.rest == []
  {
  }

  lemma RestOfSpanLine(sep: string, m: SpanMatch)
    requires sep != [] && All(sep, IsSepChar)
    requires m.WellFormed() && m.tail.rest == []
    ensures FullRest("FULL" + (sep + m.Text())) == CanonSpan(m).Text()
  {
    assert m.Text()[0] == m.first.month[0];
    assert m.tail.year + [] == m.tail.year;
    assert m.Text()[|m.Text()| - 1] == m.tail.year[3];
    RestOfFullLine(sep, m.Text());
    ReplaceSpanDash(m);
    NormalizeSpanCapture(m);
  }

  /** A `FULL` line holding a single-month range, with a hyphen or an en
      dash, ends on its second day. */
  lemma FullLineRange(sep: string, m: RangeMatch)
    requires sep != [] && All(sep, IsSepChar)
    requires m.WellFormed(IsDash) && m.tail.rest == []
    ensures ExtractEndDate(Some("FULL" + (sep + m.Text()))) == DateOf(m.md.month, m.day2, m.tail.year).AsSome()
  {
    var c := CanonRange(m.(sep := m.sep.(dash := '-')));
    RestOfRangeLine(sep, m);
    CanonRangeWellFormed(m);
    EndOfRange(c);
  }

  lemma RestOfRangeLine(sep: string, m: RangeMatch)
    requires sep != [] && All(sep, IsSepChar)
    requires m.WellFormed(IsDash) && m.tail.rest == []
    ensures FullRest("FULL" + (sep + m.Text())) == CanonRange(m.(sep := m.sep.(dash := '-'))).Text()
  {
    assert m.Text()[0] == m.md.month[0];
    assert m.tail.year + [] == m.tail.year;
    assert m.Text()[|m.Text()| - 1] == m.tail.year[3];
    RestOfFullLine(sep, m.Text());
    ReplaceRangeDash(m);
    NormalizeRangeCapture(m.(sep := m.sep.(dash := '-')));
  }

  // ---------------------------------------------------------------------------
  // The lines of the page's documentation
  // ---------------------------------------------------------------------------

  /** A two-month `FULL` line ends on its second date. */
  lemma SpanLineExample(sep: string, body: string)
    requires sep == "  -  " && body == "January 20 - February 2, 2026"
    ensures ExtractEndDate(Some("FULL" + (sep + body))) == Ok(Some(DayNumber(2026, 2, 2)))
  {
    var m := SpanMatch(MonthDay("January", " ", "20"), DashSep(" ", '-', " "),
                       MonthDay("February", " ", "2"), YearTail(" ", "2026", ""));
    SpanText(m);
    ExampleSeparators(sep);
    FullLineSpan(sep, m);
    February2();
  }

  /** A single-month `FULL` line ends on its second day. */
  lemma RangeLineExample(sep: string, body: string)
    requires sep == " - " && body == "March 16-29, 2026"
    ensures ExtractEndDate(Some("FULL" + (sep + body))) == Ok(Some(DayNumber(2026, 3, 29)))
  {
    var m := RangeMatch(MonthDay("March", " ", "16"), DashSep("", '-', ""), "29", YearTail(" ", "2026", ""));
    RangeText(m);
    ExampleSeparators(sep);
    FullLineRange(sep, m);
    March29();
  }

  lemma SpanText(m: SpanMatch)
    requires m == SpanMatch(MonthDay("January", " ", "20"), DashSep(" ", '-', " "),
                            MonthDay("February", " ", "2"), YearTail(" ", "2026", ""))
    ensures m.Text() == "January 20 - February 2, 2026" && m.WellFormed() && m.tail.rest == []
  {
    SpanTextFlat(m);
    DateTextFlat(DateMatch(m.second, m.tail));
    SpanLiteral();
    SpanWellFormed(m);
  }

  lemma SpanLiteral()
    ensures "January" + (" " + ("20" + (" " + (['-'] + (" " + ("February" + (" " + ("2" + ("," + (" " + ("2026" + "")))))))))))
         == "January 20 - February 2, 2026"
  {
  }

  lemma SpanWellFormed(m: SpanMatch)
    requires m == SpanMatch(MonthDay("January", " ", "20"), DashSep(" ", '-', " "),
                            MonthDay("February", " ", "2"), YearTail(" ", "2026", ""))
    ensures m.WellFormed()
  {
  }

  lemma RangeText(m: RangeMatch)
    requires m == RangeMatch(MonthDay("March", " ", "16"), DashSep("", '-', ""), "29", YearTail(" ", "2026", ""))
    ensures m.Text() == "March 16-29, 2026" && m.WellFormed(IsDash) && m.tail.rest == []
  {
  }

  lemma ExampleSeparators(sep: string)
    requires sep == "  -  " || sep == " - "
    ensures sep != [] && All(sep, IsSepChar)
  {
  }

  /** The end dates of the examples. */
  lemma February2()
    ensures DateOf("February", "2", "2026") == Ok(DayNumber(2026, 2, 2))
  {
    FebruaryMonth();
    ExampleEndNumbers();
    ExampleDate("February", 2, "2", 2, "2026", 2026);
  }

  lemma March29()
    ensures DateOf("March", "29", "2026") == Ok(DayNumber(2026, 3, 29))
  {
    MarchMonth();
    ExampleEndNumbers();
    ExampleDate("March", 3, "29", 29, "2026", 2026);
  }

  lemma ExampleEndNumbers()
    ensures DigitsValue("2") == 2 && DigitsValue("29") == 29 && DigitsValue("2026") == 2026
  {
    assert "2026"[..3] == "202" && "202"[..2] == "20" && "20"[..1] == "2" && "2"[..0] == "";
    assert "29"[..1] == "2";
  }

  // ---------------------------------------------------------------------------
  // The whole page
  // ---------------------------------------------------------------------------

  /** `parse_deadlines_drop_withdraw` on the page's raw text lines: the end
      dates of the first `FULL` line of the drop section and of the
      withdrawal section. A section without a `FULL` line has no date; an
      unparsable date aborts, the drop line's error first. */
  function ParseDeadlines(raw: seq<string>): Result<(Option<Date>, Option<Date>)>
  {
    var found := FindFullLines(DeadlineLines(raw));
    BothEnds(ExtractEndDate(found.0), ExtractEndDate(found.1))
  }

  /** Both readings when both succeed, else the first error. */
  function BothEnds(drop: Result<Option<Date>>, withdraw: Result<Option<Date>>): Result<(Option<Date>, Option<Date>)>
  {
    var lastDrop :- drop;
    var lastWithdraw :- withdraw;
    Ok((lastDrop, lastWithdraw))
  }

  /** `res` is what reading the end date of section `sec`'s first `FULL`
      line gives (no line at all reads as no date). */
  ghost predicate SectionEnd(lines: seq<string>, sec: Section, res: Result<Option<Date>>) {
    exists line :: IsFirstCandidate(line, lines, sec, |lines|) && ExtractEndDate(line) == res
  }

  /** A section has one first `FULL` line, so one reading. */
  lemma FirstCandidateUnique(a: Option<string>, b: Option<string>, lines: seq<string>, sec: Section, n: nat)
    requires n <= |lines|
    requires IsFirstCandidate(a, lines, sec, n) && IsFirstCandidate(b, lines, sec, n)
    ensures a == b
  {
    if a.Some? && b.Some? {
      var i :| 0 <= i < n && IsCandidate(lines, i, sec) && lines[i] == a.value
               && forall j :: 0 <= j < i ==> !IsCandidate(lines, j, sec);
      var k :| 0 <= k < n && IsCandidate(lines, k, sec) && lines[k] == b.value
               && forall j :: 0 <= j < k ==> !IsCandidate(lines, j, sec);
      assert !(i < k) && !(k < i);
    }
  }

  lemma SectionEndUnique(lines: seq<string>, sec: Section, a: Result<Option<Date>>, b: Result<Option<Date>>)
    requires SectionEnd(lines, sec, a) && SectionEnd(lines, sec, b)
    ensures a == b
  {
    var la :| IsFirstCandidate(la, lines, sec, |lines|) && ExtractEndDate(la) == a;
    var lb :| IsFirstCandidate(lb, lines, sec, |lines|) && ExtractEndDate(lb) == b;
    FirstCandidateUnique(la, lb, lines, sec, |lines|);
  }

  /** A section without any `FULL` line has no end date. */
  lemma NoCandidateNoDate(lines: seq<string>, sec: Section)
    requires forall i :: 0 <= i < |lines| ==> !IsCandidate(lines, i, sec)
    ensures SectionEnd(lines, sec, Ok(None))
  {
    assert IsFirstCandidate(None, lines, sec, |lines|);
  }

  /** The page's dates are the readings of the two sections; when it
      fails, one of the readings failed with that error. */
  lemma ParseDeadlinesEnds(raw: seq<string>)
    ensures ParseDeadlines(raw).Ok? ==>
              && SectionEnd(DeadlineLines(raw), InDrop, Ok(ParseDeadlines(raw).value.0))
              && SectionEnd(DeadlineLines(raw), InWithdraw, Ok(ParseDeadlines(raw).value.1))
    ensures ParseDeadlines(raw).Err? ==>
              || SectionEnd(DeadlineLines(raw), InDrop, Err(ParseDeadlines(raw).error))
              || SectionEnd(DeadlineLines(raw), InWithdraw, Err(ParseDeadlines(raw).error))
  {
    var lines := DeadlineLines(raw);
    var found := FindFullLines(lines);
    assert IsFirstCandidate(found.0, lines, InDrop, |lines|);
    assert IsFirstCandidate(found.1, lines, InWithdraw, |lines|);
    var a := ExtractEndDate(found.0);
    var b := ExtractEndDate(found.1);
    assert SectionEnd(lines, InDrop, a);
    assert SectionEnd(lines, InWithdraw, b);
    assert ParseDeadlines(raw) == BothEnds(a, b);
  }

  /** A section whose reading fails makes the page fail, the drop
      section's error taking precedence. */
  lemma ParseDeadlinesFails(raw: seq<string>, e: Error)
    ensures SectionEnd(DeadlineLines(raw), InDrop, Err(e)) ==> ParseDeadlines(raw) == Err(e)
    ensures SectionEnd(DeadlineLines(raw), InWithdraw, Err(e)) ==> ParseDeadlines(raw).Err?
  {
    var lines := DeadlineLines(raw);
    var found := FindFullLines(lines);
    var a := ExtractEndDate(found.0);
    var b := ExtractEndDate(found.1);
    assert SectionEnd(lines, InDrop, a);
    assert SectionEnd(lines, InWithdraw, b);
    assert ParseDeadlines(raw) == BothEnds(a, b);
    if SectionEnd(lines, InDrop, Err(e)) {
      SectionEndUnique(lines, InDrop, Err(e), a);
    }
    if SectionEnd(lines, InWithdraw, Err(e)) {
      SectionEndUnique(lines, InWithdraw, Err(e), b);
    }
  }
}
