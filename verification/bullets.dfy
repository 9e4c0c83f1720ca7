/** The labelled bullets of a term block: `Label: Month D, YYYY` and
    `Label: Month D-D, YYYY`, found with a leftmost search anywhere in the
    block text (so the whitespace around the colon may span lines), and
    parsed with the date grammar. */
module Bullets {
  import opened Results
  import opened Strings
  import opened Calendar
  import opened Search
  import opened DateText

  /** `<label>\s*:\s*`: the label taken literally, then a colon with optional
      whitespace around it. */
  datatype LabelPrefix = LabelPrefix(name: string, before: string, after: string) {
    predicate WellFormed() {
      All(before, IsSpace) && All(after, IsSpace)
    }

    function Text(): string {
      name + (before + (":" + after))
    }
  }

  /** Reads a `LabelPrefix` for `name` from the start of `s`. */
  function MatchLabel(s: string, name: string): (r: Option<(LabelPrefix, string)>)
    ensures r.Some? ==> r.value.0.WellFormed() && r.value.0.name == name
    ensures r.Some? ==> r.value.0.Text() + r.value.1 == s
    ensures r.Some? ==> r.value.1 == [] || !IsSpace(r.value.1[0])
  {
    if !StartsWith(s, name) then None
    else
      var (before, s1) := TakeWhile(s[|name|..], IsSpace);
      if s1 == [] || s1[0] != ':' then None
      else
        var (after, s2) := TakeWhile(s1[1..], IsSpace);
        assert s1 == ":" + s1[1..];
        assert s == name + s[|name|..];
        Some((LabelPrefix(name, before, after), s2))
  }

  lemma MatchLabelText(p: LabelPrefix, rest: string)
    requires p.WellFormed()
    requires rest == [] || !IsSpace(rest[0])
    ensures MatchLabel(p.Text() + rest, p.name) == Some((p, rest))
  {
    var s := p.Text() + rest;
    var s1 := ":" + (p.after + rest);
    assert s == p.name + (p.before + s1);
    assert s[|p.name|..] == p.before + s1;
    TakeWhileSplit(p.before, s1, IsSpace);
    assert s1[1..] == p.after + rest;
    TakeWhileSplit(p.after, rest, IsSpace);
  }

  // ---------------------------------------------------------------------------
  // `Label: Month D, YYYY`
  // ---------------------------------------------------------------------------

  /** A hit of `find_bullet_date`'s pattern: the label prefix, the captured
      date (note `,\s+`: at least one whitespace character before the year)
      and whatever follows it. */
  datatype DateHit = DateHit(prefix: LabelPrefix, capture: DateMatch, more: string) {
    predicate WellFormed() {
      && prefix.WellFormed() && capture.WellFormed()
      && capture.tail.rest == [] && capture.tail.gap != []
    }

    function Text(): string {
      prefix.Text() + (capture.Text() + more)
    }
  }

  /** The pattern of `find_bullet_date`, anchored at the start of `s`. */
  function DateHitAt(s: string, name: string): (r: Option<DateHit>)
    ensures r.Some? ==> r.value.WellFormed() && r.value.prefix.name == name && r.value.Text() == s
  {
    match MatchLabel(s, name)
    case None => None
    case Some((p, s1)) =>
      match MatchDate(s1)
      case None => None
      case Some(m) =>
        if m.tail.gap == [] then None
        else
          DateMatchSplit(m);
          Some(DateHit(p, m.(tail := m.tail.(rest := [])), m.tail.rest))
  }

  /** Every well-formed hit is found again where it occurs. */
  lemma DateHitAtText(h: DateHit)
    requires h.WellFormed()
    ensures DateHitAt(h.Text(), h.prefix.name) == Some(h)
  {
    var m := h.capture.(tail := h.capture.tail.(rest := h.more));
    DateMatchSplit(m);
    assert m.(tail := m.tail.(rest := [])) == h.capture;
    assert m.Text()[0] == h.capture.md.month[0];
    MatchLabelText(h.prefix, m.Text());
    MatchDateText(m);
  }

  function DateHitMatcher(name: string): string -> Option<DateHit> {
    s => DateHitAt(s, name)
  }

  /** `find_bullet_date`: no date when the pattern occurs nowhere; otherwise
      the date named by the leftmost hit's month word, day and year (or the
      parser's error when that date does not exist). */
  function FindBulletDate(text: string, name: string): (r: Result<Option<Date>>)
    ensures match FirstMatch(text, 0, DateHitMatcher(name))
            case None => r == Ok(None)
            case Some((_, h)) =>
              r == DateOf(h.capture.md.month, h.capture.md.day, h.capture.tail.year).AsSome()
  {
    match FirstMatch(text, 0, DateHitMatcher(name))
    case None => Ok(None)
    case Some((_, h)) =>
      ParseMonthDayYearOfCapture(h.capture);
      ParseMonthDayYear(h.capture.Text()).AsSome()
  }

  // ---------------------------------------------------------------------------
  // `Label: Month D-D, YYYY`
  // ---------------------------------------------------------------------------

  /** A hit of `find_bullet_range`'s pattern (either dash; `,\s*` before the year). */
  datatype RangeHit = RangeHit(prefix: LabelPrefix, capture: RangeMatch, more: string) {
    predicate WellFormed() {
      prefix.WellFormed() && capture.WellFormed(IsDash) && capture.tail.rest == []
    }

    function Text(): string {
      prefix.Text() + (capture.Text() + more)
    }
  }

  /** The pattern of `find_bullet_range`, anchored at the start of `s`. */
  function RangeHitAt(s: string, name: string): (r: Option<RangeHit>)
    ensures r.Some? ==> r.value.WellFormed() && r.value.prefix.name == name && r.value.Text() == s
  {
    match MatchLabel(s, name)
    case None => None
    case Some((p, s1)) =>
      match MatchRange(s1, IsDash)
      case None => None
      case Some(m) =>
        RangeMatchSplit(m);
        Some(RangeHit(p, m.(tail := m.tail.(rest := [])), m.tail.rest))
  }

  lemma RangeHitAtText(h: RangeHit)
    requires h.WellFormed()
    ensures RangeHitAt(h.Text(), h.prefix.name) == Some(h)
  {
    var m := h.capture.(tail := h.capture.tail.(rest := h.more));
    RangeMatchSplit(m);
    assert m.(tail := m.tail.(rest := [])) == h.capture;
    assert m.Text()[0] == h.capture.md.month[0];
    MatchLabelText(h.prefix, m.Text());
    MatchRangeText(m, IsDash);
  }

  function RangeHitMatcher(name: string): string -> Option<RangeHit> {
    s => RangeHitAt(s, name)
  }

  /** `find_bullet_range`: no range when the pattern occurs nowhere;
      otherwise the range of the leftmost hit's month, two days and year. */
  function FindBulletRange(text: string, name: string): (r: Result<Option<DateRange>>)
    ensures match FirstMatch(text, 0, RangeHitMatcher(name))
            case None => r == Ok(None)
            case Some((_, h)) => r == RangeOf(h.capture).AsSome()
  {
    match FirstMatch(text, 0, RangeHitMatcher(name))
    case None => Ok(None)
    case Some((_, h)) =>
      ParseRangeOfCapture(h.capture);
      ParseRange(h.capture.Text()).AsSome()
  }

  // ---------------------------------------------------------------------------
  // Several labels
  // ---------------------------------------------------------------------------

  /** The labels whose lookup finds something. */
  function Found<T>(find: string -> Result<Option<T>>): string -> bool {
    l => find(l).Ok? && find(l).value.Some?
  }

  /** A label paired with its lookup's outcome. */
  function Lookup<T>(find: string -> Result<Option<T>>): string -> (string, Result<Option<T>>) {
    l => (l, find(l))
  }

  /** Collected entries seen as the lookups that produced them. */
  function AsLookups<T>(found: seq<(string, T)>): (r: seq<(string, Result<Option<T>>)>)
    ensures |r| == |found|
    ensures forall k :: 0 <= k < |found| ==> r[k] == (found[k].0, Ok(Some(found[k].1)))
  {
    seq(|found|, k requires 0 <= k < |found| => (found[k].0, Ok(Some(found[k].1))))
  }

  lemma AsLookupsCons<T>(e: (string, T), rest: seq<(string, T)>)
    ensures AsLookups([e] + rest) == [(e.0, Ok(Some(e.1)))] + AsLookups(rest)
  {
    var found := [e] + rest;
    forall k | 1 <= k < |found|
      ensures AsLookups(found)[k] == AsLookups(rest)[k - 1]
    {
      assert found[k] == rest[k - 1];
    }
  }

  /** `found` holds one entry per label whose lookup found something, in
      label order: the label and what was found for it. */
  predicate FoundInOrder<T(==)>(found: seq<(string, T)>, labels: seq<string>, find: string -> Result<Option<T>>) {
    Images(AsLookups(found), labels, Found(find), Lookup(find))
  }

  /** `e` is the error of the first lookup that fails. */
  predicate FirstError<T>(labels: seq<string>, find: string -> Result<Option<T>>, e: Error) {
    exists i :: 0 <= i < |labels| && find(labels[i]) == Err(e) && forall j :: 0 <= j < i ==> find(labels[j]).Ok?
  }

  /** Every lookup succeeds (finding something or not). */
  predicate AllOk<T>(labels: seq<string>, find: string -> Result<Option<T>>) {
    forall i :: 0 <= i < |labels| ==> find(labels[i]).Ok?
  }

  /** The lookups of a prefix succeed when those of the whole list do. */
  lemma AllOkPrefix<T>(labels: seq<string>, more: seq<string>, find: string -> Result<Option<T>>)
    requires AllOk(labels + more, find)
    ensures AllOk(labels, find)
  {
    forall i | 0 <= i < |labels|
      ensures find(labels[i]).Ok?
    {
      assert (labels + more)[i] == labels[i];
    }
  }

  /** Runs `find` on each label in order: the first error aborts, and
      otherwise the labels that found something are kept with what they
      found, in label order. */
  function Collect<T(==)>(labels: seq<string>, find: string -> Result<Option<T>>): (r: Result<seq<(string, T)>>)
    ensures r.Ok? <==> AllOk(labels, find)
    ensures r.Err? ==> FirstError(labels, find, r.error)
    ensures r.Ok? ==> FoundInOrder(r.value, labels, find)
    decreases |labels|
  {
    if labels == [] then Ok([])
    else
      var first :- find(labels[0]);
      var rest :- Collect(labels[1..], find);
      CollectStep(labels, find, rest);
      Ok(if first.Some? then [(labels[0], first.value)] + rest else rest)
  }

  /** The step of `Collect` after a successful first lookup. */
  lemma CollectStep<T>(labels: seq<string>, find: string -> Result<Option<T>>, rest: seq<(string, T)>)
    requires labels != [] && find(labels[0]).Ok?
    requires FoundInOrder(rest, labels[1..], find)
    ensures var first := find(labels[0]).value;
            FoundInOrder(if first.Some? then [(labels[0], first.value)] + rest else rest, labels, find)
  {
    var first := find(labels[0]).value;
    ImagesShift(AsLookups(rest), labels, Found(find), Lookup(find));
    if first.Some? {
      AsLookupsCons((labels[0], first.value), rest);
      ImagesTake(AsLookups(rest), labels, Found(find), Lookup(find));
    } else {
      ImagesSkip(AsLookups(rest), labels, Found(find), Lookup(find));
    }
  }

  /** What a collected entry is: with `idx` the positions of the labels
      that found something, entry `k` is label `idx[k]` with its value. */
  lemma FoundInOrderEntries<T>(found: seq<(string, T)>, labels: seq<string>, find: string -> Result<Option<T>>)
    requires FoundInOrder(found, labels, find)
    ensures var idx := PickIndices(labels, Found(find));
            && |found| == |idx|
            && forall k :: 0 <= k < |found| ==>
                 found[k].0 == labels[idx[k]] && find(labels[idx[k]]) == Ok(Some(found[k].1))
  {
    var idx := PickIndices(labels, Found(find));
    forall k | 0 <= k < |found|
      ensures found[k].0 == labels[idx[k]] && find(labels[idx[k]]) == Ok(Some(found[k].1))
    {
      assert AsLookups(found)[k] == Lookup(find)(labels[idx[k]]);
    }
  }

  /** `find_bullet_range` as a lookup of the text. */
  function RangeFinder(text: string): string -> Result<Option<DateRange>> {
    l => FindBulletRange(text, l)
  }

  /** `find_bullet_date` as a lookup of the text. */
  function DateFinder(text: string): string -> Result<Option<Date>> {
    l => FindBulletDate(text, l)
  }

  /** `find_any_labeled_ranges`, and the loop that collects the breaks. */
  function FindAnyLabeledRanges(text: string, labels: seq<string>): (r: Result<seq<(string, DateRange)>>)
    ensures r.Ok? <==> AllOk(labels, RangeFinder(text))
    ensures r.Err? ==> FirstError(labels, RangeFinder(text), r.error)
    ensures r.Ok? ==> FoundInOrder(r.value, labels, RangeFinder(text))
  {
    Collect(labels, RangeFinder(text))
  }

  /** The loop that collects the single-day holidays. */
  function FindLabeledDates(text: string, labels: seq<string>): (r: Result<seq<(string, Date)>>)
    ensures r.Ok? <==> AllOk(labels, DateFinder(text))
    ensures r.Err? ==> FirstError(labels, DateFinder(text), r.error)
    ensures r.Ok? ==> FoundInOrder(r.value, labels, DateFinder(text))
  {
    Collect(labels, DateFinder(text))
  }
}
