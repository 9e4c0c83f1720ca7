/** Cutting the academic-year page down to one term: the page's text lines
    are normalised, the block of the requested semester is taken, and
    within it the "Full Part of Term" subsection. */
module TermBlocks {
  import opened Results
  import opened Strings
  import opened Search

  // ---------------------------------------------------------------------------
  // Page lines
  // ---------------------------------------------------------------------------

  /** The characters of all lines, run together. */
  function Concat(lines: seq<string>): string
    decreases |lines|
  {
    if lines == [] then [] else lines[0] + Concat(lines[1..])
  }

  /** A line that is not blank once normalised. */
  predicate NormalizesNonEmpty(l: string) {
    Normalize(l) != []
  }

  /** Normalise every line and drop the lines that end up empty. */
  function NormalizeLines(raw: seq<string>): (r: seq<string>)
    decreases |raw|
  {
    if raw == [] then []
    else
      var rest := NormalizeLines(raw[1..]);
      if NormalizesNonEmpty(raw[0]) then [Normalize(raw[0])] + rest else rest
  }

  /** The page lines are the normalised raw lines that are not blank, in
      page order, one per such raw line. */
  lemma {:induction false} NormalizeLinesInOrder(raw: seq<string>)
    ensures Images(NormalizeLines(raw), raw, NormalizesNonEmpty, Normalize)
    decreases |raw|
  {
    if raw != [] {
      NormalizeLinesInOrder(raw[1..]);
      ImagesCons(NormalizeLines(raw[1..]), raw, NormalizesNonEmpty, Normalize);
    }
  }

  /** Page lines are normal and non-empty, at most as many as the raw lines. */
  lemma {:induction false} NormalizeLinesNormal(raw: seq<string>)
    ensures |NormalizeLines(raw)| <= |raw|
    ensures forall i :: 0 <= i < |NormalizeLines(raw)| ==>
              NormalizeLines(raw)[i] != [] && IsNormal(NormalizeLines(raw)[i])
    decreases |raw|
  {
    if raw != [] {
      NormalizeLinesNormal(raw[1..]);
      NormalizeFacts(raw[0]);
      var l := Normalize(raw[0]);
      var tail := NormalizeLines(raw[1..]);
      if l != [] {
        assert ([l] + tail)[1..] == tail;
      }
    }
  }

  /** Together the page lines keep every non-whitespace character of the
      page, in order. */
  lemma {:induction false} NormalizeLinesKeepText(raw: seq<string>)
    ensures NonSpace(Concat(NormalizeLines(raw))) == NonSpace(Concat(raw))
    decreases |raw|
  {
    if raw != [] {
      NormalizeLinesKeepText(raw[1..]);
      NormalizeFacts(raw[0]);
      var l := Normalize(raw[0]);
      var tail := NormalizeLines(raw[1..]);
      NonSpaceAppend(raw[0], Concat(raw[1..]));
      if l == [] {
        assert NonSpace(raw[0]) == [];
      } else {
        assert ([l] + tail)[1..] == tail;
        NonSpaceAppend(l, Concat(tail));
      }
    }
  }

  // ---------------------------------------------------------------------------
  // Term headings: \b(Summer|Fall|Spring)\s+\d{4}\b
  // ---------------------------------------------------------------------------

  const TermWords: seq<string> := ["Summer", "Fall", "Spring"]

  /** `word\s+\d{4}\b` at the start of `t`. */
  predicate HeadingFrom(t: string, word: string) {
    && StartsWith(t, word)
    && var (gap, u) := TakeWhile(t[|word|..], IsSpace);
       && gap != [] && |u| >= 4 && All(u[..4], IsDigit)
       && (|u| == 4 || !IsWordChar(u[4]))
  }

  /** One of `words` followed by a four-digit year starts at `q`, with a word
      boundary before it. */
  predicate HeadingAt(s: string, q: nat, words: seq<string>)
    requires q <= |s|
  {
    && (q == 0 || !IsWordChar(s[q - 1]))
    && exists w :: w in words && HeadingFrom(s[q..], w)
  }

  /** `re.search` of the heading pattern succeeds somewhere in `s`. */
  predicate HasHeading(s: string, words: seq<string>) {
    exists q :: 0 <= q <= |s| && HeadingAt(s, q, words)
  }

  lemma SpringHeadingExample(s: string)
    requires s == "Spring 2026"
    ensures HasHeading(s, TermWords) && HasHeading(s, ["Spring"])
  {
    assert s[0..] == s;
    SpringHeadingFrom(s);
    assert HeadingAt(s, 0, TermWords);
    assert HeadingAt(s, 0, ["Spring"]);
  }

  lemma SpringHeadingFrom(s: string)
    requires s == "Spring 2026"
    ensures HeadingFrom(s, "Spring")
  {
    assert s[|"Spring"|..] == " 2026";
    assert TakeWhile(" 2026", IsSpace) == (" ", "2026") by {
      TakeWhileSplit(" ", "2026", IsSpace);
    }
  }

  /** `f"Spring {year}"`. */
  function SpringKey(year: int): string {
    "Spring " + IntToString(year)
  }

  // ---------------------------------------------------------------------------
  // The block of one semester
  // ---------------------------------------------------------------------------

  /** `block` sits in `lines` at index `p`. */
  predicate SliceAt(lines: seq<string>, p: nat, block: seq<string>) {
    p + |block| <= |lines| && lines[p..p + |block|] == block
  }

  /** A heading of another term than the one named by `key`. */
  predicate ForeignHeading(l: string, key: string) {
    HasHeading(l, TermWords) && !Contains(l, key)
  }

  /** The spring block: from the first line containing "Spring YYYY" up to
      (excluding) the next line holding a heading of another term; an error
      when no line contains the key. */
  function SpringBlock(lines: seq<string>, key: string): (r: Result<seq<string>>)
    ensures r.Err? <==> forall i :: 0 <= i < |lines| ==> !Contains(lines[i], key)
    ensures r.Err? ==> r.error == SectionNotFound(key)
    ensures r.Ok? ==> |r.value| > 0 && Contains(r.value[0], key)
    ensures r.Ok? ==> forall i :: 1 <= i < |r.value| ==> !ForeignHeading(r.value[i], key)
    ensures r.Ok? ==> exists p: nat :: (
              && SliceAt(lines, p, r.value)
              && (forall i :: 0 <= i < p ==> !Contains(lines[i], key))
              && (p + |r.value| == |lines| || ForeignHeading(lines[p + |r.value|], key)))
  {
    match FirstIndex(lines, 0, l => Contains(l, key))
    case None => Err(SectionNotFound(key))
    case Some(start) =>
      var end := BlockEnd(lines, start, key);
      assert SliceAt(lines, start, lines[start..end]);
      assert forall i :: 1 <= i < end - start ==> lines[start..end][i] == lines[start + i];
      Ok(lines[start..end])
  }

  /** Where the spring block starting at `start` ends. */
  function BlockEnd(lines: seq<string>, start: nat, key: string): (e: nat)
    requires start < |lines|
    ensures start < e <= |lines|
    ensures forall i :: start < i < e ==> !ForeignHeading(lines[i], key)
    ensures e == |lines| || ForeignHeading(lines[e], key)
  {
    match FirstIndex(lines, start + 1, l => ForeignHeading(l, key))
    case Some(e) => e
    case None => |lines|
  }

  /** The fall block: the lines before the first line containing "Spring
      YYYY+1", else before the first line with any "Spring ####" heading,
      else all lines. */
  function FallBlock(lines: seq<string>, nextKey: string): (r: seq<string>)
    ensures SliceAt(lines, 0, r)
    ensures forall i :: 0 <= i < |r| ==> !Contains(lines[i], nextKey)
    ensures |r| < |lines| ==>
              || Contains(lines[|r|], nextKey)
              || ((forall i :: 0 <= i < |lines| ==> !Contains(lines[i], nextKey))
                  && HasHeading(lines[|r|], ["Spring"]))
    ensures (forall i :: 0 <= i < |lines| ==> !Contains(lines[i], nextKey)) ==>
              forall i :: 0 <= i < |r| ==> !HasHeading(lines[i], ["Spring"])
  {
    var boundary :=
      match FirstIndex(lines, 0, l => Contains(l, nextKey))
      case Some(b) => b
      case None =>
        match FirstIndex(lines, 0, l => HasHeading(l, ["Spring"]))
        case Some(b) => b
        case None => |lines|;
    lines[..boundary]
  }

  /** `extract_term_block_text` on the page's normalised lines; a semester
      other than spring is treated as fall. */
  function TermBlock(lines: seq<string>, year: int, semester: string): (r: Result<seq<string>>)
    ensures Lower(semester) == "spring" ==>
              (r.Err? <==> forall i :: 0 <= i < |lines| ==> !Contains(lines[i], SpringKey(year)))
    ensures Lower(semester) != "spring" ==> r.Ok? && SliceAt(lines, 0, r.value)
    ensures Lower(semester) == "spring" ==> r == SpringBlock(lines, SpringKey(year))
    ensures Lower(semester) != "spring" ==> r == Ok(FallBlock(lines, SpringKey(year + 1)))
  {
    if Lower(semester) == "spring" then SpringBlock(lines, SpringKey(year))
    else Ok(FallBlock(lines, SpringKey(year + 1)))
  }

  // ---------------------------------------------------------------------------
  // The subsection of a block
  // ---------------------------------------------------------------------------

  /** The subsection headers the importer knows. */
  const SubsectionHeaders: set<string> := {
    "All Parts of Term",
    "Winter Intersession",
    "Full Part of Term",
    "1st Half Part of Term",
    "2nd Half Part of Term",
    "Pre Summer Part of Term",
    "Extended Summer Part of Term"
  }

  /** A line that is not blank once stripped. */
  predicate StripsNonEmpty(l: string) {
    Strip(l) != []
  }

  /** Strip every line and drop the ones left empty: the stripped lines
      that are not empty, in order. */
  function StripLines(lines: seq<string>): (r: seq<string>)
    ensures Images(r, lines, StripsNonEmpty, Strip)
    ensures |r| <= |lines|
    ensures forall i :: 0 <= i < |r| ==> r[i] != []
    decreases |lines|
  {
    if lines == [] then []
    else
      var rest := StripLines(lines[1..]);
      ImagesCons(rest, lines, StripsNonEmpty, Strip);
      if StripsNonEmpty(lines[0]) then [Strip(lines[0])] + rest else rest
  }

  /** Lines that are already normal and non-empty come through unchanged. */
  lemma {:induction false} StripLinesOfNormal(lines: seq<string>)
    requires forall i :: 0 <= i < |lines| ==> lines[i] != [] && IsNormal(lines[i])
    ensures StripLines(lines) == lines
    decreases |lines|
  {
    if lines != [] {
      StripNormalHead(lines);
      forall i | 0 <= i < |lines[1..]|
        ensures lines[1..][i] != [] && IsNormal(lines[1..][i])
      {
        assert lines[1..][i] == lines[i + 1];
      }
      StripLinesOfNormal(lines[1..]);
      HeadTail(lines);
    }
  }

  /** A normal non-empty first line is kept as it is. */
  lemma StripNormalHead(lines: seq<string>)
    requires lines != [] && lines[0] != [] && IsNormal(lines[0])
    ensures StripLines(lines) == [lines[0]] + StripLines(lines[1..])
  {
    StripTrimmed(lines[0]);
    assert StripsNonEmpty(lines[0]);
  }

  lemma HeadTail(lines: seq<string>)
    requires lines != []
    ensures lines == [lines[0]] + lines[1..]
  {
  }

  /** `sub` is the slice of `stripped` that starts at the first line equal
      to `header` and ends at the end of the lines or just before a known
      subsection header. */
  ghost predicate SubsectionSlice(stripped: seq<string>, header: string, sub: seq<string>) {
    exists p: nat :: (
      && SliceAt(stripped, p, sub)
      && (forall i :: 0 <= i < p ==> stripped[i] != header)
      && (p + |sub| == |stripped| || stripped[p + |sub|] in SubsectionHeaders))
  }

  /** The subsection of already stripped lines that starts at the first
      line equal to `header` and runs up to (excluding) the next known
      subsection header. */
  function SubsectionOf(stripped: seq<string>, header: string): (r: Option<seq<string>>)
    ensures r.None? <==> forall i :: 0 <= i < |stripped| ==> stripped[i] != header
    ensures r.Some? ==> |r.value| > 0 && r.value[0] == header
    ensures r.Some? ==> forall i :: 1 <= i < |r.value| ==> r.value[i] !in SubsectionHeaders
    ensures r.Some? ==> SubsectionSlice(stripped, header, r.value)
  {
    match FirstIndex(stripped, 0, l => l == header)
    case None => None
    case Some(start) =>
      var end := match FirstIndex(stripped, start + 1, l => l in SubsectionHeaders)
                 case Some(e) => e
                 case None => |stripped|;
      assert SliceAt(stripped, start, stripped[start..end]);
      assert forall i :: 1 <= i < end - start ==> stripped[start..end][i] == stripped[start + i];
      Some(stripped[start..end])
  }

  /** `extract_subsection`: the subsection of the stripped lines, or the
      block unchanged when no line equals `header`. */
  function Subsection(lines: seq<string>, header: string): (r: seq<string>)
    ensures (forall i :: 0 <= i < |StripLines(lines)| ==> StripLines(lines)[i] != header) ==> r == lines
    ensures (exists i :: 0 <= i < |StripLines(lines)| && StripLines(lines)[i] == header) ==>
              |r| > 0 && r[0] == header && forall i :: 1 <= i < |r| ==> r[i] !in SubsectionHeaders
    ensures (exists i :: 0 <= i < |StripLines(lines)| && StripLines(lines)[i] == header) ==>
              SubsectionSlice(StripLines(lines), header, r)
  {
    var stripped := StripLines(lines);
    match SubsectionOf(stripped, header)
    case None => lines
    case Some(sub) => sub
  }
}
