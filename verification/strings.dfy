/** Character classes and the string operations of Python's `str` and `re`
    that the importer relies on: whitespace normalisation, stripping,
    substring tests, joining, and decimal rendering of integers. */
module Strings {

  /** The en dash, which the calendar pages use inside date ranges. */
  const EnDash: char := '\U{2013}'

  /** Python's whitespace: `str.isspace`, `str.strip` and `\s` in a str pattern. */
  predicate IsSpace(c: char) {
    var n := c as int;
    (9 <= n <= 13) || (28 <= n <= 32) || n == 0x85 || n == 0xA0 || n == 0x1680
    || (0x2000 <= n <= 0x200A) || n == 0x2028 || n == 0x2029 || n == 0x202F
    || n == 0x205F || n == 0x3000
  }

  predicate NotSpace(c: char) {
    !IsSpace(c)
  }

  /** `\d` restricted to ASCII. */
  predicate IsDigit(c: char) {
    '0' <= c <= '9'
  }

  /** `[A-Za-z]`. */
  predicate IsLetter(c: char) {
    'A' <= c <= 'Z' || 'a' <= c <= 'z'
  }

  /** `\w` restricted to ASCII; it decides where `\b` holds. */
  predicate IsWordChar(c: char) {
    IsLetter(c) || IsDigit(c) || c == '_'
  }

  predicate All(s: string, p: char -> bool) {
    forall i :: 0 <= i < |s| ==> p(s[i])
  }

  /** Splits `s` into its longest prefix whose characters satisfy `p` and the
      rest: a greedy `p*` at the start of `s`. */
  function TakeWhile(s: string, p: char -> bool): (r: (string, string))
    ensures r.0 + r.1 == s
    ensures All(r.0, p)
    ensures r.1 == [] || !p(r.1[0])
    decreases |s|
  {
    if s == [] || !p(s[0]) then ([], s)
    else
      var t := TakeWhile(s[1..], p);
      AllCons(s[0], t.0, p);
      ConsAssoc(s, t.0, t.1);
      ([s[0]] + t.0, t.1)
  }

  lemma AllCons(c: char, t: string, p: char -> bool)
    requires p(c) && All(t, p)
    ensures All([c] + t, p)
  {
    forall i | 0 <= i < |t| + 1
      ensures p(([c] + t)[i])
    {
      if i > 0 {
        assert ([c] + t)[i] == t[i - 1];
      }
    }
  }

  lemma ConsAssoc(s: string, a: string, b: string)
    requires s != [] && a + b == s[1..]
    ensures ([s[0]] + a) + b == s
  {
    assert s == [s[0]] + s[1..];
  }

  /** A greedy run stops exactly where the run of `p` characters ends. */
  lemma {:induction false} TakeWhileSplit(a: string, b: string, p: char -> bool)
    requires All(a, p)
    requires b == [] || !p(b[0])
    ensures TakeWhile(a + b, p) == (a, b)
    decreases |a|
  {
    if a != [] {
      assert (a + b)[0] == a[0];
      assert (a + b)[1..] == a[1..] + b;
      TakeWhileSplit(a[1..], b, p);
      assert [a[0]] + a[1..] == a;
    } else {
      assert a + b == b;
    }
  }

  // ---------------------------------------------------------------------------
  // Whitespace normalisation: re.sub(r"\s+", " ", s).strip()
  // ---------------------------------------------------------------------------

  /** The characters of `s` that are not whitespace, in order. */
  function NonSpace(s: string): string
    decreases |s|
  {
    if s == [] then [] else (if IsSpace(s[0]) then [] else [s[0]]) + NonSpace(s[1..])
  }

  lemma {:induction false} NonSpaceAppend(a: string, b: string)
    ensures NonSpace(a + b) == NonSpace(a) + NonSpace(b)
    decreases |a|
  {
    if a == [] {
      assert a + b == b;
    } else {
      assert (a + b)[0] == a[0];
      assert (a + b)[1..] == a[1..] + b;
      NonSpaceAppend(a[1..], b);
    }
  }

  lemma {:induction false} NonSpaceOfSpaces(a: string)
    requires All(a, IsSpace)
    ensures NonSpace(a) == []
    decreases |a|
  {
    if a != [] {
      NonSpaceOfSpaces(a[1..]);
    }
  }

  /** Every whitespace character is a plain space and none is followed by
      another whitespace character. */
  predicate SpacesCollapsed(s: string) {
    && (forall i :: 0 <= i < |s| && IsSpace(s[i]) ==> s[i] == ' ')
    && (forall i, j :: 0 <= i < |s| && 0 <= j < |s| && j == i + 1 ==> !IsSpace(s[i]) || !IsSpace(s[j]))
  }

  /** What `normalize_whitespace` produces: collapsed, with no whitespace at either end. */
  predicate IsNormal(s: string) {
    SpacesCollapsed(s) && (s == [] || (!IsSpace(s[0]) && !IsSpace(s[|s| - 1])))
  }

  /** `re.sub(r"\s+", " ", s)`: each maximal whitespace run becomes one space. */
  function Collapse(s: string): string
    decreases |s|
  {
    if s == [] then []
    else if IsSpace(s[0]) then
      var run := TakeWhile(s, IsSpace);
      assert run.0 != [];
      " " + Collapse(run.1)
    else [s[0]] + Collapse(s[1..])
  }

  /** What collapsing guarantees: emptiness and the kind of the first
      character are kept, whitespace runs are single spaces, and the other
      characters are kept in order. */
  lemma {:induction false} CollapseFacts(s: string)
    ensures |Collapse(s)| == 0 <==> |s| == 0
    ensures |s| > 0 ==> (IsSpace(Collapse(s)[0]) <==> IsSpace(s[0]))
    ensures SpacesCollapsed(Collapse(s))
    ensures NonSpace(Collapse(s)) == NonSpace(s)
    decreases |s|
  {
    if s != [] {
      if IsSpace(s[0]) {
        var run := TakeWhile(s, IsSpace);
        assert run.0 != [];
        var t := Collapse(run.1);
        CollapseFacts(run.1);
        assert Collapse(s) == " " + t;
        NonSpaceAppend(run.0, run.1);
        NonSpaceOfSpaces(run.0);
        NonSpaceAppend(" ", t);
        var r := " " + t;
        forall i | 0 <= i < |r| && IsSpace(r[i])
          ensures r[i] == ' ' && (i + 1 < |r| ==> !IsSpace(r[i + 1]))
        {
          if i > 0 {
            assert r[i] == t[i - 1];
            if i + 1 < |r| {
              assert r[i + 1] == t[i];
            }
          } else if 1 < |r| {
            assert r[1] == t[0];
          }
        }
      } else {
        var t := Collapse(s[1..]);
        CollapseFacts(s[1..]);
        assert Collapse(s) == [s[0]] + t;
        NonSpaceAppend([s[0]], t);
        NonSpaceAppend([s[0]], s[1..]);
        assert [s[0]] + s[1..] == s;
        var r := [s[0]] + t;
        forall i | 0 <= i < |r| && IsSpace(r[i])
          ensures r[i] == ' ' && (i + 1 < |r| ==> !IsSpace(r[i + 1]))
        {
          assert i > 0;
          assert r[i] == t[i - 1];
          if i + 1 < |r| {
            assert r[i + 1] == t[i];
          }
        }
      }
    }
  }

  /** Drops leading whitespace. */
  function LStrip(s: string): (r: string)
    ensures |r| <= |s| && r == s[|s| - |r|..]
    ensures All(s[..|s| - |r|], IsSpace)
    ensures r == [] || !IsSpace(r[0])
  {
    var run := TakeWhile(s, IsSpace);
    assert s[..|run.0|] == run.0;
    run.1
  }

  /** Drops trailing whitespace. */
  function RStrip(s: string): (r: string)
    ensures |r| <= |s| && r == s[..|r|]
    ensures All(s[|r|..], IsSpace)
    ensures r == [] || !IsSpace(r[|r| - 1])
    decreases |s|
  {
    if s == [] || !IsSpace(s[|s| - 1]) then s
    else
      var r := RStrip(s[..|s| - 1]);
      RStripStep(s, r);
      r
  }

  lemma RStripStep(s: string, r: string)
    requires s != [] && IsSpace(s[|s| - 1]) && |r| <= |s| - 1
    requires r == s[..|s| - 1][..|r|] && All(s[..|s| - 1][|r|..], IsSpace)
    ensures r == s[..|r|] && All(s[|r|..], IsSpace)
  {
    var t := s[..|s| - 1][|r|..];
    forall i | 0 <= i < |s[|r|..]|
      ensures IsSpace(s[|r|..][i])
    {
      if i < |t| {
        assert s[|r|..][i] == t[i];
      }
    }
  }

  /** `str.strip()`. */
  function Strip(s: string): string {
    RStrip(LStrip(s))
  }

  /** Stripping leaves a string alone when neither end is whitespace. */
  lemma StripTrimmed(s: string)
    requires s == [] || (!IsSpace(s[0]) && !IsSpace(s[|s| - 1]))
    ensures Strip(s) == s
  {
  }

  lemma AppendAssoc(a: string, b: string, c: string)
    ensures (a + b) + c == a + (b + c)
  {
  }

  lemma AppendAssoc3(a: string, b: string, c: string, d: string)
    ensures (a + (b + c)) + d == a + (b + (c + d))
  {
  }

  /** Normalising a text whose collapsed form already has no whitespace
      at either end. */
  lemma NormalizeOfCollapsed(s: string, c: string)
    requires Collapse(s) == c
    requires c != [] && !IsSpace(c[0]) && !IsSpace(c[|c| - 1])
    ensures Normalize(s) == c
  {
    StripTrimmed(c);
  }

  lemma LastOfAppend(a: string, b: string)
    requires b != []
    ensures (a + b)[|a + b| - 1] == b[|b| - 1]
  {
  }

  lemma SpacesCollapsedInfix(s: string, a: nat, b: nat)
    requires a <= b <= |s|
    requires SpacesCollapsed(s)
    ensures SpacesCollapsed(s[a..b])
  {
    var t := s[a..b];
    forall i | 0 <= i < |t| && IsSpace(t[i])
      ensures t[i] == ' ' && (i + 1 < |t| ==> !IsSpace(t[i + 1]))
    {
      assert t[i] == s[a + i];
      if i + 1 < |t| {
        assert t[i + 1] == s[a + i + 1];
      }
    }
  }

  lemma StripKeepsCollapsed(c: string)
    requires SpacesCollapsed(c)
    ensures IsNormal(Strip(c))
  {
    LStripCollapsed(c);
    RStripCollapsed(LStrip(c));
  }

  lemma LStripCollapsed(c: string)
    requires SpacesCollapsed(c)
    ensures SpacesCollapsed(LStrip(c))
    ensures LStrip(c) == [] || !IsSpace(LStrip(c)[0])
  {
    SpacesCollapsedSuffix(c, LStrip(c));
  }

  lemma RStripCollapsed(l: string)
    requires SpacesCollapsed(l) && (l == [] || !IsSpace(l[0]))
    ensures IsNormal(RStrip(l))
  {
    var r := RStrip(l);
    SpacesCollapsedPrefix(l, r);
    if r != [] {
      assert r[0] == l[0];
    }
  }

  lemma SpacesCollapsedSuffix(c: string, l: string)
    requires SpacesCollapsed(c) && |l| <= |c| && l == c[|c| - |l|..]
    ensures SpacesCollapsed(l)
  {
    var k := |c| - |l|;
    forall i | 0 <= i < |l| && IsSpace(l[i])
      ensures l[i] == ' ' && (i + 1 < |l| ==> !IsSpace(l[i + 1]))
    {
      assert l[i] == c[k + i];
      if i + 1 < |l| {
        assert l[i + 1] == c[k + i + 1];
      }
    }
  }

  lemma SpacesCollapsedPrefix(l: string, r: string)
    requires SpacesCollapsed(l) && |r| <= |l| && r == l[..|r|]
    ensures SpacesCollapsed(r)
  {
    forall i | 0 <= i < |r| && IsSpace(r[i])
      ensures r[i] == ' ' && (i + 1 < |r| ==> !IsSpace(r[i + 1]))
    {
      assert r[i] == l[i];
      if i + 1 < |r| {
        assert r[i + 1] == l[i + 1];
      }
    }
  }

  lemma NonSpaceSkipsSpaces(pre: string, rest: string)
    requires All(pre, IsSpace)
    ensures NonSpace(pre + rest) == NonSpace(rest)
    ensures NonSpace(rest + pre) == NonSpace(rest)
  {
    NonSpaceAppend(pre, rest);
    NonSpaceAppend(rest, pre);
    NonSpaceOfSpaces(pre);
  }

  lemma StripKeepsNonSpace(c: string)
    ensures NonSpace(Strip(c)) == NonSpace(c)
  {
    LStripKeepsNonSpace(c);
    RStripKeepsNonSpace(LStrip(c));
  }

  lemma LStripKeepsNonSpace(c: string)
    ensures NonSpace(LStrip(c)) == NonSpace(c)
  {
    var l := LStrip(c);
    var pre := c[..|c| - |l|];
    assert c == pre + l;
    NonSpaceSkipsSpaces(pre, l);
  }

  lemma RStripKeepsNonSpace(l: string)
    ensures NonSpace(RStrip(l)) == NonSpace(l)
  {
    var r := RStrip(l);
    var post := l[|r|..];
    assert l == r + post;
    NonSpaceSkipsSpaces(post, r);
  }

  /** `normalize_whitespace`: collapse whitespace runs and strip both ends. */
  function Normalize(s: string): string {
    Strip(Collapse(s))
  }

  /** The result of `Normalize` is normal and keeps every non-whitespace
      character in order. */
  lemma NormalizeFacts(s: string)
    ensures IsNormal(Normalize(s))
    ensures NonSpace(Normalize(s)) == NonSpace(s)
  {
    CollapseFacts(s);
    StripKeepsCollapsed(Collapse(s));
    StripKeepsNonSpace(Collapse(s));
  }

  lemma {:induction false} CollapseFixesCollapsed(t: string)
    requires SpacesCollapsed(t)
    ensures Collapse(t) == t
    decreases |t|
  {
    if t != [] {
      SpacesCollapsedInfix(t, 1, |t|);
      CollapseFixesCollapsed(t[1..]);
      if IsSpace(t[0]) {
        assert t == [t[0]] + t[1..];
        TakeWhileSplit([t[0]], t[1..], IsSpace);
      }
    }
  }

  /** Normalising a normal string changes nothing. */
  lemma NormalizeFixesNormal(t: string)
    requires IsNormal(t)
    ensures Normalize(t) == t
  {
    CollapseFixesCollapsed(t);
    if t != [] {
      TakeWhileSplit([], t, IsSpace);
    }
  }

  /** `normalize_whitespace` is idempotent. */
  lemma NormalizeIdempotent(s: string)
    ensures Normalize(Normalize(s)) == Normalize(s)
  {
    NormalizeFacts(s);
    NormalizeFixesNormal(Normalize(s));
  }

  /** A run without whitespace passes through `Collapse` untouched. */
  lemma {:induction false} CollapseNonSpacePrefix(a: string, t: string)
    requires All(a, NotSpace)
    ensures Collapse(a + t) == a + Collapse(t)
    decreases |a|
  {
    if a != [] {
      assert (a + t)[0] == a[0];
      assert (a + t)[1..] == a[1..] + t;
      CollapseNonSpacePrefix(a[1..], t);
      assert [a[0]] + (a[1..] + Collapse(t)) == a + Collapse(t);
    } else {
      assert a + t == t;
    }
  }

  /** One space when `ws` is a non-empty whitespace run, nothing otherwise. */
  function SpaceIf(ws: string): string {
    if ws == [] then "" else " "
  }

  /** `Collapse` on a whitespace run followed by a tail that does not start
      with whitespace. */
  lemma CollapseRun(ws: string, t: string)
    requires All(ws, IsSpace)
    requires t == [] || !IsSpace(t[0])
    ensures Collapse(ws + t) == SpaceIf(ws) + Collapse(t)
  {
    if ws != [] {
      TakeWhileSplit(ws, t, IsSpace);
      assert (ws + t)[0] == ws[0];
    } else {
      assert ws + t == t;
    }
  }

  /** `Collapse` on a word, a (possibly empty) whitespace run and a tail that
      does not start with whitespace. */
  lemma CollapseSegment(a: string, ws: string, t: string)
    requires All(a, NotSpace)
    requires All(ws, IsSpace)
    requires t == [] || !IsSpace(t[0])
    ensures Collapse(a + (ws + t)) == a + (SpaceIf(ws) + Collapse(t))
  {
    CollapseNonSpacePrefix(a, ws + t);
    CollapseRun(ws, t);
  }

  /** A whitespace run and what follows it, when the text does not end in
      whitespace: the rest is not empty and does not start with whitespace. */
  lemma LeadingRun(x: string)
    requires x != [] && !IsSpace(x[|x| - 1])
    ensures var (p, q) := TakeWhile(x, IsSpace); q != [] && !IsSpace(q[0]) && |q| <= |x|
  {
    var (p, q) := TakeWhile(x, IsSpace);
    assert x == p + q;
  }

  /** `Collapse` works piecewise across a cut right after a non-whitespace
      character: no whitespace run spans the cut. */
  lemma {:induction false} CollapseAppend(x: string, u: string)
    requires x == [] || !IsSpace(x[|x| - 1])
    ensures Collapse(x + u) == Collapse(x) + Collapse(u)
    decreases |x|
  {
    if x == [] {
      assert x + u == u;
    } else if !IsSpace(x[0]) {
      assert (x + u)[0] == x[0];
      assert (x + u)[1..] == x[1..] + u;
      CollapseAppend(x[1..], u);
    } else {
      var (p, q) := TakeWhile(x, IsSpace);
      LeadingRun(x);
      assert p != [];
      assert x + u == p + (q + u);
      TakeWhileSplit(p, q + u, IsSpace);
      assert (x + u)[0] == x[0];
      CollapseAppend(q, u);
    }
  }

  /** Collapsing keeps a final non-whitespace character at the end. */
  lemma {:induction false} CollapseLast(x: string)
    requires x != [] && !IsSpace(x[|x| - 1])
    ensures Collapse(x) != [] && Collapse(x)[|Collapse(x)| - 1] == x[|x| - 1]
    decreases |x|
  {
    if !IsSpace(x[0]) {
      if |x| > 1 {
        CollapseLast(x[1..]);
      }
    } else {
      var (p, q) := TakeWhile(x, IsSpace);
      LeadingRun(x);
      assert p != [];
      assert q[|q| - 1] == x[|x| - 1];
      CollapseLast(q);
    }
  }

  /** Stripping on the left stops inside a text that does not end in
      whitespace, so what follows it is untouched. */
  lemma LStripAppend(a: string, m: string)
    requires a != [] && !IsSpace(a[|a| - 1])
    ensures LStrip(a + m) == LStrip(a) + m
  {
    var (p, q) := TakeWhile(a, IsSpace);
    LeadingRun(a);
    assert a + m == p + (q + m);
    TakeWhileSplit(p, q + m, IsSpace);
  }

  /** Stripping on the right stops inside a text that does not start with
      whitespace, so what precedes it is untouched. */
  lemma {:induction false} RStripAppend(pre: string, b: string)
    requires b != [] && !IsSpace(b[0])
    ensures RStrip(pre + b) == pre + RStrip(b)
    decreases |b|
  {
    var s := pre + b;
    if IsSpace(b[|b| - 1]) {
      var b' := b[..|b| - 1];
      assert s[..|s| - 1] == pre + b';
      RStripAppend(pre, b');
    }
  }

  /** `normalize_whitespace` separates words by exactly one space: a
      whitespace run between a non-whitespace character on its left and one
      on its right becomes a single ' ', and each side is normalised on its
      own. */
  lemma NormalizeSeparates(x: string, ws: string, y: string)
    requires x != [] && !IsSpace(x[|x| - 1])
    requires ws != [] && All(ws, IsSpace)
    requires y != [] && !IsSpace(y[0])
    ensures Normalize(x + (ws + y)) == Normalize(x) + (" " + Normalize(y))
  {
    CollapseJoin(x, ws, y);
    CollapseLast(x);
    CollapseFacts(y);
    StripJoin(Collapse(x), Collapse(y));
  }

  /** The whitespace run between two words collapses to one space. */
  lemma CollapseJoin(x: string, ws: string, y: string)
    requires x != [] && !IsSpace(x[|x| - 1])
    requires ws != [] && All(ws, IsSpace)
    requires y != [] && !IsSpace(y[0])
    ensures Collapse(x + (ws + y)) == Collapse(x) + (" " + Collapse(y))
  {
    CollapseAppend(x, ws + y);
    CollapseRun(ws, y);
  }

  /** Stripping a text whose one inner space sits between two
      non-whitespace characters strips each side on its own. */
  lemma StripJoin(a: string, b: string)
    requires a != [] && !IsSpace(a[|a| - 1])
    requires b != [] && !IsSpace(b[0])
    ensures Strip(a + (" " + b)) == Strip(a) + (" " + Strip(b))
  {
    LStripAppend(a, " " + b);
    var l := LStrip(a);
    assert l != [] && l[|l| - 1] == a[|a| - 1];
    assert l + (" " + b) == (l + " ") + b;
    RStripAppend(l + " ", b);
    assert Strip(a) == l;
    TakeWhileSplit([], b, IsSpace);
    assert [] + b == b;
    assert LStrip(b) == b;
  }

  // ---------------------------------------------------------------------------
  // Replacement, case, substrings, joining
  // ---------------------------------------------------------------------------

  /** `s.replace(a, b)` for single characters. */
  function ReplaceChar(s: string, a: char, b: char): (r: string)
    ensures |r| == |s|
    ensures forall i :: 0 <= i < |s| ==> r[i] == (if s[i] == a then b else s[i])
    decreases |s|
  {
    if s == [] then [] else [if s[0] == a then b else s[0]] + ReplaceChar(s[1..], a, b)
  }

  lemma ReplaceCharAppend(x: string, y: string, a: char, b: char)
    ensures ReplaceChar(x + y, a, b) == ReplaceChar(x, a, b) + ReplaceChar(y, a, b)
  {
    var l := ReplaceChar(x + y, a, b);
    var r := ReplaceChar(x, a, b) + ReplaceChar(y, a, b);
    assert forall i :: 0 <= i < |l| ==> l[i] == r[i];
  }

  lemma ReplaceCharAbsent(s: string, a: char, b: char)
    requires a !in s
    ensures ReplaceChar(s, a, b) == s
  {
    var r := ReplaceChar(s, a, b);
    forall i | 0 <= i < |s|
      ensures r[i] == s[i]
    {
      assert s[i] in s;
    }
  }

  /** Replacing a character that occurs once, between `x` and `y`. */
  lemma ReplaceCharAround(x: string, c: char, y: string, a: char, b: char)
    requires a !in x && a !in y
    ensures ReplaceChar(x + ([c] + y), a, b) == x + ([if c == a then b else c] + y)
  {
    var s := x + ([c] + y);
    var l := ReplaceChar(s, a, b);
    var r := x + ([if c == a then b else c] + y);
    forall i | 0 <= i < |s|
      ensures l[i] == r[i]
    {
      if i < |x| {
        assert s[i] == x[i] && x[i] in x;
      } else if i > |x| {
        assert s[i] == y[i - |x| - 1] && y[i - |x| - 1] in y;
      }
    }
  }

  /** `ReplaceCharAround` with the text before the character given as four
      pieces. */
  lemma ReplaceCharAfter4(p: string, q: string, r: string, x: string, c: char, y: string, a: char, b: char)
    requires a !in p && a !in q && a !in r && a !in x && a !in y
    ensures ReplaceChar(p + (q + (r + (x + ([c] + y)))), a, b) == p + (q + (r + (x + ([if c == a then b else c] + y))))
  {
    ReplaceCharAround(x, c, y, a, b);
    ReplaceCharAbsent(p, a, b);
    ReplaceCharAbsent(q, a, b);
    ReplaceCharAbsent(r, a, b);
    ReplaceCharAppend(r, x + ([c] + y), a, b);
    ReplaceCharAppend(q, r + (x + ([c] + y)), a, b);
    ReplaceCharAppend(p, q + (r + (x + ([c] + y))), a, b);
  }

  function LowerChar(c: char): char {
    if 'A' <= c <= 'Z' then (c as int + 32) as char else c
  }

  /** `str.lower()` restricted to ASCII letters. */
  function Lower(s: string): (r: string)
    ensures |r| == |s|
    ensures forall i :: 0 <= i < |s| ==> r[i] == LowerChar(s[i])
    decreases |s|
  {
    if s == [] then [] else [LowerChar(s[0])] + Lower(s[1..])
  }

  /** `s` starts with `pre`. */
  predicate StartsWith(s: string, pre: string) {
    |pre| <= |s| && s[..|pre|] == pre
  }

  /** `sub in s`. */
  predicate Contains(s: string, sub: string) {
    exists p :: 0 <= p <= |s| && OccursAt(s, sub, p)
  }

  /** `sub` occurs in `s` starting at index `p`. */
  predicate OccursAt(s: string, sub: string, p: nat) {
    p + |sub| <= |s| && s[p..p + |sub|] == sub
  }

  /** `sep.join(lines)`. */
  function Join(lines: seq<string>, sep: string): string
    decreases |lines|
  {
    if lines == [] then ""
    else if |lines| == 1 then lines[0]
    else lines[0] + sep + Join(lines[1..], sep)
  }

  // ---------------------------------------------------------------------------
  // Decimal digits
  // ---------------------------------------------------------------------------

  function DigitChar(n: nat): char
    requires n < 10
  {
    ('0' as int + n) as char
  }

  /** `int(s)` for a string of ASCII digits. */
  function DigitsValue(s: string): nat
    requires All(s, IsDigit)
    decreases |s|
  {
    if s == [] then 0
    else DigitsValue(s[..|s| - 1]) * 10 + (s[|s| - 1] as int - '0' as int)
  }

  /** `str(n)`: the decimal digits of `n`, without leading zeros, reading back as `n`. */
  function NatToString(n: nat): (r: string)
    ensures |r| > 0 && All(r, IsDigit)
    ensures DigitsValue(r) == n
    ensures |r| > 1 ==> r[0] != '0'
    decreases n
  {
    if n < 10 then [DigitChar(n)]
    else
      var r := NatToString(n / 10) + [DigitChar(n % 10)];
      assert r[..|r| - 1] == NatToString(n / 10);
      r
  }

  /** `str(i)` for any integer. */
  function IntToString(i: int): string {
    if i < 0 then "-" + NatToString(-i) else NatToString(i)
  }

  /** `f"{n:02d}"` for `0 <= n < 100`: exactly two digits that read back as `n`. */
  function TwoDigits(n: nat): (r: string)
    requires n < 100
    ensures |r| == 2 && All(r, IsDigit)
    ensures DigitsValue(r) == n
  {
    var r := [DigitChar(n / 10), DigitChar(n % 10)];
    assert r[..1] == [DigitChar(n / 10)];
    assert r[..1][..0] == [];
    assert DigitsValue(r[..1]) == n / 10;
    assert r[1] as int - '0' as int == n % 10;
    r
  }
}
