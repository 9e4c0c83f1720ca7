/** The addresses of the registrar's pages: the academic-year calendar,
    named after the two years it spans, and the two spellings tried for a
    term's dates-and-deadlines page. */
module PageUrls {
  import opened Results
  import opened Strings

  const AcademicBase: string := "https://preview.memphis.edu/registrar/calendars/academic"
  const DatesBase: string := "https://preview.memphis.edu/registrar/calendars/dates"

  /** The year whose fall opens the academic year of the term. */
  function FallYear(year: int, semester: string): int {
    if Lower(semester) == "fall" then year else year - 1
  }

  /** `ay{yy}{yy+1}.php` for the fall year `fy`: ten characters whose four
      digits read back as the last two digits of `fy` and of the year after. */
  function SlugOf(fy: int): (slug: string)
    ensures |slug| == 10 && slug[..2] == "ay" && slug[6..] == ".php"
    ensures All(slug[2..4], IsDigit) && All(slug[4..6], IsDigit)
    ensures DigitsValue(slug[2..4]) == fy % 100
    ensures DigitsValue(slug[4..6]) == (DigitsValue(slug[2..4]) + 1) % 100
  {
    var first := TwoDigits(fy % 100);
    var second := TwoDigits((fy + 1) % 100);
    NextYearDigits(fy);
    SlugParts(first, second);
    SlugText(first, second)
  }

  function SlugText(first: string, second: string): string {
    "ay" + first + second + ".php"
  }

  lemma NextYearDigits(fy: int)
    ensures (fy + 1) % 100 == (fy % 100 + 1) % 100
  {
  }

  lemma SlugParts(first: string, second: string)
    requires |first| == 2 && |second| == 2
    requires All(first, IsDigit) && All(second, IsDigit)
    ensures var slug := SlugText(first, second);
            && |slug| == 10 && slug[..2] == "ay" && slug[6..] == ".php"
            && slug[2..4] == first && slug[4..6] == second
  {
  }

  /** `academic_year_slug_for_term`: the slug of the term's fall year; an
      error for any semester other than fall or spring (in any case).
      Python's `%` by 100 and Dafny's agree here: both give a remainder in
      0..99, also for negative years. */
  function AcademicYearSlug(year: int, semester: string): (r: Result<string>)
    ensures r.Err? <==> Lower(semester) != "fall" && Lower(semester) != "spring"
    ensures r.Err? ==> r.error == BadSemester(semester)
    ensures r.Ok? ==> r.value == SlugOf(FallYear(year, semester))
  {
    var sem := Lower(semester);
    if sem != "fall" && sem != "spring" then Err(BadSemester(semester))
    else Ok(SlugOf(FallYear(year, semester)))
  }

  /** A spring term is on the page of the academic year whose fall is the
      year before. */
  lemma SpringSharesFallPage(year: int, spring: string, fall: string)
    requires Lower(spring) == "spring" && Lower(fall) == "fall"
    ensures AcademicYearSlug(year, spring) == AcademicYearSlug(year - 1, fall)
  {
  }

  /** The slugs of Fall 2025, Spring 2026 and Fall 2099. */
  lemma AcademicYearSlugExample(fall: string, spring: string)
    requires fall == "fall" && spring == "Spring"
    ensures AcademicYearSlug(2025, fall) == Ok("ay2526.php")
    ensures AcademicYearSlug(2026, spring) == Ok("ay2526.php")
    ensures AcademicYearSlug(2099, fall) == Ok("ay9900.php")
  {
    assert Lower(fall) == "fall";
    assert Lower(spring) == "spring";
    SlugExample(2025, "ay2526.php");
    SlugExample(2099, "ay9900.php");
  }

  lemma SlugExample(fy: int, slug: string)
    requires (fy == 2025 && slug == "ay2526.php") || (fy == 2099 && slug == "ay9900.php")
    ensures SlugOf(fy) == slug
  {
    if fy == 2025 {
      SlugDigits(fy, 2, 5, 2, 6);
    } else {
      SlugDigits(fy, 9, 9, 0, 0);
    }
  }

  lemma SlugDigits(fy: int, a: nat, b: nat, c: nat, d: nat)
    requires a < 10 && b < 10 && c < 10 && d < 10
    requires fy % 100 == 10 * a + b && (fy + 1) % 100 == 10 * c + d
    ensures SlugOf(fy) == "ay" + [DigitChar(a), DigitChar(b)] + [DigitChar(c), DigitChar(d)] + ".php"
  {
    assert TwoDigits(fy % 100) == [DigitChar(a), DigitChar(b)];
    assert TwoDigits((fy + 1) % 100) == [DigitChar(c), DigitChar(d)];
  }

  /** The academic-year page of a term. */
  function AcademicUrl(year: int, semester: string): (r: Result<string>)
    ensures r.Ok? <==> AcademicYearSlug(year, semester).Ok?
    ensures r.Ok? ==> r.value == AcademicBase + "/" + AcademicYearSlug(year, semester).value
  {
    var slug :- AcademicYearSlug(year, semester);
    Ok(AcademicBase + "/" + slug)
  }

  /** The template-style page name `{semester}{yy}-dates.php`, with the
      semester lower-cased: it starts with the semester, and the two digits
      after it read back as the year's last two digits. */
  function TemplateName(year: int, semester: string): (name: string)
    ensures StartsWith(name, Lower(semester)) && |name| == |Lower(semester)| + 12
    ensures All(name[|Lower(semester)|..|Lower(semester)| + 2], IsDigit)
    ensures DigitsValue(name[|Lower(semester)|..|Lower(semester)| + 2]) == year % 100
    ensures name[|name| - 10..] == "-dates.php"
  {
    var sem := Lower(semester);
    var yy := TwoDigits(year % 100);
    var name := sem + yy + "-dates.php";
    assert name[|sem|..|sem| + 2] == yy;
    assert name[..|sem|] == sem;
    name
  }

  /** The code-style page name `{yy}{f|s}-dates.php`: two digits reading
      back as the year's last two digits, then `f` for fall and `s` for
      every other semester. */
  function CodeName(year: int, semester: string): (name: string)
    ensures |name| == 13 && All(name[..2], IsDigit) && DigitsValue(name[..2]) == year % 100
    ensures name[2] == 'f' <==> Lower(semester) == "fall"
    ensures name[2] == 's' <==> Lower(semester) != "fall"
    ensures name[3..] == "-dates.php"
  {
    var yy := TwoDigits(year % 100);
    var code := if Lower(semester) == "fall" then "f" else "s";
    var name := yy + code + "-dates.php";
    assert name[..2] == yy;
    name
  }

  /** `candidate_dates_deadlines_urls`: the template-style name first, then
      the code-style name, both under the dates directory. The semester is
      not checked here. */
  function CandidateDeadlineUrls(year: int, semester: string): (r: seq<string>)
    ensures |r| == 2
    ensures r[0] == DatesBase + "/" + TemplateName(year, semester)
    ensures r[1] == DatesBase + "/" + CodeName(year, semester)
  {
    [DatesBase + "/" + TemplateName(year, semester), DatesBase + "/" + CodeName(year, semester)]
  }

  /** The page names tried for Spring 2026. */
  lemma SpringNamesExample(spring: string)
    requires spring == "Spring"
    ensures TemplateName(2026, spring) == "spring26-dates.php"
    ensures CodeName(2026, spring) == "26s-dates.php"
  {
    LowerWord(spring, "spring");
    YearDigits(2026, "26");
    NamesAre(2026, spring);
    NameLiterals();
  }

  /** The page names tried for Fall 2025. */
  lemma FallNamesExample(fall: string)
    requires fall == "fall"
    ensures TemplateName(2025, fall) == "fall25-dates.php"
    ensures CodeName(2025, fall) == "25f-dates.php"
  {
    LowerWord(fall, "fall");
    YearDigits(2025, "25");
    NamesAre(2025, fall);
    NameLiterals();
  }

  lemma YearDigits(year: int, yy: string)
    requires (year == 2025 && yy == "25") || (year == 2026 && yy == "26")
    ensures TwoDigits(year % 100) == yy
  {
    if year == 2025 {
      assert TwoDigits(25) == [DigitChar(2), DigitChar(5)];
    } else {
      assert TwoDigits(26) == [DigitChar(2), DigitChar(6)];
    }
  }

  lemma NameLiterals()
    ensures "spring" + "26" + "-dates.php" == "spring26-dates.php"
    ensures "26" + "s" + "-dates.php" == "26s-dates.php"
    ensures "fall" + "25" + "-dates.php" == "fall25-dates.php"
    ensures "25" + "f" + "-dates.php" == "25f-dates.php"
  {
  }

  lemma LowerWord(word: string, lower: string)
    requires (word == "Spring" || word == "fall") && lower == (if word == "fall" then "fall" else "spring")
    ensures Lower(word) == lower
  {
  }

  lemma NamesAre(year: int, semester: string)
    ensures TemplateName(year, semester) == Lower(semester) + TwoDigits(year % 100) + "-dates.php"
    ensures CodeName(year, semester) == TwoDigits(year % 100) + (if Lower(semester) == "fall" then "f" else "s") + "-dates.php"
  {
  }
}
