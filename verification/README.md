# University of Memphis term calendar importer — a Dafny model

The importer reads two pages of the registrar's site for one term, fall or spring of a year:

- the academic-year calendar;
- the term's dates-and-deadlines page.

From them it derives the events it puts on a Google calendar:

- the first and last day of classes, the study day and the exam range;
- the breaks and holidays that touch the term;
- the last day to drop with no grade and the last day to drop with a "W";
- one label per instructional week: "Week 1", "Week 2", …, with "(short)" on weeks that have fewer than five days of classes.

This project models the pure logic between the page text and those events. It starts from the pages' text lines and represents dates as day numbers.

| file | module | what it models |
|---|---|---|
| `results.dfy` | `Results` | `Option`, `Result` and the error kinds the importer raises (a bad semester, a missing section, missing class days, an unparsable date, a page that cannot be fetched). |
| `strings.dfy` | `Strings` | The character classes and the whitespace normalisation (`re.sub(r"\s+", " ", s).strip()`). It also covers `str.replace`, `str.lower`, digits and `:02d`. |
| `search.dfy` | `Search` | Leftmost search (`next(...)` and `re.search`) and the non-overlapping left-to-right scan of `re.findall`. |
| `calendar.dfy` | `Calendar` | Day numbers as `date.toordinal()`, the weekday, `monday_of_week`, `DateRange` with `contains`, `intersects` and `clamp`, `daterange_inclusive`, and the exclusive end of an all-day event. |
| `datetext.dfy` | `DateText` | The date patterns as token grammars, each with a round-trip lemma. It holds the month-word table used instead of dateutil, `parse_month_day_year` and `parse_range`. |
| `urls.dfy` | `PageUrls` | The academic-year slug and URL, and the two candidate dates-and-deadlines URLs. |
| `bullets.dfy` | `Bullets` | `find_bullet_date`, `find_bullet_range` and `find_any_labeled_ranges`. |
| `termblocks.dfy` | `TermBlocks` | The page lines, the term block of `extract_term_block_text` and `extract_subsection`. |
| `deadlines.dfy` | `Deadlines` | `strip_bullets`, the two-flag scan for the first `FULL` line of each section, `extract_end_date_from_full_line` and `parse_deadlines_drop_withdraw`. |
| `weeks.dfy` | `Weeks` | `instructional_week_events`: a method whose loop invariant says which weeks are labelled so far. |
| `term.dfy` | `Term` | `build_term_events`: reading both pages, keeping the holidays and breaks of the term, the blackout days and the week labels. |

Modelling choices:

- **Dates.** A date is its proleptic Gregorian day number: 0001-01-01 is day 1, as Python's `date.toordinal()` numbers it. The weekday is `(d + 6) % 7`, with Monday 0, as `date.weekday()` gives it.
- **Regular expressions.** Each one is an explicit token grammar: a datatype holding the pieces a match consists of, a matcher, and a lemma that reads a well-formed match back from its own text.
- **Errors.** Raised errors become `Result` errors. Absent values are `None`.
- **Fetching and HTML.** Fetching a page is a parameter `fetch: string -> Option<string>`, where `None` stands for a failed request. BeautifulSoup's text extraction plus `splitlines()` is a parameter `pageLines: string -> seq<string>`.
- **Inverted ranges.** `DateRange` does not require `start <= end`, as in the code. `clamp` of a range that misses the bounds, or a range such as "March 15-9, 2026", gives an inverted range. `Clamp` and `RangeOf` state exactly when that happens.

## Model

| member | source | states |
|---|---|---|
| Strings.CollapseFacts | uofm_calendar_import.py:111-112 | After `re.sub(r"\s+", " ", s)` the only whitespace left is single spaces, never two adjacent. The result is empty only for empty input, starts with whitespace exactly when the input does, and keeps every non-whitespace character in order. |
| Strings.StripKeepsCollapsed | uofm_calendar_import.py:112 | Stripping a collapsed text leaves a normal text: single inner spaces and no whitespace at either end. |
| Strings.StripKeepsNonSpace | uofm_calendar_import.py:112 | `strip()` removes only whitespace: the non-whitespace characters are kept in order. |
| Strings.NormalizeFacts | uofm_calendar_import.py:111-112 | `normalize_whitespace` returns a normal text with exactly the input's non-whitespace characters, in order. |
| Strings.NormalizeFixesNormal | uofm_calendar_import.py:111-112 | A text that is already normal comes back unchanged. |
| Strings.NormalizeIdempotent | uofm_calendar_import.py:111-112 | Normalising twice gives the same text as normalising once. |
| Strings.CollapseSegment | uofm_calendar_import.py:111 | A word, a whitespace run and a tail that starts with no whitespace collapse to the word, one space when the run is non-empty, and the collapsed tail: each run becomes exactly one space in place. |
| Strings.CollapseAppend | uofm_calendar_import.py:111 | Collapsing works piece by piece across a cut just after a non-whitespace character, since no whitespace run spans the cut. |
| Strings.NormalizeSeparates | uofm_calendar_import.py:111-112 | A whitespace run with a non-whitespace character on each side becomes exactly one space: `normalize_whitespace(x + ws + y)` is `normalize_whitespace(x) + " " + normalize_whitespace(y)`. So "Spring  2026" becomes "Spring 2026", never "Spring2026". |
| Strings.ReplaceChar | uofm_calendar_import.py:137 | `replace("–", "-")` keeps the length and changes exactly the positions holding an en dash. |
| Strings.Lower | uofm_calendar_import.py:166 | `lower()` keeps the length and lowers each ASCII capital in place. |
| Strings.TwoDigits | uofm_calendar_import.py:171-173 | `:02d` of a number below 100 is two digits that read back as that number. |
| Strings.NatToString | uofm_calendar_import.py:143 | The decimal text of a number is non-empty digits that read back as the number, with no leading zero. |
| Search.FirstIndex | uofm_calendar_import.py:219 | `next(i for i, l in enumerate(lines) if …)` finds the first index from a start that satisfies the test, or none when no index does. |
| Search.FirstMatch | uofm_calendar_import.py:246 | `re.search` finds the leftmost position where the anchored pattern matches, or none when no position matches. |
| Search.FindAllOccur | uofm_calendar_import.py:354 | Every match `re.findall` reports is a match at its reported position, and the reported matches come left to right without overlapping. |
| Search.FindAllGaps | uofm_calendar_import.py:354 | `re.findall` reports nothing exactly when no position matches. No match starts before the first reported one, between the end of one and the start of the next, or after the last. |
| Search.PickIndicesPicks | uofm_calendar_import.py:266-272 | The positions a filter keeps are listed each once, in increasing order, and every kept position is listed. |
| Search.PicksUnique | uofm_calendar_import.py:266-272 | Any list of positions with those three properties is the one computed, so a filter's kept positions are determined. |
| Search.ImagesCons | uofm_calendar_import.py:266-272 | A filtering loop over `[x] + xs` yields `f(x)` followed by the loop's result on `xs` when `x` is kept, and that result alone otherwise. |
| Search.ImagesMembers | uofm_calendar_import.py:596-605 | Every element of a filtered list is the image of a kept element, and every kept element's image is in it. |
| Calendar.DayNumberSuccessor | uofm_calendar_import.py:84-88 | The next calendar day (`+ timedelta(days=1)`) has the next day number, across month and year ends and leap days. |
| Calendar.August25th2025IsMonday | uofm_calendar_import.py:241 | The weekday of the documentation's first day of classes, August 25, 2025, is Monday. |
| Calendar.Monday | uofm_calendar_import.py:432-433 | `monday_of_week(d)` is a Monday no later than `d` and less than a week before it. |
| Calendar.WeekdayInWeek | uofm_calendar_import.py:432-433 | Day `k` of the week starting on Monday `m` has weekday `k`, and its Monday is `m`. |
| Calendar.MondaysApart | uofm_calendar_import.py:457-483 | Two different Mondays are at least a week apart. |
| Calendar.MondayMonotone | uofm_calendar_import.py:450-451 | A later day never has an earlier Monday: the loop's first Monday is not after its last. |
| Calendar.DateRange.Clamp | uofm_calendar_import.py:80-81 | The clamped range lies within both the range and `[lo, hi]`. It contains exactly the days both contain. It is non-inverted exactly when both ranges are non-inverted and intersect. |
| Calendar.IntersectsIffCommonDay | uofm_calendar_import.py:77-78 | Two non-inverted ranges intersect exactly when some day lies in both. |
| Calendar.DaysInclusive | uofm_calendar_import.py:84-88 | `daterange_inclusive` yields the consecutive days from start to end, none when start is after end. |
| Calendar.DaysInclusiveMembers | uofm_calendar_import.py:84-88 | A day is yielded exactly when the range contains it. |
| Calendar.ToAllDay | uofm_calendar_import.py:91-98 | The exclusive end of the all-day event covers exactly the days of the inclusive range. |
| DateText.MonthNumber | uofm_calendar_import.py:143 | A recognised month word names a month from 1 to 12. |
| DateText.MatchMonthDay | uofm_calendar_import.py:140 | `([A-Za-z]+)\s+(\d{1,2})` splits the text into a well-formed month-day and a rest that does not go on with a digit. |
| DateText.MatchDash | uofm_calendar_import.py:140 | `\s*-\s*` splits the text into a well-formed dash separator and a rest that starts with no whitespace. |
| DateText.MatchYearTail | uofm_calendar_import.py:140 | `,\s*(\d{4})` followed by anything is a well-formed year tail spelling the whole text. |
| DateText.MatchDate | uofm_calendar_import.py:338 | A date match is well formed and spells the whole text. |
| DateText.MatchRange | uofm_calendar_import.py:148 | A single-month range match is well formed and spells the whole text. |
| DateText.MatchSpan | uofm_calendar_import.py:342 | A two-month range match is well formed and spells the whole text. |
| DateText.MatchMonthDayText | uofm_calendar_import.py:140 | A well-formed month-day followed by a non-digit is read back exactly. |
| DateText.MatchDateText | uofm_calendar_import.py:338 | Every well-formed date is read back exactly from its own text. |
| DateText.MatchRangeText | uofm_calendar_import.py:140 | Every well-formed single-month range is read back exactly from its own text. |
| DateText.MatchSpanText | uofm_calendar_import.py:342 | Every well-formed two-month range is read back exactly from its own text. |
| DateText.RangeOf | uofm_calendar_import.py:142-145 | A range of one month parses exactly when both days exist. It starts on the first day, and its length is the difference of the two days, which is negative for a descending pair. |
| DateText.OneDay | uofm_calendar_import.py:155-157 | A single date becomes the range that starts and ends on it; a date that does not parse gives its error. |
| DateText.ParseMonthDayYearOfCapture | uofm_calendar_import.py:115-122 | `parse_month_day_year` of a captured `Month D, YYYY` is the date of that month word, day and year. |
| DateText.ParseNormalDate | uofm_calendar_import.py:115-122 | Any text whose normal form is a captured date parses to that date. |
| DateText.ParseRangeOfCapture | uofm_calendar_import.py:137-153 | `parse_range` of a single-month range, with a hyphen or an en dash and any spacing, is the range of that month's two days. |
| DateText.ParseNormalRange | uofm_calendar_import.py:137-153 | Any text whose normal form (en dashes replaced) is a single-month range parses to that range. |
| DateText.RangeOfNormalText | uofm_calendar_import.py:140-153 | A normalised text that starts with a single-month range is read as that range, whatever follows the year (the second pattern's trailing `.*`). The single-date fallback is never reached. |
| DateText.ParseRangeOfDate | uofm_calendar_import.py:155-157 | A plain date given to `parse_range` is the one-day range of that date, or the date's error. |
| DateText.ParseRangeExample | uofm_calendar_import.py:128 | "October 11-14, 2025" parses to October 11 through October 14, 2025. |
| DateText.ParseRangeEnDashExample | uofm_calendar_import.py:134-135 | "March 9 – 15, 2026", with an en dash and spaces, parses to March 9 through March 15, 2026. |
| PageUrls.SlugOf | uofm_calendar_import.py:171-173 | The slug is `ay`, two digits, two digits, `.php`. The first pair reads back as the fall year modulo 100 and the second as the next year modulo 100. |
| PageUrls.AcademicYearSlug | uofm_calendar_import.py:160-173 | The semester is rejected exactly when, lower-cased, it is neither "fall" nor "spring". Otherwise the slug is that of the fall year: the year itself for fall, the year before for spring. |
| PageUrls.SpringSharesFallPage | uofm_calendar_import.py:162-170 | Spring of a year shares its academic-year page with fall of the year before. |
| PageUrls.AcademicYearSlugExample | uofm_calendar_import.py:160-173 | Fall 2025 and Spring 2026 are both on `ay2526.php`, and Fall 2099 wraps to `ay9900.php`. |
| PageUrls.AcademicUrl | uofm_calendar_import.py:531-532 | The academic-year URL exists exactly when the slug does, and is the base, a slash and the slug. |
| PageUrls.TemplateName | uofm_calendar_import.py:190-191 | The template-style page name is the lower-cased semester, two digits reading back as the year modulo 100, and `-dates.php`. |
| PageUrls.CodeName | uofm_calendar_import.py:193-195 | The code-style page name is two year digits, then `f` exactly for fall and `s` for every other semester, then `-dates.php`. |
| PageUrls.CandidateDeadlineUrls | uofm_calendar_import.py:176-197 | The dates-and-deadlines URLs are tried in this order: the template-style name, then the code-style name. |
| PageUrls.SpringNamesExample | uofm_calendar_import.py:178-183 | For Spring 2026 the names tried are `spring26-dates.php` and `26s-dates.php`. |
| PageUrls.FallNamesExample | uofm_calendar_import.py:190-195 | For Fall 2025 the names tried are `fall25-dates.php` and `25f-dates.php`. |
| Bullets.MatchLabel | uofm_calendar_import.py:245 | `{label}\s*:\s*` splits the text into a well-formed label prefix for that label and a rest starting with no whitespace. |
| Bullets.MatchLabelText | uofm_calendar_import.py:245 | A well-formed label prefix followed by a non-space is read back exactly. |
| Bullets.DateHitAt | uofm_calendar_import.py:245 | A date hit is the label, the colon and a `Month D, YYYY` whose comma is followed by whitespace, spelling the text. |
| Bullets.DateHitAtText | uofm_calendar_import.py:245 | Every well-formed date hit is found again at the start of its own text. |
| Bullets.FindBulletDate | uofm_calendar_import.py:238-249 | No date when the pattern occurs nowhere. Otherwise the date of the leftmost hit, or that date's parse error. |
| Bullets.RangeHitAt | uofm_calendar_import.py:259 | A range hit is the label, the colon and a single-month range with a hyphen or an en dash, spelling the text. |
| Bullets.RangeHitAtText | uofm_calendar_import.py:259 | Every well-formed range hit is found again at the start of its own text. |
| Bullets.FindBulletRange | uofm_calendar_import.py:252-263 | No range when the pattern occurs nowhere. Otherwise the range of the leftmost hit, or its parse error. |
| Bullets.Collect | uofm_calendar_import.py:266-272 | The loop succeeds exactly when every lookup does, and otherwise fails with the error of the first lookup that fails. On success it holds one entry per label whose lookup found something, in label order, each the label with its value (`FoundInOrder`). |
| Bullets.FoundInOrderEntries | uofm_calendar_import.py:266-272 | Entry `k` of a collected list is label `idx[k]` with the value found for it, where `idx` lists the positions of the labels that found something in increasing order. |
| Bullets.FindAnyLabeledRanges | uofm_calendar_import.py:266-272 | Succeeds exactly when every range lookup does; otherwise the error is that of the first failing label. On success the list holds one entry per label whose range is found, in label order, each with that range. |
| Bullets.FindLabeledDates | uofm_calendar_import.py:558-562 | Succeeds exactly when every date lookup does; otherwise the error is that of the first failing label. On success the list holds one entry per label whose date is found, in label order, each with that date. |
| TermBlocks.NormalizeLinesNormal | uofm_calendar_import.py:213-214 | A consequence of NormalizeLinesInOrder that later steps use: every page line is non-empty and normal, and there are no more page lines than raw lines. |
| TermBlocks.NormalizeLinesKeepText | uofm_calendar_import.py:213-214 | A consequence of NormalizeLinesInOrder: the page lines together keep every non-whitespace character of the page text, in order (the per-line statement is NormalizeLinesInOrder). |
| TermBlocks.NormalizeLinesInOrder | uofm_calendar_import.py:213-214 | The page lines are `normalize_whitespace` of the raw lines whose normal form is not empty, one per such raw line, in page order. |
| TermBlocks.SpringHeadingExample | uofm_calendar_import.py:223 | "Spring 2026" is a term heading, and a spring heading. |
| TermBlocks.SpringBlock | uofm_calendar_import.py:217-224 | The spring block fails exactly when no line contains the key. Otherwise it is the slice starting at the first line containing the key. It stops at the end or just before the next heading of another term, and holds no such heading after its first line. |
| TermBlocks.BlockEnd | uofm_calendar_import.py:223 | The block end is the first line after the start that is a heading not containing the key, or the end of the lines. |
| TermBlocks.FallBlock | uofm_calendar_import.py:228-235 | The fall block is a prefix holding no `Spring {year+1}` line. It stops at the first such line, or when there is none, at the first spring heading, and otherwise runs to the end. |
| TermBlocks.TermBlock | uofm_calendar_import.py:216-235 | Spring fails exactly when no line holds the key, and otherwise is the spring block of `Spring {year}` (first key line to before the next foreign heading). Every other semester gets the fall block bounded by `Spring {year+1}`, a prefix of the lines. |
| TermBlocks.StripLines | uofm_calendar_import.py:494 | The result is the stripped lines that are not empty, one per such line, in order. |
| TermBlocks.StripLinesOfNormal | uofm_calendar_import.py:494 | Lines that are already normal and non-empty come through unchanged. |
| TermBlocks.SubsectionOf | uofm_calendar_import.py:507-518 | There is no subsection exactly when no line equals the header. Otherwise it is the slice starting at the first line equal to the header, holding no known subsection header after it, and ending at the end or just before the next known header. |
| TermBlocks.Subsection | uofm_calendar_import.py:487-518 | Without the header, the block comes back unchanged. With it, the result is the slice of the stripped lines that starts at the first line equal to the header, holds no known subsection header after it, and ends at the end of the block or just before the next known header. |
| Deadlines.StripBullets | uofm_calendar_import.py:290-292 | What is left after stripping bullets is empty, or starts with no bullet character and ends with no whitespace. |
| Deadlines.StripBulletsOfTrimmed | uofm_calendar_import.py:290-292 | On a line with no trailing whitespace, stripping bullets removes exactly the leading run of bullet characters. |
| Deadlines.StripBulletsSplit | uofm_calendar_import.py:290-292 | Bullets in front of a trimmed text that starts with no bullet are exactly what is removed. |
| Deadlines.StripBulletsIdempotent | uofm_calendar_import.py:290-292 | Stripping bullets twice is stripping them once. |
| Deadlines.DeadlineLinesFacts | uofm_calendar_import.py:287-294 | Each deadline line is the matching normalised page line without its leading bullet run. |
| Deadlines.StepKeepsInvariant | uofm_calendar_import.py:302-319 | One pass of the loop body keeps the scan invariant. The two flags name the section set by the last header line, and at most one is set. Each capture is the first `FULL` line of its section among the lines read so far, or none when there is no such line. |
| Deadlines.ScanFromFinds | uofm_calendar_import.py:302-322 | Scanning to the end, or until the early `break`, captures the first `FULL` line of the drop section and of the withdrawal section, or none where there is none. |
| Deadlines.FindFullLines | uofm_calendar_import.py:296-322 | The two captured lines are the first `FULL` lines inside a drop section and inside a withdrawal section. Header lines and `FULL` lines outside a section are never captured. |
| Deadlines.FirstCandidateUnique | uofm_calendar_import.py:313-319 | A section has only one first `FULL` line. |
| Deadlines.SectionEndUnique | uofm_calendar_import.py:313-319 | A section's end date is determined by its lines. |
| Deadlines.NoCandidateNoDate | uofm_calendar_import.py:299-326 | A section with no `FULL` line has no end date. |
| Deadlines.DateCaptureAt | uofm_calendar_import.py:354 | A date capture exists at a position exactly when the date pattern matches there; it is well formed and occurs in the text at that position. |
| Deadlines.FindAllDatesFacts | uofm_calendar_import.py:354 | The candidates are well-formed dates occurring where reported; there are none exactly when the pattern matches nowhere. |
| Deadlines.EndDateOfRest | uofm_calendar_import.py:337-358 | No end date exactly when the rest is not a full date, two-month range or single-month range and holds no date anywhere. |
| Deadlines.ExtractEndDate | uofm_calendar_import.py:324-358 | No line, or an empty one, has no end date. Any other line's end date is that of what remains once `FULL`, the separators and surrounding whitespace are removed; FullLineDate, FullLineSpan and FullLineRange give the value for each form of line. |
| Deadlines.EndOfDate | uofm_calendar_import.py:337-339 | A bare date is its own end date. |
| Deadlines.EndOfSpan | uofm_calendar_import.py:341-345 | A two-month range ends on its second month, day and the year. |
| Deadlines.EndOfRange | uofm_calendar_import.py:347-351 | A single-month range ends on its month, second day and the year. |
| Deadlines.RangeIsNoDate | uofm_calendar_import.py:337-338 | A single-month range is not read as a bare date. |
| Deadlines.RangeIsNoSpan | uofm_calendar_import.py:341-343 | A single-month range is not read as a two-month range. |
| Deadlines.EndOfLastDate | uofm_calendar_import.py:353-356 | When no full pattern applies, the last date written anywhere in the rest decides. |
| Deadlines.RestOfFullLine | uofm_calendar_import.py:332-335 | Removing `FULL` and the separators after it leaves the body with en dashes replaced and whitespace normalised. |
| Deadlines.DropFullOf | uofm_calendar_import.py:332 | `FULL` followed by a separator ends a word, so it is removed. The strip that follows removes only part of the separators and leaves the body intact. |
| Deadlines.StripBeforeBody | uofm_calendar_import.py:332-333 | Stripping whitespace in front of a trimmed body keeps the body and a suffix of what precedes it. |
| Deadlines.FullLineDate | uofm_calendar_import.py:328-339 | `FULL`, separators and a date give that date. |
| Deadlines.FullLineSpan | uofm_calendar_import.py:328-345 | `FULL`, separators and a two-month range give the range's second date. |
| Deadlines.FullLineRange | uofm_calendar_import.py:328-351 | `FULL`, separators and a single-month range give the range's second day. |
| Deadlines.SpanLineExample | uofm_calendar_import.py:330 | "FULL  -  January 20 - February 2, 2026" ends on February 2, 2026. |
| Deadlines.RangeLineExample | uofm_calendar_import.py:347 | "FULL - March 16-29, 2026" ends on March 29, 2026. |
| Deadlines.ParseDeadlinesEnds | uofm_calendar_import.py:275-362 | Success gives each section's end date as read from its first `FULL` line. A failure is the error of one section's line. |
| Deadlines.ParseDeadlinesFails | uofm_calendar_import.py:360-362 | An unreadable drop line makes the page fail with its error, read first. An unreadable withdrawal line makes it fail too. |
| Weeks.KeepClassDays | uofm_calendar_import.py:463-469 | The inner loop keeps exactly the weekdays in no blackout range, in order. |
| Weeks.KeepClassDaysAll | uofm_calendar_import.py:463-469 | Days that are all instructional weekdays are all kept. |
| Weeks.WeekDays | uofm_calendar_import.py:458-469 | The days collected for a Monday are, in increasing order, exactly the instructional days from that Monday to its Friday. |
| Weeks.IncreasingWithin | uofm_calendar_import.py:478 | At most five increasing days fit in a five-day window, and five of them fill it. |
| Weeks.WeekDaysShort | uofm_calendar_import.py:478 | A week is short exactly when some day from its Monday to its Friday is not a day of classes. |
| Weeks.ParseTitleOfTitle | uofm_calendar_import.py:479 | A title reads back as its week number and whether it is short. |
| Weeks.WeekEventAt | uofm_calendar_import.py:458-481 | A Monday–Friday window yields no label exactly when it has no day of classes. Otherwise the label carries the given number, starts in that week and satisfies the week-label property. |
| Weeks.NoClassDays | uofm_calendar_import.py:471-474 | An empty day list means the window has no day of classes. |
| Weeks.WeekEventOfDays | uofm_calendar_import.py:476-480 | The label from the first to the last collected day starts and ends on days of classes in one Monday–Friday window. It covers every day of classes there and is short exactly when one of the five days is not a day of classes. |
| Weeks.WindowCovered | uofm_calendar_import.py:476-477 | Every day of classes in the window lies between the first and the last collected day. |
| Weeks.LabelledStart | uofm_calendar_import.py:450-456 | Before the loop, with no labels, the loop invariant holds at the first Monday. |
| Weeks.LabelledStep | uofm_calendar_import.py:457-483 | One pass of the outer loop keeps the invariant, with a label added exactly when the window has a day of classes. |
| Weeks.LabelledSkip | uofm_calendar_import.py:471-474 | An empty week is skipped without using a number. |
| Weeks.LabelledAppend | uofm_calendar_import.py:476-483 | Appending the week's label with the next number keeps the invariant. |
| Weeks.AppendNumbered | uofm_calendar_import.py:480-481 | Labels stay numbered 1, 2, … without gaps when the next number is appended. |
| Weeks.AppendOrdered | uofm_calendar_import.py:480-483 | Labels stay in strictly increasing order when a label of a later week is appended. |
| Weeks.CoveredAppend | uofm_calendar_import.py:476-483 | Every day of classes in a processed week stays covered. |
| Weeks.LabelledDone | uofm_calendar_import.py:457-485 | After the last Monday, every day of classes of the term is covered by a label. |
| Weeks.InstructionalWeekEvents | uofm_calendar_import.py:436-485 | The labels are numbered 1, 2, … without gaps and come in strictly increasing order. Each starts and ends on a day of classes in one Monday–Friday window, covers every day of classes of that window and is short exactly when one of its five days is not a day of classes. Every day of classes is covered. |
| Term.TermText | uofm_calendar_import.py:534-535 | Reading the term's text fails exactly for a spring term whose key is on no line, with the missing-section error. Otherwise the text is the "Full Part of Term" subsection of the term block of the normalised page lines, joined by newlines. |
| Term.ReadKeyDates | uofm_calendar_import.py:537-569 | The lookups fail in the code's order: first day, last day, study day, exams each abort with their own error; then a missing day of classes; then the first failing labelled range, then the first failing holiday. It succeeds exactly when none of these fails, and then holds the dates found, the holidays and the breaks in label order. |
| Term.ReadListed | uofm_calendar_import.py:556-569 | Succeeds exactly when every range lookup and every holiday lookup does; otherwise fails with the first failing range label's error, then the first failing holiday's. On success it adds the holidays and breaks found, in label order, and changes nothing else. |
| Term.Fetched | uofm_calendar_import.py:533 | A fetch succeeds exactly when the page is there and gives its content; otherwise it fails with that URL. |
| Term.FirstFetched | uofm_calendar_import.py:578-584 | The first URL that can be fetched is used; there is none exactly when none can be fetched. |
| Term.ReadAcademic | uofm_calendar_import.py:526-544 | A bad semester is rejected first, then an academic page that cannot be fetched, then a missing term section. After that it succeeds exactly when the key dates can be read, with their error otherwise. On success the result is the page's URL and the key dates read from its term text. |
| Term.ReadDeadlinePage | uofm_calendar_import.py:575-591 | The template-style address is used when it can be fetched, otherwise the code-style one. When neither can be fetched, or the page used is empty, the build fails with the missing-page error. Otherwise the result is that address with the page's parsed deadlines, or the parse error. |
| Term.ReadSources | uofm_calendar_import.py:525-591 | Reading both pages succeeds exactly when each part does. An academic error comes first, then a deadlines error. |
| Term.HolidaysInTerm | uofm_calendar_import.py:596-599 | The holidays inside the term, each as a one-day range, one per such holiday, in the listed order. |
| Term.BreaksInTerm | uofm_calendar_import.py:602-605 | The breaks that intersect the term, unclamped, one per such break, in the listed order. |
| Term.BlackoutDays | uofm_calendar_import.py:607-609 | A day is blacked out exactly when it is in the term and in a kept break, or is a kept holiday. |
| Term.BreakDays | uofm_calendar_import.py:602-608 | A day of the term is in some break exactly when it is in some kept break. |
| Term.HolidayDays | uofm_calendar_import.py:596-609 | A day of the term is a holiday exactly when it is a kept holiday. |
| Term.ClassDaysOfTerm | uofm_calendar_import.py:593-611 | The days the week counting treats as instructional are exactly the weekdays of the term that lie in no listed break and are no listed holiday. |
| Term.WeeksOfTermFrom | uofm_calendar_import.py:611 | Labels counted with the term's blackout days are the term's week labels. |
| Term.BuildTerm | uofm_calendar_import.py:525-625 | The build fails exactly as reading the sources fails. On success it keeps exactly the term's breaks and holidays, and its week labels are numbered without gaps, ordered and correct. Every day of classes is covered. |

## Left out

- Fetching (`fetch_html`) is the parameter `fetch`. The HTML-to-text step (BeautifulSoup `get_text("\n")` and `splitlines()`) is the parameter `pageLines`. Both are foreign code and network I/O.
- dateutil is replaced by a fixed month table: dateutil's English month names and three-letter abbreviations plus "sept", case-insensitive. The fuzzy fallback of `parse_month_day_year` is narrowed to a text that normalises to exactly `Month D, YYYY`; any other text is an unparsable date. dateutil's full natural-language grammar is a foreign library.
- Character classes are ASCII: `\d`, `[A-Za-z]`, `\w` and `re.IGNORECASE` are not Unicode-aware here. `\s` is Python's `str.isspace` set.
- Parsed years are limited to 1..9999. Date arithmetic past 9999-12-31 is not modelled: Python raises `OverflowError` there (for example at `cur += timedelta(days=7)`, line 483), while the model's day numbers just go on. Two-digit years and other dateutil defaults are not modelled.
- `isoformat()` rendering of dates is left out: dates stay day numbers. So are the Google OAuth flow, `upsert_event`, the command line, the dry run and all printing, which are external services and I/O.
- The exact text of error messages is left out; each raised error is one `Error` constructor.
- The `holiday_like_labels` list is defined and never used in the code, so it has no counterpart.
- `splitlines()` followed by `"\n".join(...)` is taken to give back the lines joined. Whether a line holding a line-break character survives that round trip is not modelled.
- DateText.MonthNumber: its own contract states only the month range. Which words are months is stated by the example lemmas, for instance OctoberMonth.
