# De Anza course planner: the scraping, scheduling and store rules, in Dafny

This project models the logic at the centre of the course planner and proves properties of it:

- **Professor names** (`scraper_module.py`). `normalize_name` turns a display name into lower-case tokens, and `match_professor_name_strict` compares the outer tokens of two names. Both live in module `Names`.
- **Listings rows.** `_extract_course_from_row` works on a table row, with the HTML abstracted to a sequence of cells. It reads the CRN, days, time, professor and format, and fills in defaults. This is module `Listings`.
- **Collecting and de-duplicating rows.** The table walk of `parse_course_info` and its CRN de-duplication are in `Dedup`.
- **Course input.** `parse_course_input` is in `CourseInput`.
- **Retries.** The retry loop of `get_listings` is in `Fetch`.
- **Class times and conflicts** (`models.py`). `parse_class_time` and `detect_conflicts` are in `Schedule`. The shared time-range regex and the 12-hour `strptime` conversion are in `TimeRanges`.
- **Stores.** `CourseManager`'s replace-by-CRN list logic and the `PlannedClassesDB` input checks are in `Stores`.

`Text` holds the Python string operations the code relies on:

- `strip`, `split`, `join`, `lower`, `upper`, `replace` and `in`;
- the `\d`, `\w` and `\s` classes.

`Wrappers` holds `Option` and `Result`, and `Sequences` holds an order-keeping subsequence predicate.

Each step-by-step loop of the source is a method proved against a specification function:

- the prefix-merging and filtering loops of `normalize_name`;
- the single pass over the cells;
- the row walk and the de-duplication loop;
- the retry loop;
- the nested conflict loops.

The properties are then proved about those functions. `CourseManager` is a class whose `stored` field stands for the JSON file. `None` there means the file is missing or unreadable, which `load_courses` reads as the empty list.

Python's falsy `""` and `None` are treated alike wherever the source only tests truthiness. In the extractor, a variable that is still `""` is unset.

A quirk of `normalize_name` is modelled as written. `re.findall(r'[A-Z][^A-Z]*')` drops a lower-case run before the first capital. So `"rodericMcKnight"` normalises to `["mcknight"]`, while the comment at `scraper_module.py:72` expects `["roderic", "McKnight"]`. `Names.LeadingLowercaseDropped` states this.

## Model

| member | source | states |
|---|---|---|
| Names.Normalize | scraper_module.py:97-109 | every token returned is lower-case, holds no '.', and is at least two characters long |
| Names.NormalizeName | scraper_module.py:25-109 | the step-by-step procedure (parentheses, commas, glued initials, split, capital split with prefix merging, filter) returns Normalize(name), all tokens well formed |
| Names.MergePrefixLoop | scraper_module.py:57-69 | the while loop merging a special prefix with the piece after it computes MergePrefixes |
| Names.FilterTokens | scraper_module.py:97-107 | the filtering loop keeps exactly the cleaned parts longer than one character, in order |
| Names.KeepTokensMembers | scraper_module.py:97-107 | a token is kept iff it is longer than one character and is the cleaned form of some part (single letters dropped at any position) |
| Names.CapitalPiecesOfConcat | scraper_module.py:49-51 | findall of capital-led pieces splits a concatenation of such pieces back into them |
| Names.MergePrefixesConcat | scraper_module.py:57-69 | merging prefixes regroups pieces without changing the text they spell |
| Names.LowerUpperRetryNeverMerges | scraper_module.py:70-93 | in the lower-to-upper retry the rest always has a single capital piece, so the result is [first, rest] |
| Names.LeadingLowercaseDropped | scraper_module.py:51-69 | a lower-case run before a part with two or more capitals is dropped by the capital split |
| Names.NormalizeFirstLast | scraper_module.py:40-101 | two plain words normalise to their lower-case forms |
| Names.NormalizeMiddleInitial | scraper_module.py:97-104 | "First M. Last" normalises to [first, last] |
| Names.NormalizeMiddleLetter | scraper_module.py:102-104 | a one-letter middle name is dropped |
| Names.NormalizeGluedInitial | scraper_module.py:36-37 | "First N.Last" is split at the glued initial and normalises to [first, last] |
| Names.NormalizeDropsAside | scraper_module.py:32-33 | a parenthesised aside is removed: "A (x)B" normalises like "A B" |
| Names.NormalizeGlued | scraper_module.py:42-53 | two glued capitalised words are split apart |
| Names.NormalizeGluedPrefix | scraper_module.py:53-69 | a surname prefix (Mc, Mac, ...) is merged with the piece after it |
| Names.NormalizeExamples | scraper_module.py:27-51 | the worked examples: "Roderic (Rick)Taylor", "RodericTaylor", "Christopher N.Bradley", "MorganMcKnight" |
| Names.MatchStrictOuterPair | scraper_module.py:127-161 | two names match iff both give at least two tokens and their first and last tokens agree directly or crosswise |
| Names.MatchStrictSymmetric | scraper_module.py:147-159 | matching does not depend on which name is searched |
| Names.MatchStrictReflexive | scraper_module.py:131-152 | a name matches itself iff it normalises to at least two tokens |
| Names.MatchStrictOuterOnly | scraper_module.py:138-159 | only the outer tokens are compared |
| Names.ClareMatches | scraper_module.py:118-119 | "Clare Nguyen" matches "Clare M. Nguyen" and itself |
| Names.ClareJohn | scraper_module.py:124 | "Clare Nguyen" does not match "John Nguyen" |
| Names.ClareSmithMismatch | scraper_module.py:125 | "Clare Nguyen" does not match "Clare Smith" |
| Names.RodericMatches | scraper_module.py:120-121 | "Roderic Taylor" matches "Roderic (Rick)Taylor" and "RodericTaylor" |
| Names.ChristopherGluedMatch | scraper_module.py:122 | "Christopher Bradley" matches "Christopher N.Bradley" |
| Names.ChristopherSpacedMatch | scraper_module.py:123 | "Christopher Bradley" matches "Christopher N Bradley" |
| TimeRanges.SearchFrom | scraper_module.py:17 | the match found is the leftmost start at or after k where the time-range pattern matches; None means no later start matches |
| TimeRanges.RangeAt | models.py:52 | a match found at i starts at i and its two clocks are well placed in the string |
| TimeRanges.StartGroup | models.py:56 | the first group is a whole clock that strip() leaves unchanged |
| TimeRanges.EndGroup | models.py:57 | the second group is a whole clock that strip() leaves unchanged |
| TimeRanges.StrptimeMinutes | models.py:61-65 | a time strptime accepts is below 1440 minutes |
| TimeRanges.StrptimeOnClock | models.py:61-65 | strptime('%I:%M %p') accepts a matched clock iff hour 1-12, minute 0-59 and whitespace before AM/PM, reading 12 AM as 0 and 12 PM as 720 |
| TimeRanges.CompactMeridiemRefused | models.py:61-62 | a clock without whitespace before AM/PM ("8:30AM") is matched by the range pattern but refused by strptime |
| TimeRanges.FormatClockRoundTrip | models.py:61-65 | every minute of the day printed as "HH:MM AM/PM" is a clock that strptime reads back to the same minute |
| Schedule.KeepDays | models.py:47 | the kept characters are day letters and no more than the input |
| Schedule.KeepDaysStrip | models.py:47 | stripping the day run does not change the days kept |
| Schedule.DayNames | models.py:69 | one name per day letter, DAY_MAP applied position by position |
| Schedule.ReadRange | models.py:56-75 | a result holds the given days, their names, minutes in 0..1439 and duration end - start |
| Schedule.ParseClassTime | models.py:25-77 | a result is well formed: day letters with their names, minutes in 0..1439, duration end - start (possibly not positive) |
| Schedule.ParseClassTimeMeaning | models.py:39-77 | success iff not "TBA", a day letter in the leading day run, a time range, and both clocks readable; then the days are the leading day letters in order and the minutes are the clocks' 12-hour values |
| Schedule.ReadRangeMeaning | models.py:56-75 | reading the matched range succeeds iff both clocks are valid 12-hour times, and then keeps both clocks and their minute values |
| Schedule.ParseClassTimeOf | models.py:39-77 | an input with leading day letters, a time range and two valid clocks parses to those days, their names, both clocks' minutes and their difference |
| Schedule.ParseClassTimeNone | models.py:39-54 | "" and "TBA", no leading day letter, no time range, or an unreadable clock each give None |
| Schedule.ParseClassTimeExample | models.py:29-37 | "M W 08:30 AM-10:45 AM" gives days [M, W], Monday and Wednesday, 510, 645, 135 |
| Schedule.SharedDaysNonEmpty | models.py:100-102 | the intersection of the day sets is non-empty iff some day of the first is a day of the second |
| Schedule.DetectConflicts | models.py:80-122 | the nested loops return one record per conflicting pair, in the order of ConflictPairs |
| Schedule.ConflictAtMeaning | models.py:96-105 | two sections with time data conflict iff their day sets intersect and start1 < end2 and end1 > start2 |
| Schedule.ConflictPairsMembers | models.py:88-105 | (i, j) is reported iff i < j, both have time data, they share a day, and start1 < end2 and end1 > start2 |
| Schedule.ConflictPairsSorted | models.py:88-92 | reported pairs are ordered by i, then j |
| Schedule.RecordsAt | models.py:106-120 | the k-th record names the two sections of the k-th pair, their shared days and their time spans |
| Schedule.UntimedNeverConflicts | models.py:89-94 | a section without time data appears in no conflict |
| Schedule.BackToBackNoOverlap | models.py:104-105 | intervals that only touch (end1 = start2) do not overlap |
| Schedule.DisjointDaysNoOverlap | models.py:100-102 | sections with no common day do not conflict |
| Schedule.OverlapsSymmetric | models.py:104-105 | the overlap test is symmetric |
| Schedule.TwoSectionsConflict | models.py:80-122 | two sections whose times overlap give exactly the pair (0, 1) and one conflict record for it |
| Schedule.MorningOverlapDays | models.py:96-105 | M W 8:30-10:45 and M W 10:30-11:40 overlap, and their shared days are exactly {M, W} |
| Schedule.MorningConflictExample | models.py:80-122 | two sections meeting M W at 510-645 and 630-700 minutes give one record, for days {M, W}, naming the first and then the second section |
| Listings.CrnFrom | scraper_module.py:16 | the result is the leftmost standalone five-digit token at or after k; None means there is none |
| Listings.CrnOf | scraper_module.py:370-373 | a cell's CRN is unset or exactly five digits |
| Listings.CrnOfMeaning | scraper_module.py:370-373 | the CRN is unset iff the text holds no standalone five-digit token, and is otherwise the leftmost one |
| Listings.SpaceOut | scraper_module.py:382-383 | joining n letters with spaces gives 2n - 1 characters |
| Listings.KeepDaysSpaceOut | scraper_module.py:380-383 | keeping the day letters of spaced-out day letters gives them back |
| Listings.DaysOfMeaning | scraper_module.py:375-383 | a cell's days are its span's day letters ('·' removed) spaced out, and are unset iff the span holds no day letter |
| Listings.ProfessorOf | scraper_module.py:393-409 | with an anchor, the professor is the anchor's text; without one, it is the cell text exactly when the text is non-empty, the CRN is known, the text holds neither the CRN nor the course code, and it fits a name pattern or looks like a name, and is empty otherwise |
| Listings.ExtractCourseFromRow | scraper_module.py:345-439 | the single pass over the cells returns RowListing: the first CRN, days, time and professor, with defaults, and nothing without a CRN |
| Listings.FirstCrnPrefix | scraper_module.py:368-373 | the CRN is unset iff no cell yields one, and otherwise is the first yielding cell's |
| Listings.FirstDaysPrefix | scraper_module.py:375-383 | the days are unset iff no cell yields any, and otherwise are the first yielding cell's |
| Listings.FirstTimePrefix | scraper_module.py:385-391 | the time is unset iff no cell yields one, and otherwise is the first yielding cell's |
| Listings.FirstProfessorPrefix | scraper_module.py:392-409 | the professor is unset iff no cell yields one (each judged with the CRN known at that cell), and otherwise is the first yielding cell's |
| Listings.FormatMeaning | scraper_module.py:418-427 | Hybrid iff marked or mentioned; Online iff not hybrid, mentions online and says so outright or not on-campus; In-Person iff not hybrid, not outright online, mentions on-campus; unset otherwise |
| Listings.RowListingMeaning | scraper_module.py:411-439 | None iff no cell holds a CRN; otherwise course = code, the first CRN, the first professor a cell yields or "TBA" exactly when none does, "TBA" time when no cell has one, "days time" when both are set, the time alone when no cell gives days, the format found in the lower-cased row text by its priority order with "Unknown" as the default, and professor, time and format never empty |
| Listings.RowListingCrn | scraper_module.py:368-373 | a listing exists iff some cell yields a CRN; it then carries the course code and the first yielding cell's five-digit CRN |
| Listings.RowListingProfessor | scraper_module.py:392-409 | when some cell yields a professor, the listing's is the first cell's that does; "TBA" when no cell yields one; never empty |
| Listings.RowListingTime | scraper_module.py:411-416 | the class time is "days time" when both are found, the time alone without days, "TBA" when no cell yields a time, and never empty |
| Listings.RowListingFormat | scraper_module.py:418-437 | the format is the priority-order format of the lower-cased row text, "Unknown" when none applies; one of four values |
| Listings.ClassTimeDaysReadBack | scraper_module.py:411-416 | the class time built from day letters and a time starting with a digit yields the same day letters to parse_class_time's leading day run |
| Dedup.CollectRecords | scraper_module.py:309-320 | the row walk collects the records of the rows that have cells and mention the course code, in row order |
| Dedup.PresentMembers | scraper_module.py:318-320 | a record is appended exactly when some row's extractor answer holds it |
| Dedup.RecordsMeaning | scraper_module.py:313-320 | a record is collected iff it is the extractor's record of some row that has cells and mentions the course code |
| Dedup.DedupByCrn | scraper_module.py:334-340 | the loop keeps a record iff its CRN is "N/A" or was not seen before, with seen_crns the CRNs of all earlier records |
| Dedup.ParseCourseInfo | scraper_module.py:309-340 | the records returned are the de-duplicated records of the table rows |
| Dedup.CrnsBeforeMembers | scraper_module.py:335-338 | seen_crns holds exactly the CRNs of the earlier records |
| Dedup.KeptMeaning | scraper_module.py:337 | a record is kept iff its CRN is "N/A" or no earlier record has its CRN |
| Dedup.DedupSameCrns | scraper_module.py:334-340 | the CRNs of the output are exactly the CRNs of the input |
| Dedup.DedupUnique | scraper_module.py:334-340 | no two output records share a CRN other than "N/A" |
| Dedup.DedupSubsequence | scraper_module.py:334-340 | the output is an order-preserving subsequence of the input |
| Dedup.DedupKeeps | scraper_module.py:336-339 | every "N/A" record and the first record of every CRN is kept |
| CourseInput.ParseCourseInput | scraper_module.py:696-718 | on success the department is one word and the course code is non-empty |
| CourseInput.ParseCourseInputNone | scraper_module.py:705-711 | the input is refused iff it has fewer than two whitespace-separated words |
| CourseInput.ParseCourseInputRoundTrip | scraper_module.py:713-718 | "DEPT CODE WORDS" parses back to the department and the code words joined by single spaces |
| CourseInput.ParseCourseInputIdempotent | scraper_module.py:705-718 | printing a parsed pair as "DEPT CODE" and parsing it again gives the same pair |
| CourseInput.ParseCourseInputOneWord | scraper_module.py:710-711 | a single word is refused |
| CourseInput.WordsOfStrip | scraper_module.py:705-708 | split() ignores the whitespace strip() removes |
| CourseInput.WordsOfUpper | scraper_module.py:705-708 | the words of the upper-cased text are the text's words, each upper-cased |
| CourseInput.ParseCourseInputParts | scraper_module.py:696-718 | for every input: refused iff fewer than two words; otherwise the department is the first word upper-cased and the code is the remaining words upper-cased, joined by single spaces |
| Fetch.QueryUrl | scraper_module.py:209 | the URL is the listings URL followed by the department and ending with the term |
| Fetch.CheckReply | scraper_module.py:213-238 | an attempt succeeds only on status 200 with at least 100 characters, and then gives the page text |
| Fetch.Backoff | scraper_module.py:247-250 | the j-th wait is 2 * (j + 1) seconds |
| Fetch.BackoffTotal | scraper_module.py:247-250 | n waits take n * (n + 1) seconds |
| Fetch.GetListings | scraper_module.py:198-253 | at most max_retries attempts; success iff an attempt passes the checks, with no attempt after it; waits only between attempts; on failure every attempt failed, and the error carries max_retries and the last attempt's error |
| Stores.CourseManager.constructor | models.py:128-132 | the manager starts from the stored file contents |
| Stores.CourseManager.GetCourses | models.py:163-165 | the saved list, empty when the file is missing or unreadable |
| Stores.CourseManager.AddCourse | models.py:167-177 | the saved list becomes Added(old list, course) |
| Stores.CourseManager.RemoveCourse | models.py:179-183 | the saved list becomes the old list without the CRN |
| Stores.CourseManager.ClearCourses | models.py:185-187 | the saved list becomes empty |
| Stores.WithoutCrnMembers | models.py:181-182 | a section survives removal iff it was saved and does not hold the CRN |
| Stores.WithoutCrnSubsequence | models.py:181-182 | removal keeps the other sections in their order |
| Stores.WithoutCrnIdempotent | models.py:179-183 | removing a CRN twice is removing it once |
| Stores.WithoutCrnUnique | models.py:179-183 | removal keeps CRNs unique |
| Stores.AddedMeaning | models.py:167-177 | the added section is last, no other section holds its non-empty CRN, every section with another CRN is kept in order, and unique CRNs stay unique |
| Stores.RemoveAfterAdd | models.py:167-183 | adding a section and removing its CRN is removing the CRN |
| Stores.ValidateClassName | models.py:222-232 | accepted iff the stripped name has 1 to 100 characters, all letters, digits, whitespace, '-' or '.'; the value is the stripped name; the error message says which check failed, length first |
| Stores.SanitizeNotes | models.py:234-241 | accepted iff the stripped notes have at most 500 characters; the value is the stripped notes |
| Stores.ValidateClassNameIdempotent | models.py:222-232 | a validated name validates again to itself |
| Stores.SanitizeNotesIdempotent | models.py:234-241 | sanitized notes sanitize again to themselves |
| Stores.BlankNameRefused | models.py:228-231 | a name of blanks is refused with the invalid-characters message |

## Left out

- HTTP, Cloudflare handling and `time.sleep`. The server's replies are a function of the URL and the attempt number, and the sleeps are recorded as a sequence of waits.
- The exception text `Failed to fetch listings after … attempts: …` is not modelled. `FetchError` carries its two parts as data.
- The `<title>` lookup is not modelled. The parsed title is given as part of the reply.
- BeautifulSoup queries are not modelled:
  - cells are given as their stripped text, the text of a `/directory/user` anchor if the cell has one, and the text of a `days` span if it has one;
  - a row says whether it holds a `skittle…hybrid` span;
  - the rows of all tables come as one sequence, in document order.
- The fallback search of `parse_course_info` when no table is found (`scraper_module.py:291-332`) is not modelled. Neither are `_extract_course_from_element` and the debug HTML dump, because they are free-text heuristics and file I/O.
- Professor ratings, rating-based sorting, `app.py`, `run.py` and the interactive CLI are not modelled. They are network scraping, floating point and console I/O.
- JSON reading and writing in `CourseManager` is not modelled:
  - the file is the `stored` field;
  - a failed save (an `IOError` that is only printed) is not modelled;
  - `last_updated` from `datetime.now()` is not modelled;
  - a saved section's fields other than the CRN are strings;
  - a non-string `crn` value in the JSON is not represented.
- SQLite, `html.escape` and the other `PlannedClassesDB` methods are not modelled, because they are foreign library calls.
- Case mapping, `isupper`, `\d` and `\w` are modelled on ASCII. Python applies them to all of Unicode. So the word boundaries `\b` around a CRN are judged on ASCII: after a non-ASCII letter, as in "é12345", five digits count as a CRN in the model but not in Python. Whitespace (`\s`, `split`, `strip`) is Python's full whitespace set.
- Stores.NameChar covers the characters that `re.IGNORECASE` adds to `[A-Z]`:
  - 'İ', 'ı', 'ſ' and the Kelvin sign are included;
  - other non-ASCII letters and digits are not.
- Listings.ProfessorOf: the `word[0].isupper()` test accepts only ASCII capitals.
- The `conflicting_days` list of a conflict is modelled as a set. `list(set(...))` has no specified order.
