/**
 * The row rules of the listings parser (scraper_module.py: _extract_course_from_row and the
 * CRN de-duplication in parse_course_info). The HTML table is abstracted to a sequence of
 * cells: each cell has its stripped text, the text of a directory anchor if it holds one and
 * the text of a "days" span if it holds one; the row also says whether it holds a hybrid
 * "skittle" span.
 *
 * The extractor keeps four variables that start unset and are each set by the first cell
 * that yields a truthy value for them. Python treats None and "" alike there, so the model
 * keeps each variable as a string in which "" means unset.
 */
module Listings {
  import opened Text
  import opened Wrappers
  import opened TimeRanges
  import opened Schedule

  /** One table cell, as far as the extractor looks at it. */
  datatype Cell = Cell(text: string, directoryLink: Option<string>, daysSpan: Option<string>)

  /** The dictionary _extract_course_from_row returns. */
  datatype Listing = Listing(course: string, crn: string, professor: string, classTime: string, format: string)

  // ---------------------------------------------------------------------------------
  // CRN_PATTERN = \b(\d{5})\b
  // ---------------------------------------------------------------------------------

  /** Five digits start at i, with no word character right before or right after them. */
  predicate CrnAt(s: string, i: nat) {
    && i + 5 <= |s|
    && (forall k :: i <= k < i + 5 ==> IsDigit(s[k]))
    && (i == 0 || !IsWordChar(s[i - 1]))
    && (i + 5 == |s| || !IsWordChar(s[i + 5]))
  }

  /** re.search from index k: the leftmost standalone five-digit token at or after k. */
  function CrnFrom(s: string, k: nat): (r: Option<nat>)
    ensures r.Some? ==> k <= r.value && CrnAt(s, r.value)
    ensures r.Some? ==> forall i :: k <= i < r.value ==> !CrnAt(s, i)
    ensures r.None? ==> forall i :: k <= i ==> !CrnAt(s, i)
    decreases |s| - k
  {
    if k + 5 > |s| then None
    else if CrnAt(s, k) then Some(k)
    else CrnFrom(s, k + 1)
  }

  /** The CRN a cell text yields, or "" when it holds no standalone five-digit token. */
  function CrnOf(text: string): (crn: string)
    ensures crn == "" || (|crn| == 5 && forall k :: 0 <= k < 5 ==> IsDigit(crn[k]))
  {
    match CrnFrom(text, 0)
    case None => ""
    case Some(i) => text[i..i + 5]
  }

  lemma CrnOfMeaning(text: string)
    ensures CrnOf(text) == "" <==> forall i :: !CrnAt(text, i)
    ensures CrnOf(text) != "" ==>
      exists i: nat :: (CrnAt(text, i) && CrnOf(text) == text[i..i + 5] && forall j :: 0 <= j < i ==> !CrnAt(text, j))
  {
    if CrnOf(text) != "" {
      var i := CrnFrom(text, 0).value;
      assert CrnAt(text, i) && CrnOf(text) == text[i..i + 5];
    }
  }

  // ---------------------------------------------------------------------------------
  // Days, time and professor of one cell
  // ---------------------------------------------------------------------------------

  /** ' '.join(letters): the letters separated by single spaces. */
  function SpaceOut(letters: seq<char>): (s: string)
    ensures |s| == if letters == [] then 0 else 2 * |letters| - 1
  {
    if |letters| <= 1 then letters else [letters[0], ' '] + SpaceOut(letters[1..])
  }

  /** The days a cell yields: the day letters of its days span with '·' removed, spaced out. */
  function DaysOf(c: Cell): string {
    match c.daysSpan
    case None => ""
    case Some(t) =>
      var daysText := RemoveChar(t, '·');
      if daysText == [] then "" else SpaceOut(KeepDays(daysText))
  }

  /** The time a cell yields: the whole stripped text when it holds a time range, else "TBA" when it mentions TBA. */
  function TimeOf(text: string): string {
    if Search(text).Some? then Strip(text)
    else if Contains(Upper(text), "TBA") then "TBA"
    else ""
  }

  /** Length of the run of ASCII lower-case letters of s from index i on. */
  function LowerRunFrom(s: string, i: nat): (n: nat)
    requires i <= |s|
    ensures i + n <= |s|
    ensures forall k :: i <= k < i + n ==> IsLower(s[k])
    ensures i + n < |s| ==> !IsLower(s[i + n])
    decreases |s| - i
  {
    if i < |s| && IsLower(s[i]) then 1 + LowerRunFrom(s, i + 1) else 0
  }

  /** The end of the match of [A-Z][a-z]+ at i. [a-z]+ is followed by no lower-case letter, so it never gives back. */
  function CapWord(s: string, i: nat): (e: Option<nat>)
    requires i <= |s|
    ensures e.Some? ==> i + 2 <= e.value <= |s|
  {
    if i < |s| && IsUpper(s[i]) && LowerRunFrom(s, i + 1) >= 1 then Some(i + 1 + LowerRunFrom(s, i + 1)) else None
  }

  /** Where $ matches: the end, or just before a final newline. */
  predicate AtEnd(s: string, k: nat) {
    k == |s| || (k + 1 == |s| && s[k] == '\n')
  }

  /** NAME_PATTERN_FIRST_LAST: ^[A-Z][a-z]+\s+[A-Z][a-z]+$ */
  predicate FirstLastName(s: string) {
    match CapWord(s, 0)
    case None => false
    case Some(e1) =>
      var sp := SpaceRun(s, e1);
      sp > 0 &&
      match CapWord(s, e1 + sp)
      case None => false
      case Some(e2) => AtEnd(s, e2)
  }

  /** NAME_PATTERN_FIRST_M_LAST: ^[A-Z][a-z]+\s+[A-Z]\.\s+[A-Z][a-z]+$ */
  predicate FirstInitialLastName(s: string) {
    match CapWord(s, 0)
    case None => false
    case Some(e1) =>
      var j := e1 + SpaceRun(s, e1);
      j > e1 && j + 2 <= |s| && IsUpper(s[j]) && s[j + 1] == '.' &&
      var sp := SpaceRun(s, j + 2);
      sp > 0 &&
      match CapWord(s, j + 2 + sp)
      case None => false
      case Some(e3) => AtEnd(s, e3)
  }

  /** ([A-Z][a-z]+)? after \s+ at the end: the optional second given name of NAME_PATTERN_LAST_FIRST, then $. */
  predicate GivenNamesEnd(s: string, e: nat)
    requires e <= |s|
  {
    AtEnd(s, e) ||
    (var sp := SpaceRun(s, e);
     sp > 0 &&
     match CapWord(s, e + sp)
     case None => false
     case Some(e2) => AtEnd(s, e2))
  }

  /** NAME_PATTERN_LAST_FIRST: ^([A-Z][a-z]+(?:-[A-Z][a-z]+)?),\s+([A-Z][a-z]+(?:\s+[A-Z][a-z]+)?)$ */
  predicate LastFirstName(s: string) {
    match CapWord(s, 0)
    case None => false
    case Some(e1) =>
      var surname := if e1 < |s| && s[e1] == '-' then CapWord(s, e1 + 1) else Some(e1);
      match surname
      case None => false
      case Some(e2) =>
        e2 < |s| && s[e2] == ',' &&
        var sp := SpaceRun(s, e2 + 1);
        sp > 0 &&
        match CapWord(s, e2 + 1 + sp)
        case None => false
        case Some(e3) => GivenNamesEnd(s, e3)
  }

  /** EXCLUDE_TERMS */
  const ExcludeTerms: seq<string> :=
    ["view", "footnote", "math", "calculus", "class", "meets", "campus", "online", "hybrid",
     "tba", "tbd", "am", "pm", "open", "wl"]

  /** Some term of terms occurs in s. */
  predicate AnyContained(s: string, terms: seq<string>) {
    terms != [] && (Contains(s, terms[0]) || AnyContained(s, terms[1..]))
  }

  /** re.search(r'\d', s) */
  predicate HasDigit(s: string) {
    exists i :: 0 <= i < |s| && IsDigit(s[i])
  }

  /** Every word starts with an upper-case letter. */
  predicate AllCapitalised(ws: seq<string>) {
    forall k :: 0 <= k < |ws| ==> ws[k] != [] && IsUpper(ws[k][0])
  }

  /** Two to four capitalised words, none of the excluded terms, no digit. */
  predicate LooksLikeName(text: string) {
    var ws := Words(text);
    2 <= |ws| <= 4 && AllCapitalised(ws) && !AnyContained(Lower(text), ExcludeTerms) && !HasDigit(text)
  }

  /**
   * The professor a cell yields once the CRN known so far is crn: the directory anchor's
   * text when there is an anchor; otherwise the text itself when the CRN is known, the
   * text contains neither the CRN nor the course code and looks like a name.
   */
  function ProfessorOf(c: Cell, crn: string, courseCode: string): (p: string)
    ensures c.directoryLink.Some? ==> p == c.directoryLink.value
    ensures c.directoryLink.None? && p != "" ==>
      && p == c.text && crn != "" && !Contains(c.text, crn) && !Contains(Upper(c.text), Upper(courseCode))
      && (FirstLastName(p) || FirstInitialLastName(p) || LastFirstName(p) || LooksLikeName(p))
    ensures (c.directoryLink.None? && c.text != "" && crn != "" && !Contains(c.text, crn) && !Contains(Upper(c.text), Upper(courseCode))
      && (FirstLastName(c.text) || FirstInitialLastName(c.text) || LastFirstName(c.text) || LooksLikeName(c.text))) ==> p == c.text
  {
    if c.directoryLink.Some? then c.directoryLink.value
    else if c.text != "" && crn != "" && !Contains(c.text, crn) && !Contains(Upper(c.text), Upper(courseCode)) then
      if FirstLastName(c.text) || FirstInitialLastName(c.text) || LastFirstName(c.text) then c.text
      else if LooksLikeName(c.text) then c.text
      else ""
    else ""
  }

  // ---------------------------------------------------------------------------------
  // First-match-wins over the cells
  // ---------------------------------------------------------------------------------

  /** The CRN of the first cell that yields one. */
  function FirstCrn(cells: seq<Cell>): string {
    if cells == [] then ""
    else if CrnOf(cells[0].text) != "" then CrnOf(cells[0].text)
    else FirstCrn(cells[1..])
  }

  /** The days of the first cell that yields any. */
  function FirstDays(cells: seq<Cell>): string {
    if cells == [] then ""
    else if DaysOf(cells[0]) != "" then DaysOf(cells[0])
    else FirstDays(cells[1..])
  }

  /** The time of the first cell that yields one. */
  function FirstTime(cells: seq<Cell>): string {
    if cells == [] then ""
    else if TimeOf(cells[0].text) != "" then TimeOf(cells[0].text)
    else FirstTime(cells[1..])
  }

  /** known if it is set, else the first CRN of cells. */
  function KnownCrn(known: string, cells: seq<Cell>): string {
    if known != "" then known else FirstCrn(cells)
  }

  /**
   * The professor of the first cell that yields one, where each cell is judged with the CRN
   * known once that cell's own CRN has been looked at; known is the CRN found before cells.
   */
  function ProfessorFrom(cells: seq<Cell>, courseCode: string, known: string): string {
    if cells == [] then ""
    else
      var crn := KnownCrn(known, cells[..1]);
      var p := ProfessorOf(cells[0], crn, courseCode);
      if p != "" then p else ProfessorFrom(cells[1..], courseCode, crn)
  }

  function FirstProfessor(cells: seq<Cell>, courseCode: string): string {
    ProfessorFrom(cells, courseCode, "")
  }

  /** f"{days} {time_str}" when both are set, time_str alone when only it is. */
  function ClassTime(days: string, time: string): string {
    if time == "" then "" else if days != "" then days + " " + time else time
  }

  /** value or default */
  function OrElse(value: string, default: string): string {
    if value != "" then value else default
  }

  /** ' '.join(cell_texts) */
  function RowText(cells: seq<Cell>): string {
    Join(seq(|cells|, k requires 0 <= k < |cells| => cells[k].text), " ")
  }

  /** The online/in-person classification, in its priority order, on the lower-cased row text. */
  function Format(rowLower: string, hybridSpan: bool): string {
    if hybridSpan || Contains(rowLower, "hybrid") then "Hybrid"
    else if Contains(rowLower, "fully online") || (Contains(rowLower, "online class") && !Contains(rowLower, "hybrid")) then "Online"
    else if Contains(rowLower, "fully on-campus") || Contains(rowLower, "on-campus") then "In-Person"
    else if Contains(rowLower, "online") && !Contains(rowLower, "hybrid") then "Online"
    else ""
  }

  /** What _extract_course_from_row returns for a row. */
  function RowListing(courseCode: string, cells: seq<Cell>, hybridSpan: bool): Option<Listing> {
    var crn := FirstCrn(cells);
    if crn == "" then None
    else
      Some(Listing(courseCode, crn,
        OrElse(FirstProfessor(cells, courseCode), "TBA"),
        OrElse(ClassTime(FirstDays(cells), FirstTime(cells)), "TBA"),
        OrElse(Format(Lower(RowText(cells)), hybridSpan), "Unknown")))
  }

  // ---------------------------------------------------------------------------------
  // The single pass of _extract_course_from_row
  // ---------------------------------------------------------------------------------

  lemma {:induction false} FirstCrnSnoc(cells: seq<Cell>, c: Cell)
    ensures FirstCrn(cells + [c]) == if FirstCrn(cells) != "" then FirstCrn(cells) else CrnOf(c.text)
    decreases |cells|
  {
    if cells != [] {
      assert (cells + [c])[1..] == cells[1..] + [c];
      FirstCrnSnoc(cells[1..], c);
    }
  }

  lemma {:induction false} FirstDaysSnoc(cells: seq<Cell>, c: Cell)
    ensures FirstDays(cells + [c]) == if FirstDays(cells) != "" then FirstDays(cells) else DaysOf(c)
    decreases |cells|
  {
    if cells != [] {
      assert (cells + [c])[1..] == cells[1..] + [c];
      FirstDaysSnoc(cells[1..], c);
    }
  }

  lemma {:induction false} FirstTimeSnoc(cells: seq<Cell>, c: Cell)
    ensures FirstTime(cells + [c]) == if FirstTime(cells) != "" then FirstTime(cells) else TimeOf(c.text)
    decreases |cells|
  {
    if cells != [] {
      assert (cells + [c])[1..] == cells[1..] + [c];
      FirstTimeSnoc(cells[1..], c);
    }
  }

  lemma {:induction false} ProfessorFromSnoc(cells: seq<Cell>, c: Cell, courseCode: string, known: string)
    ensures ProfessorFrom(cells + [c], courseCode, known) ==
      var p := ProfessorFrom(cells, courseCode, known);
      if p != "" then p else ProfessorOf(c, KnownCrn(known, cells + [c]), courseCode)
    decreases |cells|
  {
    if cells == [] {
      assert [c][..1] == [c] && [c][1..] == [];
      assert cells + [c] == [c];
      assert FirstCrn([c]) == CrnOf(c.text);
    } else {
      var cs := cells + [c];
      assert cs[..1] == cells[..1];
      assert cs[1..] == cells[1..] + [c];
      var crn := KnownCrn(known, cells[..1]);
      ProfessorFromSnoc(cells[1..], c, courseCode, crn);
      assert KnownCrn(crn, cells[1..] + [c]) == KnownCrn(known, cs) by {
        if known == "" {
          assert cells[..1] == [cells[0]];
          assert FirstCrn([cells[0]]) == CrnOf(cells[0].text) by {
            assert [cells[0]][1..] == [];
          }
        }
      }
    }
  }

  /** What one more cell does to each of the four variables. */
  lemma ExtractStep(cells: seq<Cell>, i: nat, courseCode: string)
    requires i < |cells|
    ensures var c := cells[i];
      && FirstCrn(cells[..i + 1]) == OrElse(FirstCrn(cells[..i]), CrnOf(c.text))
      && FirstDays(cells[..i + 1]) == OrElse(FirstDays(cells[..i]), DaysOf(c))
      && FirstTime(cells[..i + 1]) == OrElse(FirstTime(cells[..i]), TimeOf(c.text))
      && FirstProfessor(cells[..i + 1], courseCode) ==
         OrElse(FirstProfessor(cells[..i], courseCode), ProfessorOf(c, FirstCrn(cells[..i + 1]), courseCode))
  {
    var c := cells[i];
    assert cells[..i + 1] == cells[..i] + [c];
    FirstCrnSnoc(cells[..i], c);
    FirstDaysSnoc(cells[..i], c);
    FirstTimeSnoc(cells[..i], c);
    ProfessorFromSnoc(cells[..i], c, courseCode, "");
  }

  /** _extract_course_from_row: one pass over the cells, then defaults and the emit rule. */
  method ExtractCourseFromRow(courseCode: string, cells: seq<Cell>, hybridSpan: bool) returns (r: Option<Listing>)
    ensures r == RowListing(courseCode, cells, hybridSpan)
  {
    var crn := "";
    var professor := "";
    var days := "";
    var timeStr := "";
    for i := 0 to |cells|
      invariant crn == FirstCrn(cells[..i])
      invariant days == FirstDays(cells[..i])
      invariant timeStr == FirstTime(cells[..i])
      invariant professor == FirstProfessor(cells[..i], courseCode)
    {
      var cell := cells[i];
      ExtractStep(cells, i, courseCode);
      if crn == "" {
        crn := CrnOf(cell.text);
      }
      if days == "" {
        days := DaysOf(cell);
      }
      if timeStr == "" {
        timeStr := TimeOf(cell.text);
      }
      if professor == "" {
        professor := ProfessorOf(cell, crn, courseCode);
      }
    }
    assert cells[..|cells|] == cells;
    var classTime := ClassTime(days, timeStr);
    var isOnline := Format(Lower(RowText(cells)), hybridSpan);
    if crn != "" {
      r := Some(Listing(courseCode, crn, OrElse(professor, "TBA"), OrElse(classTime, "TBA"), OrElse(isOnline, "Unknown")));
    } else {
      r := None;
    }
  }


  // ---------------------------------------------------------------------------------
  // What the pass finds, cell by cell
  // ---------------------------------------------------------------------------------

  /** The professor cell k yields, judged with the CRN known once cell k has been looked at. */
  function ProfessorAt(cells: seq<Cell>, k: nat, courseCode: string): string
    requires k < |cells|
  {
    ProfessorOf(cells[k], FirstCrn(cells[..k + 1]), courseCode)
  }

  /** v is unset exactly when vals[..n] are all unset, and is otherwise the first of them that is set. */
  predicate FirstSetAmong(vals: seq<string>, n: nat, v: string)
    requires n <= |vals|
  {
    && (v == "" <==> forall k :: 0 <= k < n ==> vals[k] == "")
    && (v != "" ==> exists k :: 0 <= k < n && v == vals[k] && forall j :: 0 <= j < k ==> vals[j] == "")
  }

  /** Looking at one more value keeps the first value found, or takes the new one if none was. */
  lemma FirstSetStep(vals: seq<string>, n: nat, prev: string, cur: string)
    requires 0 < n <= |vals| && FirstSetAmong(vals, n - 1, prev)
    requires cur == OrElse(prev, vals[n - 1])
    ensures FirstSetAmong(vals, n, cur)
  {
    if prev != "" {
      var k :| 0 <= k < n - 1 && prev == vals[k] && forall j :: 0 <= j < k ==> vals[j] == "";
      assert 0 <= k < n && cur == vals[k];
    } else if vals[n - 1] != "" {
      assert cur == vals[n - 1];
    }
  }

  /** What each cell yields on its own, for each of the four variables. */
  function Crns(cells: seq<Cell>): (vs: seq<string>)
    ensures |vs| == |cells| && forall k :: 0 <= k < |cells| ==> vs[k] == CrnOf(cells[k].text)
  {
    seq(|cells|, k requires 0 <= k < |cells| => CrnOf(cells[k].text))
  }

  function DaysList(cells: seq<Cell>): (vs: seq<string>)
    ensures |vs| == |cells| && forall k :: 0 <= k < |cells| ==> vs[k] == DaysOf(cells[k])
  {
    seq(|cells|, k requires 0 <= k < |cells| => DaysOf(cells[k]))
  }

  function Times(cells: seq<Cell>): (vs: seq<string>)
    ensures |vs| == |cells| && forall k :: 0 <= k < |cells| ==> vs[k] == TimeOf(cells[k].text)
  {
    seq(|cells|, k requires 0 <= k < |cells| => TimeOf(cells[k].text))
  }

  function Professors(cells: seq<Cell>, courseCode: string): (vs: seq<string>)
    ensures |vs| == |cells| && forall k :: 0 <= k < |cells| ==> vs[k] == ProfessorAt(cells, k, courseCode)
  {
    seq(|cells|, k requires 0 <= k < |cells| => ProfessorAt(cells, k, courseCode))
  }

  /** One more cell, for the professor: the per-cell answer of that cell is the one looked at. */
  lemma ProfessorStep(cells: seq<Cell>, i: nat, courseCode: string)
    requires i < |cells|
    ensures FirstProfessor(cells[..i + 1], courseCode) ==
      OrElse(FirstProfessor(cells[..i], courseCode), Professors(cells, courseCode)[i])
  {
    ExtractStep(cells, i, courseCode);
  }

  /** The CRN of a prefix is unset exactly when no cell of it yields one, and is otherwise the first cell's that does. */
  lemma {:induction false} FirstCrnPrefix(cells: seq<Cell>, n: nat)
    requires n <= |cells|
    ensures FirstSetAmong(Crns(cells), n, FirstCrn(cells[..n]))
  {
    if n == 0 {
      assert cells[..0] == [];
    } else {
      FirstCrnPrefix(cells, n - 1);
      ExtractStep(cells, n - 1, "");
      FirstSetStep(Crns(cells), n, FirstCrn(cells[..n - 1]), FirstCrn(cells[..n]));
    }
  }

  /** The days of a prefix are unset exactly when no cell of it yields any, and are otherwise the first cell's that does. */
  lemma {:induction false} FirstDaysPrefix(cells: seq<Cell>, n: nat)
    requires n <= |cells|
    ensures FirstSetAmong(DaysList(cells), n, FirstDays(cells[..n]))
  {
    if n == 0 {
      assert cells[..0] == [];
    } else {
      FirstDaysPrefix(cells, n - 1);
      ExtractStep(cells, n - 1, "");
      FirstSetStep(DaysList(cells), n, FirstDays(cells[..n - 1]), FirstDays(cells[..n]));
    }
  }

  /** The time of a prefix is unset exactly when no cell of it yields one, and is otherwise the first cell's that does. */
  lemma {:induction false} FirstTimePrefix(cells: seq<Cell>, n: nat)
    requires n <= |cells|
    ensures FirstSetAmong(Times(cells), n, FirstTime(cells[..n]))
  {
    if n == 0 {
      assert cells[..0] == [];
    } else {
      FirstTimePrefix(cells, n - 1);
      ExtractStep(cells, n - 1, "");
      FirstSetStep(Times(cells), n, FirstTime(cells[..n - 1]), FirstTime(cells[..n]));
    }
  }

  /** The professor of a prefix is unset exactly when no cell of it yields one, and is otherwise the first cell's that does. */
  lemma {:induction false} FirstProfessorPrefix(cells: seq<Cell>, n: nat, courseCode: string)
    requires n <= |cells|
    ensures FirstSetAmong(Professors(cells, courseCode), n, FirstProfessor(cells[..n], courseCode))
  {
    if n == 0 {
      assert cells[..0] == [];
    } else {
      FirstProfessorPrefix(cells, n - 1, courseCode);
      ProfessorStep(cells, n - 1, courseCode);
      FirstSetStep(Professors(cells, courseCode), n, FirstProfessor(cells[..n - 1], courseCode), FirstProfessor(cells[..n], courseCode));
    }
  }

  // ---------------------------------------------------------------------------------
  // Days, format and the returned record
  // ---------------------------------------------------------------------------------

  /** Removing a character that is not a day letter keeps the day letters. */
  lemma {:induction false} KeepDaysRemoveChar(s: string, c: char)
    requires c !in DayLetters
    ensures KeepDays(RemoveChar(s, c)) == KeepDays(s)
    decreases |s|
  {
    if s != [] {
      KeepDaysRemoveChar(s[1..], c);
      if s[0] != c {
        assert ([s[0]] + RemoveChar(s[1..], c))[1..] == RemoveChar(s[1..], c);
      }
    }
  }

  /** Spacing out day letters and keeping the day letters again gives them back. */
  lemma {:induction false} KeepDaysSpaceOut(letters: seq<char>)
    requires forall k :: 0 <= k < |letters| ==> letters[k] in DayLetters
    ensures KeepDays(SpaceOut(letters)) == letters
    decreases |letters|
  {
    if |letters| == 1 {
      assert KeepDays(letters) == [letters[0]] + KeepDays([]) by {
        assert letters[1..] == [];
      }
    } else if |letters| > 1 {
      var rest := SpaceOut(letters[1..]);
      KeepDaysConcat([letters[0], ' '], rest);
      assert KeepDays([letters[0], ' ']) == [letters[0]] by {
        assert [letters[0], ' '][1..] == [' '];
        assert KeepDays([' ']) == [] by {
          assert ' ' !in DayLetters;
          assert [' '][1..] == [];
        }
      }
      KeepDaysSpaceOut(letters[1..]);
    }
  }

  /** A cell's days are its span's day letters, spaced out, and are unset exactly when the span holds none. */
  lemma DaysOfMeaning(c: Cell)
    ensures c.daysSpan.None? ==> DaysOf(c) == ""
    ensures c.daysSpan.Some? ==> KeepDays(DaysOf(c)) == KeepDays(c.daysSpan.value)
    ensures c.daysSpan.Some? ==> (DaysOf(c) == "" <==> KeepDays(c.daysSpan.value) == [])
  {
    if c.daysSpan.Some? {
      var t := c.daysSpan.value;
      assert '·' !in DayLetters;
      KeepDaysRemoveChar(t, '·');
      var daysText := RemoveChar(t, '·');
      if daysText == [] {
        assert KeepDays(daysText) == [];
      } else {
        KeepDaysSpaceOut(KeepDays(daysText));
      }
    }
  }

  lemma FullyOnlineIsOnline(s: string)
    requires Contains(s, "fully online") || Contains(s, "online class")
    ensures Contains(s, "online")
  {
    if Contains(s, "fully online") {
      assert OccursAt("fully online", "online", 6);
      ContainsAt("fully online", "online", 6);
      ContainsTransitive(s, "fully online", "online");
    } else {
      assert OccursAt("online class", "online", 0);
      ContainsAt("online class", "online", 0);
      ContainsTransitive(s, "online class", "online");
    }
  }

  lemma FullyOnCampusIsOnCampus(s: string)
    requires Contains(s, "fully on-campus")
    ensures Contains(s, "on-campus")
  {
    assert OccursAt("fully on-campus", "on-campus", 6);
    ContainsAt("fully on-campus", "on-campus", 6);
    ContainsTransitive(s, "fully on-campus", "on-campus");
  }

  /**
   * The format in terms of what the row mentions: hybrid whenever it is marked or mentioned;
   * otherwise online when it mentions online and either says so outright or does not mention
   * on-campus; otherwise in person when it mentions on-campus; otherwise nothing.
   */
  lemma FormatMeaning(rowLower: string, hybridSpan: bool)
    ensures var f := Format(rowLower, hybridSpan);
      var hybrid := hybridSpan || Contains(rowLower, "hybrid");
      var outright := Contains(rowLower, "fully online") || Contains(rowLower, "online class");
      && (f == "Hybrid" <==> hybrid)
      && (f == "Online" <==> !hybrid && Contains(rowLower, "online") && (outright || !Contains(rowLower, "on-campus")))
      && (f == "In-Person" <==> !hybrid && !outright && Contains(rowLower, "on-campus"))
      && (f == "" <==> !hybrid && !Contains(rowLower, "online") && !Contains(rowLower, "on-campus"))
  {
    if Contains(rowLower, "fully online") || Contains(rowLower, "online class") {
      FullyOnlineIsOnline(rowLower);
    }
    if Contains(rowLower, "fully on-campus") {
      FullyOnCampusIsOnCampus(rowLower);
    }
  }

  /**
   * What the extractor returns for a row, cell by cell: nothing when no cell holds a CRN;
   * otherwise the course code, the first cell's CRN, the first professor found (or "TBA"),
   * the days and time joined, the time alone when no cell yields days, "TBA" as the time when
   * no cell yields one, and the format by its priority order with "Unknown" as the default.
   * Professor, class time and format are never empty.
   */
  lemma RowListingMeaning(courseCode: string, cells: seq<Cell>, hybridSpan: bool)
    ensures var r := RowListing(courseCode, cells, hybridSpan);
      && (r.None? <==> forall k :: 0 <= k < |cells| ==> CrnOf(cells[k].text) == "")
      && (r.Some? ==> r.value.course == courseCode && |r.value.crn| == 5)
      && (r.Some? ==> exists k :: (0 <= k < |cells| && r.value.crn == CrnOf(cells[k].text) &&
            forall j :: 0 <= j < k ==> CrnOf(cells[j].text) == ""))
      && (r.Some? ==> (r.value.professor == "TBA" ||
            exists k :: (0 <= k < |cells| && r.value.professor == ProfessorAt(cells, k, courseCode) && ProfessorAt(cells, k, courseCode) != "")))
      && (r.Some? && (forall k :: 0 <= k < |cells| ==> ProfessorAt(cells, k, courseCode) == "") ==> r.value.professor == "TBA")
      && (r.Some? && (exists k :: 0 <= k < |cells| && ProfessorAt(cells, k, courseCode) != "") ==>
            exists k :: (0 <= k < |cells| && r.value.professor == ProfessorAt(cells, k, courseCode) &&
              forall j :: 0 <= j < k ==> ProfessorAt(cells, j, courseCode) == ""))
      && (r.Some? && (forall k :: 0 <= k < |cells| ==> TimeOf(cells[k].text) == "") ==> r.value.classTime == "TBA")
      && (r.Some? && FirstDays(cells) != "" && FirstTime(cells) != "" ==>
            r.value.classTime == FirstDays(cells) + " " + FirstTime(cells))
      && (r.Some? && FirstDays(cells) == "" && FirstTime(cells) != "" ==> r.value.classTime == FirstTime(cells))
      && (r.Some? ==> r.value.professor != "" && r.value.classTime != "" && r.value.format != "")
      && (r.Some? ==> r.value.format in {"Hybrid", "Online", "In-Person", "Unknown"})
      && (r.Some? ==> r.value.format == OrElse(Format(Lower(RowText(cells)), hybridSpan), "Unknown"))
  {
    RowListingCrn(courseCode, cells, hybridSpan);
    RowListingProfessor(courseCode, cells, hybridSpan);
    RowListingTime(courseCode, cells, hybridSpan);
    RowListingFormat(courseCode, cells, hybridSpan);
  }

  /** A listing exists exactly when some cell holds a CRN, and carries the first such CRN. */
  lemma RowListingCrn(courseCode: string, cells: seq<Cell>, hybridSpan: bool)
    ensures var r := RowListing(courseCode, cells, hybridSpan);
      && (r.None? <==> forall k :: 0 <= k < |cells| ==> CrnOf(cells[k].text) == "")
      && (r.Some? ==> r.value.course == courseCode && |r.value.crn| == 5)
      && (r.Some? ==> exists k :: (0 <= k < |cells| && r.value.crn == CrnOf(cells[k].text) &&
            forall j :: 0 <= j < k ==> CrnOf(cells[j].text) == ""))
  {
    assert cells[..|cells|] == cells;
    FirstCrnPrefix(cells, |cells|);
  }

  /** The listing's professor is the first one a cell yields, or "TBA" exactly when none does. */
  lemma RowListingProfessor(courseCode: string, cells: seq<Cell>, hybridSpan: bool)
    ensures var r := RowListing(courseCode, cells, hybridSpan);
      && (r.Some? ==> (r.value.professor == "TBA" ||
            exists k :: (0 <= k < |cells| && r.value.professor == ProfessorAt(cells, k, courseCode) && ProfessorAt(cells, k, courseCode) != "")))
      && (r.Some? && (forall k :: 0 <= k < |cells| ==> ProfessorAt(cells, k, courseCode) == "") ==> r.value.professor == "TBA")
      && (r.Some? && (exists k :: 0 <= k < |cells| && ProfessorAt(cells, k, courseCode) != "") ==>
            exists k :: (0 <= k < |cells| && r.value.professor == ProfessorAt(cells, k, courseCode) &&
              forall j :: 0 <= j < k ==> ProfessorAt(cells, j, courseCode) == ""))
      && (r.Some? ==> r.value.professor != "")
  {
    assert cells[..|cells|] == cells;
    FirstProfessorPrefix(cells, |cells|, courseCode);
  }

  /** The listing's class time: days and time joined, the time alone without days, "TBA" without a time. */
  lemma RowListingTime(courseCode: string, cells: seq<Cell>, hybridSpan: bool)
    ensures var r := RowListing(courseCode, cells, hybridSpan);
      && (r.Some? && (forall k :: 0 <= k < |cells| ==> TimeOf(cells[k].text) == "") ==> r.value.classTime == "TBA")
      && (r.Some? && FirstDays(cells) != "" && FirstTime(cells) != "" ==>
            r.value.classTime == FirstDays(cells) + " " + FirstTime(cells))
      && (r.Some? && FirstDays(cells) == "" && FirstTime(cells) != "" ==> r.value.classTime == FirstTime(cells))
      && (r.Some? ==> r.value.classTime != "")
  {
    ClassTimeOrTba(FirstDays(cells), FirstTime(cells));
    if forall k :: 0 <= k < |cells| ==> TimeOf(cells[k].text) == "" {
      FirstTimeUnset(cells);
    }
  }

  /** The class time with its "TBA" default, by whether days and a time were found. */
  lemma ClassTimeOrTba(days: string, time: string)
    ensures var t := OrElse(ClassTime(days, time), "TBA");
      && t != ""
      && (time == "" ==> t == "TBA")
      && (days != "" && time != "" ==> t == days + " " + time)
      && (days == "" && time != "" ==> t == time)
  {
  }

  lemma {:induction false} FirstTimeUnset(cells: seq<Cell>)
    requires forall k :: 0 <= k < |cells| ==> TimeOf(cells[k].text) == ""
    ensures FirstTime(cells) == ""
    decreases |cells|
  {
    if cells != [] {
      assert forall k :: 0 <= k < |cells[1..]| ==> cells[1..][k] == cells[k + 1];
      FirstTimeUnset(cells[1..]);
    }
  }

  /** The listing's format follows the priority order on the lower-cased row text, "Unknown" by default. */
  lemma RowListingFormat(courseCode: string, cells: seq<Cell>, hybridSpan: bool)
    ensures var r := RowListing(courseCode, cells, hybridSpan);
      && (r.Some? ==> r.value.format == OrElse(Format(Lower(RowText(cells)), hybridSpan), "Unknown"))
      && (r.Some? ==> r.value.format in {"Hybrid", "Online", "In-Person", "Unknown"})
      && (r.Some? ==> r.value.format != "")
  {
  }

  lemma {:induction false} SpaceOutChars(letters: seq<char>)
    requires forall k :: 0 <= k < |letters| ==> letters[k] in DayLetters
    ensures forall k :: 0 <= k < |SpaceOut(letters)| ==> SpaceOut(letters)[k] in DayLetters || SpaceOut(letters)[k] == ' '
    decreases |letters|
  {
    if |letters| > 1 {
      SpaceOutChars(letters[1..]);
    }
  }

  lemma DayRunOfSpacedDays(letters: seq<char>, time: string)
    requires forall k :: 0 <= k < |letters| ==> letters[k] in DayLetters
    requires time != [] && IsDigit(time[0])
    ensures DayRun(SpaceOut(letters) + " " + time) == |SpaceOut(letters)| + 1
  {
    var days := SpaceOut(letters);
    var s := days + " " + time;
    SpaceOutChars(letters);
    forall k | 0 <= k < |days| + 1 ensures s[k] in DayLetters || IsSpace(s[k]) {
      if k < |days| {
        assert s[k] == days[k];
      } else {
        assert s[k] == ' ';
      }
    }
    assert s[|days| + 1] == time[0];
    DayRunExactly(s, |days| + 1);
  }

  /**
   * The class time the extractor builds from day letters and a time that starts with a digit
   * is read back by parse_class_time with the same day letters, in the same order.
   */
  lemma ClassTimeDaysReadBack(letters: seq<char>, time: string)
    requires letters != [] && forall k :: 0 <= k < |letters| ==> letters[k] in DayLetters
    requires time != [] && IsDigit(time[0])
    ensures LeadingDays(ClassTime(SpaceOut(letters), time)) == letters
  {
    var days := SpaceOut(letters);
    calc {
      LeadingDays(ClassTime(days, time));
      { assert |days| >= 1; }
      LeadingDays(days + " " + time);
      { LeadingSpacedDays(letters, time); }
      KeepDays(days + " ");
      { KeepDaysSpaceAfter(days); }
      KeepDays(days);
      { KeepDaysSpaceOut(letters); }
      letters;
    }
  }

  lemma LeadingSpacedDays(letters: seq<char>, time: string)
    requires forall k :: 0 <= k < |letters| ==> letters[k] in DayLetters
    requires time != [] && IsDigit(time[0])
    ensures LeadingDays(SpaceOut(letters) + " " + time) == KeepDays(SpaceOut(letters) + " ")
  {
    var days := SpaceOut(letters);
    DayRunOfSpacedDays(letters, time);
    assert (days + " " + time)[..|days| + 1] == days + " ";
  }

  lemma KeepDaysSpaceAfter(s: string)
    ensures KeepDays(s + " ") == KeepDays(s)
  {
    KeepDaysConcat(s, " ");
    assert KeepDays(" ") == [] by {
      assert ' ' !in DayLetters;
      assert " "[1..] == [];
    }
  }
}
