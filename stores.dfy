/**
 * The stores of models.py: CourseManager, which keeps the selected sections in a JSON file
 * and replaces a section by CRN when it is added again, and the input checks that
 * PlannedClassesDB applies before it writes a planned class.
 */
module Stores {
  import opened Text
  import opened Wrappers
  import opened Sequences

  /** A saved section: its CRN when the dictionary has a "crn" entry, and the other entries. */
  datatype SavedCourse = SavedCourse(crn: Option<string>, fields: map<string, string>)

  // ---------------------------------------------------------------------------------
  // CourseManager
  // ---------------------------------------------------------------------------------

  /** [c for c in courses if c.get('crn') != crn] */
  function WithoutCrn(courses: seq<SavedCourse>, crn: string): (r: seq<SavedCourse>)
    ensures |r| <= |courses|
  {
    if courses == [] then []
    else
      var rest := WithoutCrn(courses[..|courses| - 1], crn);
      var last := courses[|courses| - 1];
      if last.crn != Some(crn) then rest + [last] else rest
  }

  /** The list add_course saves: the old list without the new section's CRN, if it has a non-empty one, then the section. */
  function Added(courses: seq<SavedCourse>, course: SavedCourse): seq<SavedCourse> {
    (if course.crn.Some? && course.crn.value != "" then WithoutCrn(courses, course.crn.value) else courses) + [course]
  }

  /** No CRN is held by two saved sections. */
  predicate UniqueCrns(courses: seq<SavedCourse>) {
    forall i, j :: 0 <= i < j < |courses| && courses[i].crn.Some? ==> courses[i].crn != courses[j].crn
  }

  class CourseManager {
    /** The "courses" list of the data file, or None when the file is missing or cannot be read as JSON. */
    var stored: Option<seq<SavedCourse>>

    constructor(file: Option<seq<SavedCourse>>)
      ensures stored == file
    {
      stored := file;
    }

    /** load_courses: the saved list, or the empty list when there is none to read. */
    function Courses(): seq<SavedCourse>
      reads this
    {
      if stored.Some? then stored.value else []
    }

    /** get_courses */
    method GetCourses() returns (courses: seq<SavedCourse>)
      ensures courses == Courses()
      ensures stored.None? ==> courses == []
    {
      if stored.Some? {
        courses := stored.value;
      } else {
        courses := [];
      }
    }

    /** add_course: a section that is added again replaces the earlier copy, and goes last. */
    method AddCourse(course: SavedCourse)
      modifies this
      ensures stored == Some(Added(old(Courses()), course))
    {
      var courses := Courses();
      var crn := course.crn;
      if crn.Some? && crn.value != "" {
        courses := WithoutCrn(courses, crn.value);
      }
      courses := courses + [course];
      stored := Some(courses);
    }

    /** remove_course */
    method RemoveCourse(crn: string)
      modifies this
      ensures stored == Some(WithoutCrn(old(Courses()), crn))
    {
      var courses := Courses();
      courses := WithoutCrn(courses, crn);
      stored := Some(courses);
    }

    /** clear_courses */
    method ClearCourses()
      modifies this
      ensures stored == Some([])
      ensures Courses() == []
    {
      stored := Some([]);
    }
  }

  /** A section survives the filter exactly when it was there and does not hold the CRN. */
  lemma {:induction false} WithoutCrnMembers(courses: seq<SavedCourse>, crn: string, c: SavedCourse)
    ensures c in WithoutCrn(courses, crn) <==> c in courses && c.crn != Some(crn)
    decreases |courses|
  {
    if courses != [] {
      var init := courses[..|courses| - 1];
      WithoutCrnMembers(init, crn, c);
      assert courses == init + [courses[|courses| - 1]];
    }
  }

  /** The filter keeps the survivors in their order. */
  lemma {:induction false} WithoutCrnSubsequence(courses: seq<SavedCourse>, crn: string)
    ensures IsSubsequence(WithoutCrn(courses, crn), courses)
    decreases |courses|
  {
    if courses != [] {
      var init := courses[..|courses| - 1];
      WithoutCrnSubsequence(init, crn);
      var r := WithoutCrn(courses, crn);
      if courses[|courses| - 1].crn != Some(crn) {
        assert r[..|r| - 1] == WithoutCrn(init, crn);
      }
    }
  }

  /** Removing a CRN twice is removing it once. */
  lemma {:induction false} WithoutCrnIdempotent(courses: seq<SavedCourse>, crn: string)
    ensures WithoutCrn(WithoutCrn(courses, crn), crn) == WithoutCrn(courses, crn)
    decreases |courses|
  {
    if courses != [] {
      var init := courses[..|courses| - 1];
      WithoutCrnIdempotent(init, crn);
      var r := WithoutCrn(courses, crn);
      if courses[|courses| - 1].crn != Some(crn) {
        assert r[..|r| - 1] == WithoutCrn(init, crn);
      }
    }
  }

  /** Filtering keeps the CRNs unique. */
  lemma WithoutCrnUnique(courses: seq<SavedCourse>, crn: string)
    requires UniqueCrns(courses)
    ensures UniqueCrns(WithoutCrn(courses, crn))
  {
    var r := WithoutCrn(courses, crn);
    WithoutCrnSubsequence(courses, crn);
    forall i, j | 0 <= i < j < |r| && r[i].crn.Some? ensures r[i].crn != r[j].crn {
      var a, b := SubsequenceIndices(r, courses, i, j);
    }
  }

  /** Two positions of a subsequence come from two positions of the sequence, in the same order. */
  lemma {:induction false} SubsequenceIndices(a: seq<SavedCourse>, b: seq<SavedCourse>, i: nat, j: nat) returns (x: nat, y: nat)
    requires IsSubsequence(a, b) && i < j < |a|
    ensures x < y < |b| && b[x] == a[i] && b[y] == a[j]
    decreases |b|
  {
    var b' := b[..|b| - 1];
    if a != [] && a[|a| - 1] == b[|b| - 1] && IsSubsequence(a[..|a| - 1], b') {
      if j == |a| - 1 {
        x := SubsequenceIndex(a[..|a| - 1], b', i);
        y := |b| - 1;
      } else {
        x, y := SubsequenceIndices(a[..|a| - 1], b', i, j);
      }
    } else {
      x, y := SubsequenceIndices(a, b', i, j);
    }
  }

  lemma {:induction false} SubsequenceIndex(a: seq<SavedCourse>, b: seq<SavedCourse>, i: nat) returns (x: nat)
    requires IsSubsequence(a, b) && i < |a|
    ensures x < |b| && b[x] == a[i]
    decreases |b|
  {
    var b' := b[..|b| - 1];
    if a != [] && a[|a| - 1] == b[|b| - 1] && IsSubsequence(a[..|a| - 1], b') {
      if i == |a| - 1 {
        x := |b| - 1;
      } else {
        x := SubsequenceIndex(a[..|a| - 1], b', i);
      }
    } else {
      x := SubsequenceIndex(a, b', i);
    }
  }

  /**
   * What add_course leaves: the section last, no earlier section with its CRN (when it has a
   * non-empty one), every other earlier section kept in order, and CRNs still unique if they were.
   */
  lemma AddedMeaning(courses: seq<SavedCourse>, course: SavedCourse)
    ensures var r := Added(courses, course);
      && r[|r| - 1] == course
      && (course.crn.Some? && course.crn.value != "" ==> forall k :: 0 <= k < |r| - 1 ==> r[k].crn != course.crn)
      && (forall c :: c in courses && c.crn != course.crn ==> c in r)
      && IsSubsequence(r[..|r| - 1], courses)
      && (UniqueCrns(courses) && course.crn.Some? && course.crn.value != "" ==> UniqueCrns(r))
  {
    var r := Added(courses, course);
    assert r[..|r| - 1] == r[..|r| - 1];
    if course.crn.Some? && course.crn.value != "" {
      var x := course.crn.value;
      var kept := WithoutCrn(courses, x);
      assert r == kept + [course] && r[..|r| - 1] == kept;
      forall k | 0 <= k < |r| - 1 ensures r[k].crn != course.crn {
        WithoutCrnMembers(courses, x, r[k]);
      }
      forall c | c in courses && c.crn != course.crn ensures c in r {
        WithoutCrnMembers(courses, x, c);
      }
      WithoutCrnSubsequence(courses, x);
      if UniqueCrns(courses) {
        WithoutCrnUnique(courses, x);
      }
    } else {
      assert r[..|r| - 1] == courses;
      SubsequenceOfItself(courses);
    }
  }

  lemma {:induction false} SubsequenceOfItself(s: seq<SavedCourse>)
    ensures IsSubsequence(s, s)
    decreases |s|
  {
    if s != [] {
      SubsequenceOfItself(s[..|s| - 1]);
    }
  }

  /** Adding a section and then removing its CRN leaves what removing the CRN alone leaves. */
  lemma {:induction false} RemoveAfterAdd(courses: seq<SavedCourse>, course: SavedCourse)
    requires course.crn.Some? && course.crn.value != ""
    ensures WithoutCrn(Added(courses, course), course.crn.value) == WithoutCrn(courses, course.crn.value)
  {
    var x := course.crn.value;
    var kept := WithoutCrn(courses, x);
    assert Added(courses, course)[..|kept|] == kept;
    WithoutCrnIdempotent(courses, x);
  }

  // ---------------------------------------------------------------------------------
  // PlannedClassesDB input checks
  // ---------------------------------------------------------------------------------

  /**
   * A character of [A-Z0-9\s\-\.] under re.IGNORECASE: an ASCII letter or digit, whitespace,
   * '-' or '.', and the four non-ASCII letters whose case mapping lands on an ASCII letter:
   * 'İ' (U+0130), 'ı' (U+0131), 'ſ' (U+017F) and the Kelvin sign (U+212A).
   */
  predicate NameChar(c: char) {
    IsUpper(c) || IsLower(c) || IsDigit(c) || IsSpace(c) || c == '-' || c == '.'
    || c == 'İ' || c == 'ı' || c == 'ſ' || c == 'K'
  }

  const NameTooLong: string := "Class name must be 100 characters or less"
  const NameInvalid: string := "Class name contains invalid characters. Only letters, numbers, spaces, hyphens, and periods are allowed."
  const NotesTooLong: string := "Notes must be 500 characters or less"

  /** _validate_class_name: the stripped name, or the message of the ValueError it raises. */
  function ValidateClassName(className: string): (r: Result<string, string>)
    ensures r.Ok? <==> |Strip(className)| <= 100 && Strip(className) != [] && forall k :: 0 <= k < |Strip(className)| ==> NameChar(Strip(className)[k])
    ensures r.Ok? ==> r.value == Strip(className)
    ensures r.Err? ==> r.error == (if |Strip(className)| > 100 then NameTooLong else NameInvalid)
  {
    var name := Strip(className);
    if |name| > 100 then Err(NameTooLong)
    else if !(|name| >= 1 && forall k :: 0 <= k < |name| ==> NameChar(name[k])) then Err(NameInvalid)
    else Ok(name)
  }

  /** _sanitize_notes: the stripped notes, or the message of the ValueError it raises. */
  function SanitizeNotes(notes: string): (r: Result<string, string>)
    ensures r.Ok? <==> |Strip(notes)| <= 500
    ensures r.Ok? ==> r.value == Strip(notes)
  {
    var n := Strip(notes);
    if |n| > 500 then Err(NotesTooLong) else Ok(n)
  }

  /** Stripping twice is stripping once. */
  lemma StripIdempotent(s: string)
    ensures Strip(Strip(s)) == Strip(s)
  {
    var a, b := StripShape(s);
    if a < b {
      StripUnchanged(s[a..b]);
    } else {
      assert Strip(s) == [];
    }
  }

  /** A name the check accepts is accepted again unchanged, so the stored name passes the check. */
  lemma ValidateClassNameIdempotent(className: string)
    requires ValidateClassName(className).Ok?
    ensures ValidateClassName(ValidateClassName(className).value) == ValidateClassName(className)
  {
    StripIdempotent(className);
  }

  /** Notes the check accepts are accepted again unchanged. */
  lemma SanitizeNotesIdempotent(notes: string)
    requires SanitizeNotes(notes).Ok?
    ensures SanitizeNotes(SanitizeNotes(notes).value) == SanitizeNotes(notes)
  {
    StripIdempotent(notes);
  }

  /** A name of blanks is refused as holding invalid characters, since the pattern needs one character. */
  lemma BlankNameRefused(className: string)
    requires forall k :: 0 <= k < |className| ==> IsSpace(className[k])
    ensures ValidateClassName(className) == Err(NameInvalid)
  {
    var a, b := StripShape(className);
  }
}
