/**
 * Class-time parsing and conflict detection (models.py: parse_class_time and
 * detect_conflicts). A class time such as "M W 08:30 AM-10:45 AM" becomes its day letters
 * and its start and end as minutes after midnight; two sections conflict when they share a
 * weekday and their half-open time intervals overlap.
 */
module Schedule {
  import opened Text
  import opened Wrappers
  import opened TimeRanges
  import opened Sequences

  /** The keys of DAY_MAP. */
  const DayLetters: string := "MTWRFSU"

  /** DAY_MAP */
  function DayName(d: char): string
    requires d in DayLetters
  {
    if d == 'M' then "Monday"
    else if d == 'T' then "Tuesday"
    else if d == 'W' then "Wednesday"
    else if d == 'R' then "Thursday"
    else if d == 'F' then "Friday"
    else if d == 'S' then "Saturday"
    else "Sunday"
  }

  /** The dictionary parse_class_time returns. */
  datatype TimeData = TimeData(
    days: seq<char>,
    dayNames: seq<string>,
    startTime: string,
    endTime: string,
    startMinutes: int,
    endMinutes: int,
    durationMinutes: int)

  /** What every parsed class time satisfies. */
  predicate ValidTimeData(t: TimeData) {
    && |t.days| >= 1
    && (forall k :: 0 <= k < |t.days| ==> t.days[k] in DayLetters)
    && |t.dayNames| == |t.days|
    && (forall k :: 0 <= k < |t.days| ==> t.dayNames[k] == DayName(t.days[k]))
    && 0 <= t.startMinutes < 1440
    && 0 <= t.endMinutes < 1440
    && t.durationMinutes == t.endMinutes - t.startMinutes
  }

  /** Length of the match of ^([MTWRFSU\s]+) at the start of s, 0 where there is none. */
  function DayRun(s: string): (n: nat)
    ensures n <= |s|
    ensures forall k :: 0 <= k < n ==> s[k] in DayLetters || IsSpace(s[k])
  {
    if s != [] && (s[0] in DayLetters || IsSpace(s[0])) then 1 + DayRun(s[1..]) else 0
  }

  /** The characters of s that are keys of DAY_MAP, in order and with repeats. */
  function KeepDays(s: string): (ds: seq<char>)
    ensures |ds| <= |s|
    ensures forall k :: 0 <= k < |ds| ==> ds[k] in DayLetters
  {
    if s == [] then []
    else (if s[0] in DayLetters then [s[0]] else []) + KeepDays(s[1..])
  }

  /** [DAY_MAP[d] for d in days] */
  function DayNames(days: seq<char>): (ns: seq<string>)
    requires forall k :: 0 <= k < |days| ==> days[k] in DayLetters
    ensures |ns| == |days|
    ensures forall k :: 0 <= k < |days| ==> ns[k] == DayName(days[k])
  {
    if days == [] then [] else [DayName(days[0])] + DayNames(days[1..])
  }

  /** The clocks of the first time range, stripped and read by strptime, or None. */
  function ReadRange(classTime: string, m: RangeMatch, days: seq<char>): (r: Option<TimeData>)
    requires WellPlaced(classTime, m)
    requires |days| >= 1 && forall k :: 0 <= k < |days| ==> days[k] in DayLetters
    ensures r.Some? ==> ValidTimeData(r.value) && r.value.days == days
  {
    var startStr := Strip(StartGroup(classTime, m));
    var endStr := Strip(EndGroup(classTime, m));
    var start := StrptimeMinutes(startStr);
    var end := StrptimeMinutes(endStr);
    if start.Some? && end.Some? then
      Some(TimeData(days, DayNames(days), startStr, endStr, start.value, end.value, end.value - start.value))
    else None
  }

  /** parse_class_time */
  function ParseClassTime(classTime: string): (r: Option<TimeData>)
    ensures r.Some? ==> ValidTimeData(r.value)
  {
    if classTime == [] || classTime == "TBA" then None
    else
      var n := DayRun(classTime);
      if n == 0 then None
      else
        var days := KeepDays(Strip(classTime[..n]));
        if days == [] then None
        else
          match Search(classTime)
          case None => None
          case Some(m) => ReadRange(classTime, m, days)
  }

  // ---------------------------------------------------------------------------------
  // What parse_class_time accepts and what it reads
  // ---------------------------------------------------------------------------------

  lemma {:induction false} KeepDaysConcat(a: string, b: string)
    ensures KeepDays(a + b) == KeepDays(a) + KeepDays(b)
    decreases |a|
  {
    if a != [] {
      assert (a + b)[1..] == a[1..] + b;
      KeepDaysConcat(a[1..], b);
    } else {
      assert a + b == b;
    }
  }

  lemma {:induction false} KeepDaysSpaces(s: string)
    requires forall k :: 0 <= k < |s| ==> IsSpace(s[k])
    ensures KeepDays(s) == []
    decreases |s|
  {
    if s != [] {
      KeepDaysSpaces(s[1..]);
    }
  }

  /** Stripping the day run first does not change which days are kept. */
  lemma KeepDaysStrip(s: string)
    ensures KeepDays(Strip(s)) == KeepDays(s)
  {
    var a, b := StripShape(s);
    var x, y, z := s[..a], s[a..b], s[b..];
    assert s == x + y + z;
    KeepDaysSpaceSlice(s, 0, a);
    KeepDaysSpaceSlice(s, b, |s|);
    assert x == s[0..a] && z == s[b..|s|];
    KeepDaysAround(x, y, z);
  }

  /** Text without day letters on both sides of y adds no days. */
  lemma KeepDaysAround(x: string, y: string, z: string)
    requires KeepDays(x) == [] && KeepDays(z) == []
    ensures KeepDays(x + y + z) == KeepDays(y)
  {
    KeepDaysConcat(x + y, z);
    KeepDaysConcat(x, y);
    assert [] + KeepDays(y) + [] == KeepDays(y);
  }

  lemma KeepDaysSpaceSlice(s: string, i: nat, j: nat)
    requires i <= j <= |s| && forall k :: i <= k < j ==> IsSpace(s[k])
    ensures KeepDays(s[i..j]) == []
  {
    var t := s[i..j];
    assert forall k :: 0 <= k < |t| ==> IsSpace(t[k]) by {
      forall k | 0 <= k < |t| ensures IsSpace(t[k]) {
        assert t[k] == s[i + k];
      }
    }
    KeepDaysSpaces(t);
  }

  /** The day letters of the leading run of day letters and whitespace. */
  function LeadingDays(s: string): seq<char> {
    KeepDays(s[..DayRun(s)])
  }

  /** The two clocks of the first time range in s both read as valid 12-hour times. */
  predicate RangeReadable(s: string)
    requires Search(s).Some?
  {
    var m := Search(s).value;
    ClockOk(StartGroup(s, m)) && ClockOk(EndGroup(s, m))
  }

  /**
   * parse_class_time succeeds exactly when the input is not "TBA", its leading run of day
   * letters and whitespace holds a day letter, it holds a time range, and both clocks of
   * the first range have hour 1-12, minute 0-59 and whitespace before AM/PM. It then keeps
   * the leading day letters in order and reads both clocks on the 12-hour dial.
   */
  lemma ParseClassTimeMeaning(s: string)
    ensures ParseClassTime(s).Some? <==>
      s != "TBA" && LeadingDays(s) != [] && Search(s).Some? && RangeReadable(s)
    ensures ParseClassTime(s).Some? ==>
      var t := ParseClassTime(s).value;
      var m := Search(s).value;
      && t.days == LeadingDays(s)
      && t.startTime == StartGroup(s, m)
      && t.endTime == EndGroup(s, m)
      && t.startMinutes == ClockValue(t.startTime)
      && t.endMinutes == ClockValue(t.endTime)
  {
    var n := DayRun(s);
    if s == [] || s == "TBA" {
    } else if n == 0 {
      assert LeadingDays(s) == [] by {
        assert s[..n] == [];
      }
    } else {
      KeepDaysStrip(s[..n]);
      var days := KeepDays(Strip(s[..n]));
      assert days == LeadingDays(s);
      if days != [] && Search(s).Some? {
        ReadRangeMeaning(s, Search(s).value, days);
      }
    }
  }

  /** Reading the range succeeds exactly when both clocks are valid, and then keeps what it read. */
  lemma ReadRangeMeaning(s: string, m: RangeMatch, days: seq<char>)
    requires WellPlaced(s, m)
    requires |days| >= 1 && forall k :: 0 <= k < |days| ==> days[k] in DayLetters
    ensures ReadRange(s, m, days).Some? <==> ClockOk(StartGroup(s, m)) && ClockOk(EndGroup(s, m))
    ensures ReadRange(s, m, days).Some? ==>
      var t := ReadRange(s, m, days).value;
      && t.startTime == StartGroup(s, m)
      && t.endTime == EndGroup(s, m)
      && t.startMinutes == ClockValue(t.startTime)
      && t.endMinutes == ClockValue(t.endTime)
  {
    ReadClock(StartGroup(s, m));
    ReadClock(EndGroup(s, m));
  }

  /** No leading day letter, no time range, or a clock strptime refuses: each gives None. */
  lemma ParseClassTimeNone(s: string)
    ensures s == [] || s == "TBA" ==> ParseClassTime(s).None?
    ensures LeadingDays(s) == [] ==> ParseClassTime(s).None?
    ensures Search(s).None? ==> ParseClassTime(s).None?
    ensures Search(s).Some? && !RangeReadable(s) ==> ParseClassTime(s).None?
  {
    ParseClassTimeMeaning(s);
  }

  // ---------------------------------------------------------------------------------
  // The docstring example
  // ---------------------------------------------------------------------------------

  lemma ExampleStartClock(s: string)
    requires s == "M W 08:30 AM-10:45 AM"
    ensures ClockAt(s, 4) == Some(12)
  {
    assert SpaceRun(s, 9) == 1 by {
      assert SpaceRun(s, 10) == 0;
    }
  }

  lemma ExampleEndClock(s: string)
    requires s == "M W 08:30 AM-10:45 AM"
    ensures ClockAt(s, 13) == Some(21)
  {
    assert SpaceRun(s, 18) == 1 by {
      assert SpaceRun(s, 19) == 0;
    }
  }

  lemma ExampleRangeAt(s: string)
    requires s == "M W 08:30 AM-10:45 AM"
    ensures RangeAt(s, 4) == Some(RangeMatch(Span(4, 12), Span(13, 21)))
  {
    ExampleStartClock(s);
    ExampleEndClock(s);
    assert SpaceRun(s, 12) == 0;
    assert SpaceRun(s, 13) == 0;
  }

  lemma ExampleNoEarlierRange(s: string, i: nat)
    requires s == "M W 08:30 AM-10:45 AM" && i < 4
    ensures RangeAt(s, i).None?
  {
    assert !IsDigit(s[i]);
  }

  lemma ExampleSearch(s: string)
    requires s == "M W 08:30 AM-10:45 AM"
    ensures Search(s) == Some(RangeMatch(Span(4, 12), Span(13, 21)))
  {
    ExampleRangeAt(s);
    ExampleNoEarlierRange(s, 0);
    ExampleNoEarlierRange(s, 1);
    ExampleNoEarlierRange(s, 2);
    ExampleNoEarlierRange(s, 3);
    assert SearchFrom(s, 4) == RangeAt(s, 4);
    assert SearchFrom(s, 3) == SearchFrom(s, 4);
    assert SearchFrom(s, 2) == SearchFrom(s, 3);
    assert SearchFrom(s, 1) == SearchFrom(s, 2);
    assert SearchFrom(s, 0) == SearchFrom(s, 1);
  }

  lemma {:induction false} DayRunExactly(s: string, n: nat)
    requires n <= |s| && forall k :: 0 <= k < n ==> s[k] in DayLetters || IsSpace(s[k])
    requires n < |s| && IsDigit(s[n])
    ensures DayRun(s) == n
    decreases n
  {
    if n > 0 {
      DayRunExactly(s[1..], n - 1);
    } else {
      assert s[0] !in DayLetters && !IsSpace(s[0]);
    }
  }

  lemma ExampleDayRun(s: string)
    requires s == "M W 08:30 AM-10:45 AM"
    ensures DayRun(s) == 4 && s[..4] == "M W "
  {
    assert s[0] == 'M' && s[1] == ' ' && s[2] == 'W' && s[3] == ' ' && s[4] == '0';
    assert 'M' in DayLetters && 'W' in DayLetters && IsSpace(' ');
    DayRunExactly(s, 4);
  }

  lemma ExampleKeepDays(d: string)
    requires d == "M W "
    ensures KeepDays(d) == ['M', 'W']
  {
    assert 'M' in DayLetters && 'W' in DayLetters && ' ' !in DayLetters;
    assert KeepDays(d[3..]) == [] by {
      assert d[3..][1..] == [];
    }
    assert KeepDays(d[2..]) == ['W'] by {
      assert d[2..][1..] == d[3..];
    }
    assert KeepDays(d[1..]) == ['W'] by {
      assert d[1..][1..] == d[2..];
    }
    assert d[1..] == d[1..];
  }

  lemma ExampleDays(s: string)
    requires s == "M W 08:30 AM-10:45 AM"
    ensures LeadingDays(s) == ['M', 'W']
  {
    ExampleDayRun(s);
    ExampleKeepDays(s[..4]);
  }

  /** The value of a clock "HH:MM AM" with hour 1-11. */
  lemma MorningClock(c: string, h1: char, h2: char, m1: char, m2: char)
    requires c == [h1, h2, ':', m1, m2, ' ', 'A', 'M']
    requires IsDigit(h1) && IsDigit(h2) && IsDigit(m1) && IsDigit(m2)
    requires 1 <= DigitValue(h1) * 10 + DigitValue(h2) <= 11 && DigitValue(m1) <= 5
    ensures ClockAt(c, 0) == Some(|c|) && ClockOk(c)
    ensures ClockValue(c) == (DigitValue(h1) * 10 + DigitValue(h2)) * 60 + DigitValue(m1) * 10 + DigitValue(m2)
  {
    assert SpaceRun(c, 5) == 1 by {
      assert SpaceRun(c, 6) == 0;
    }
  }

  lemma ExampleStartGroup(s: string)
    requires s == "M W 08:30 AM-10:45 AM"
    ensures var m := RangeMatch(Span(4, 12), Span(13, 21));
      WellPlaced(s, m) && StartGroup(s, m) == ['0', '8', ':', '3', '0', ' ', 'A', 'M']
  {
    ExampleRangeAt(s);
    ExampleStartText(s);
  }

  lemma ExampleStartText(s: string)
    requires s == "M W 08:30 AM-10:45 AM"
    ensures s[4..12] == ['0', '8', ':', '3', '0', ' ', 'A', 'M']
  {
    var t := s[4..12];
    assert |t| == 8;
    assert t[0] == '0' && t[1] == '8' && t[2] == ':' && t[3] == '3' && t[4] == '0' && t[5] == ' ' && t[6] == 'A' && t[7] == 'M';
  }

  lemma ExampleEndGroup(s: string)
    requires s == "M W 08:30 AM-10:45 AM"
    ensures var m := RangeMatch(Span(4, 12), Span(13, 21));
      WellPlaced(s, m) && EndGroup(s, m) == ['1', '0', ':', '4', '5', ' ', 'A', 'M']
  {
    ExampleRangeAt(s);
    ExampleEndText(s);
  }

  lemma ExampleEndText(s: string)
    requires s == "M W 08:30 AM-10:45 AM"
    ensures s[13..21] == ['1', '0', ':', '4', '5', ' ', 'A', 'M']
  {
    var t := s[13..21];
    assert |t| == 8;
    assert t[0] == '1' && t[1] == '0' && t[2] == ':' && t[3] == '4' && t[4] == '5' && t[5] == ' ' && t[6] == 'A' && t[7] == 'M';
  }

  lemma ExampleStartValue(s: string)
    requires s == "M W 08:30 AM-10:45 AM"
    ensures var m := RangeMatch(Span(4, 12), Span(13, 21));
      WellPlaced(s, m) && ClockOk(StartGroup(s, m)) && ClockValue(StartGroup(s, m)) == 510
  {
    ExampleStartGroup(s);
    var m := RangeMatch(Span(4, 12), Span(13, 21));
    MorningClock(StartGroup(s, m), '0', '8', '3', '0');
  }

  lemma ExampleEndValue(s: string)
    requires s == "M W 08:30 AM-10:45 AM"
    ensures var m := RangeMatch(Span(4, 12), Span(13, 21));
      WellPlaced(s, m) && ClockOk(EndGroup(s, m)) && ClockValue(EndGroup(s, m)) == 645
  {
    ExampleEndGroup(s);
    var m := RangeMatch(Span(4, 12), Span(13, 21));
    MorningClock(EndGroup(s, m), '1', '0', '4', '5');
  }

  /** The result of parse_class_time on an input whose days, range and clocks are known. */
  lemma ParseClassTimeOf(s: string, m: RangeMatch, days: seq<char>)
    requires s != "TBA" && days != [] && LeadingDays(s) == days && Search(s) == Some(m)
    requires ClockOk(StartGroup(s, m)) && ClockOk(EndGroup(s, m))
    ensures ParseClassTime(s).Some?
    ensures var t := ParseClassTime(s).value;
      && t.days == days && t.dayNames == DayNames(t.days)
      && t.startMinutes == ClockValue(StartGroup(s, m)) && t.endMinutes == ClockValue(EndGroup(s, m))
      && t.durationMinutes == t.endMinutes - t.startMinutes
  {
    var n := DayRun(s);
    assert n != 0;
    KeepDaysStrip(s[..n]);
    assert ParseClassTime(s) == ReadRange(s, m, days);
    ReadRangeMeaning(s, m, days);
    var t := ParseClassTime(s).value;
    DayNamesOf(t.days, t.dayNames);
  }

  /** A list holding the name of each day letter, position by position, is DayNames of the letters. */
  lemma DayNamesOf(days: seq<char>, names: seq<string>)
    requires forall k :: 0 <= k < |days| ==> days[k] in DayLetters
    requires |names| == |days| && forall k :: 0 <= k < |days| ==> names[k] == DayName(days[k])
    ensures names == DayNames(days)
  {
  }

  lemma ExampleFacts(s: string)
    requires s == "M W 08:30 AM-10:45 AM"
    ensures var m := RangeMatch(Span(4, 12), Span(13, 21));
      && s != "TBA" && LeadingDays(s) == ['M', 'W'] && Search(s) == Some(m)
      && ClockOk(StartGroup(s, m)) && ClockOk(EndGroup(s, m))
      && ClockValue(StartGroup(s, m)) == 510 && ClockValue(EndGroup(s, m)) == 645
  {
    assert |s| != 3;
    ExampleSearch(s);
    ExampleDays(s);
    ExampleStartValue(s);
    ExampleEndValue(s);
  }

  /** "M W 08:30 AM-10:45 AM" is Monday and Wednesday, 510 to 645, 135 minutes. */
  lemma ParseClassTimeExample(s: string)
    requires s == "M W 08:30 AM-10:45 AM"
    ensures ParseClassTime(s).Some?
    ensures ParseClassTime(s).value.days == ['M', 'W']
    ensures ParseClassTime(s).value.dayNames == ["Monday", "Wednesday"]
    ensures ParseClassTime(s).value.startMinutes == 510
    ensures ParseClassTime(s).value.endMinutes == 645
    ensures ParseClassTime(s).value.durationMinutes == 135
  {
    ExampleFacts(s);
    ParseClassTimeOf(s, RangeMatch(Span(4, 12), Span(13, 21)), ['M', 'W']);
    ExampleDayNames(['M', 'W']);
  }

  lemma ExampleDayNames(d: seq<char>)
    requires d == ['M', 'W']
    ensures DayNames(d) == ["Monday", "Wednesday"]
  {
    assert DayName(d[0]) == "Monday";
    assert DayNames(d[1..]) == ["Wednesday"] by {
      assert d[1..][1..] == [];
      assert DayName(d[1]) == "Wednesday";
    }
  }

  // ---------------------------------------------------------------------------------
  // detect_conflicts
  // ---------------------------------------------------------------------------------

  /** The parts of a course dictionary that detect_conflicts reads. */
  datatype Section = Section(crn: Option<string>, course: Option<string>, professor: Option<string>, timeData: Option<TimeData>)

  datatype CourseRef = CourseRef(crn: Option<string>, course: Option<string>, professor: Option<string>)

  /** One conflict dictionary; conflicting_days is the set of shared day letters. */
  datatype Conflict = Conflict(course1: CourseRef, course2: CourseRef, conflictingDays: set<char>, time1: string, time2: string)

  function DaySet(t: TimeData): set<char> {
    set k | 0 <= k < |t.days| :: t.days[k]
  }

  /** Some day letter of d1 also occurs in d2. */
  predicate SharesDay(d1: seq<char>, d2: seq<char>) {
    d1 != [] && (d1[0] in d2 || SharesDay(d1[1..], d2))
  }

  lemma {:induction false} SharesDayWitness(d1: seq<char>, d2: seq<char>)
    ensures SharesDay(d1, d2) <==> exists a :: 0 <= a < |d1| && d1[a] in d2
  {
    if d1 != [] {
      SharesDayWitness(d1[1..], d2);
      if exists a :: 0 <= a < |d1| && d1[a] in d2 {
        var a :| 0 <= a < |d1| && d1[a] in d2;
        if a > 0 {
          assert d1[1..][a - 1] in d2;
        }
      }
    }
  }

  /** The set of shared days that detect_conflicts computes is non-empty exactly when the days overlap. */
  lemma SharedDaysNonEmpty(t1: TimeData, t2: TimeData)
    ensures DaySet(t1) * DaySet(t2) != {} <==> SharesDay(t1.days, t2.days)
  {
    SharesDayWitness(t1.days, t2.days);
    if SharesDay(t1.days, t2.days) {
      var a :| 0 <= a < |t1.days| && t1.days[a] in t2.days;
      assert t1.days[a] in DaySet(t1) * DaySet(t2);
    } else {
      forall d | d in DaySet(t1) ensures d !in DaySet(t2) {
        var a :| 0 <= a < |t1.days| && t1.days[a] == d;
        assert d !in t2.days;
      }
      assert DaySet(t1) * DaySet(t2) == {};
    }
  }

  /** Two meeting times share a weekday and their half-open intervals overlap. */
  predicate Overlaps(t1: TimeData, t2: TimeData) {
    SharesDay(t1.days, t2.days) && t1.startMinutes < t2.endMinutes && t1.endMinutes > t2.startMinutes
  }

  /** Sections i and j both have a meeting time and those times overlap. */
  predicate ConflictAt(cs: seq<Section>, i: nat, j: nat)
    requires i < |cs| && j < |cs|
  {
    cs[i].timeData.Some? && cs[j].timeData.Some? && Overlaps(cs[i].timeData.value, cs[j].timeData.value)
  }

  function Ref(c: Section): CourseRef {
    CourseRef(c.crn, c.course, c.professor)
  }

  function TimeSpan(t: TimeData): string {
    t.startTime + " - " + t.endTime
  }

  /** The record detect_conflicts appends for the pair (i, j). */
  function Record(cs: seq<Section>, i: nat, j: nat): Conflict
    requires i < |cs| && j < |cs| && cs[i].timeData.Some? && cs[j].timeData.Some?
  {
    var t1 := cs[i].timeData.value;
    var t2 := cs[j].timeData.value;
    Conflict(Ref(cs[i]), Ref(cs[j]), DaySet(t1) * DaySet(t2), TimeSpan(t1), TimeSpan(t2))
  }

  /** Every pair is in bounds and names two sections that have a meeting time. */
  predicate ValidPairs(cs: seq<Section>, ps: seq<(nat, nat)>)
    decreases |ps|
  {
    ps == [] || (ValidPairs(cs, ps[..|ps| - 1]) && Timed(cs, ps[|ps| - 1]))
  }

  predicate Timed(cs: seq<Section>, p: (nat, nat)) {
    p.0 < |cs| && p.1 < |cs| && cs[p.0].timeData.Some? && cs[p.1].timeData.Some?
  }

  /** The conflicting pairs (i, j) with i < j < m, by increasing j. */
  function RowPairs(cs: seq<Section>, i: nat, m: nat): (ps: seq<(nat, nat)>)
    requires i < |cs| && m <= |cs|
    decreases m
  {
    if m <= i + 1 then []
    else RowPairs(cs, i, m - 1) + (if ConflictAt(cs, i, m - 1) then [(i, m - 1)] else [])
  }

  /** The conflicting pairs whose first index is below n, row by row. */
  function PairsBefore(cs: seq<Section>, n: nat): (ps: seq<(nat, nat)>)
    requires n <= |cs|
  {
    if n == 0 then [] else PairsBefore(cs, n - 1) + RowPairs(cs, n - 1, |cs|)
  }

  /** All conflicting pairs in the order detect_conflicts visits them. */
  function ConflictPairs(cs: seq<Section>): (ps: seq<(nat, nat)>)
    ensures ValidPairs(cs, ps)
  {
    PairsBeforeValid(cs, |cs|);
    PairsBefore(cs, |cs|)
  }

  function Records(cs: seq<Section>, ps: seq<(nat, nat)>): (rs: seq<Conflict>)
    requires ValidPairs(cs, ps)
    ensures |rs| == |ps|
  {
    if ps == [] then []
    else
      var last := ps[|ps| - 1];
      Records(cs, ps[..|ps| - 1]) + [Record(cs, last.0, last.1)]
  }

  lemma RecordsSnoc(cs: seq<Section>, ps: seq<(nat, nat)>, i: nat, j: nat)
    requires ValidPairs(cs, ps) && Timed(cs, (i, j))
    ensures ValidPairs(cs, ps + [(i, j)])
    ensures Records(cs, ps + [(i, j)]) == Records(cs, ps) + [Record(cs, i, j)]
  {
    assert (ps + [(i, j)])[..|ps|] == ps;
  }

  /** The test detect_conflicts makes on two sections that have a meeting time. */
  lemma ConflictAtMeaning(cs: seq<Section>, i: nat, j: nat)
    requires i < |cs| && j < |cs| && cs[i].timeData.Some? && cs[j].timeData.Some?
    ensures var t1, t2 := cs[i].timeData.value, cs[j].timeData.value;
      ConflictAt(cs, i, j) <==>
        DaySet(t1) * DaySet(t2) != {} && t1.startMinutes < t2.endMinutes && t1.endMinutes > t2.startMinutes
  {
    SharedDaysNonEmpty(cs[i].timeData.value, cs[j].timeData.value);
  }

  /** One step of the inner loop of detect_conflicts, on the pairs and on the records. */
  lemma PairStep(cs: seq<Section>, i: nat, j: nat, before: seq<(nat, nat)>, pairs: seq<(nat, nat)>)
    requires i < j < |cs|
    requires pairs == before + RowPairs(cs, i, j) && ValidPairs(cs, pairs)
    ensures ConflictAt(cs, i, j) ==>
      && pairs + [(i, j)] == before + RowPairs(cs, i, j + 1)
      && ValidPairs(cs, pairs + [(i, j)])
      && Records(cs, pairs + [(i, j)]) == Records(cs, pairs) + [Record(cs, i, j)]
    ensures !ConflictAt(cs, i, j) ==> pairs == before + RowPairs(cs, i, j + 1)
  {
    if ConflictAt(cs, i, j) {
      RowPairsGrow(cs, i, j);
      AppendAssociative(before, RowPairs(cs, i, j), [(i, j)]);
      RecordsSnoc(cs, pairs, i, j);
    } else {
      assert RowPairs(cs, i, j + 1) == RowPairs(cs, i, j);
    }
  }

  /** A conflicting j extends row i by the pair (i, j). */
  lemma RowPairsGrow(cs: seq<Section>, i: nat, j: nat)
    requires i < j < |cs| && ConflictAt(cs, i, j)
    ensures RowPairs(cs, i, j + 1) == RowPairs(cs, i, j) + [(i, j)]
  {
  }

  lemma RowPairsUntimed(cs: seq<Section>, i: nat, m: nat)
    requires i < |cs| && m <= |cs| && cs[i].timeData.None?
    ensures RowPairs(cs, i, m) == []
    decreases m
  {
    if m > i + 1 {
      RowPairsUntimed(cs, i, m - 1);
    }
  }

  lemma {:induction false} RecordsConcat(cs: seq<Section>, a: seq<(nat, nat)>, b: seq<(nat, nat)>)
    requires ValidPairs(cs, a) && ValidPairs(cs, b)
    ensures ValidPairs(cs, a + b)
    ensures Records(cs, a + b) == Records(cs, a) + Records(cs, b)
    decreases |b|
  {
    if b != [] {
      var b' := b[..|b| - 1];
      RecordsConcat(cs, a, b');
      assert (a + b)[..|a + b| - 1] == a + b';
      assert (a + b)[|a + b| - 1] == b[|b| - 1];
    } else {
      assert a + b == a;
    }
  }

  /** Every pair of row i names two sections that have a meeting time. */
  lemma {:induction false} RowPairsValid(cs: seq<Section>, i: nat, m: nat)
    requires i < |cs| && m <= |cs|
    ensures ValidPairs(cs, RowPairs(cs, i, m))
    decreases m
  {
    if m > i + 1 {
      RowPairsValid(cs, i, m - 1);
      if ConflictAt(cs, i, m - 1) {
        RecordsSnoc(cs, RowPairs(cs, i, m - 1), i, m - 1);
      } else {
        assert RowPairs(cs, i, m) == RowPairs(cs, i, m - 1);
      }
    }
  }

  /** Every pair of the rows before n names two sections that have a meeting time. */
  lemma {:induction false} PairsBeforeValid(cs: seq<Section>, n: nat)
    requires n <= |cs|
    ensures ValidPairs(cs, PairsBefore(cs, n))
    decreases n
  {
    if n > 0 {
      PairsBeforeValid(cs, n - 1);
      RowPairsValid(cs, n - 1, |cs|);
      RecordsConcat(cs, PairsBefore(cs, n - 1), RowPairs(cs, n - 1, |cs|));
    }
  }

  /** detect_conflicts: every pair i < j of sections, in order, and a record for each that conflicts. */
  method DetectConflicts(courses: seq<Section>) returns (conflicts: seq<Conflict>)
    ensures conflicts == Records(courses, ConflictPairs(courses))
  {
    conflicts := [];
    ghost var pairs: seq<(nat, nat)> := [];
    for i := 0 to |courses|
      invariant pairs == PairsBefore(courses, i)
      invariant ValidPairs(courses, pairs) && conflicts == Records(courses, pairs)
    {
      ghost var before := pairs;
      assert PairsBefore(courses, i + 1) == before + RowPairs(courses, i, |courses|);
      if courses[i].timeData.None? {
        RowPairsUntimed(courses, i, |courses|);
        assert before + [] == before;
        continue;
      }
      for j := i + 1 to |courses|
        invariant pairs == before + RowPairs(courses, i, j)
        invariant ValidPairs(courses, pairs) && conflicts == Records(courses, pairs)
      {
        PairStep(courses, i, j, before, pairs);
        if courses[j].timeData.None? {
          continue;
        }
        var time1 := courses[i].timeData.value;
        var time2 := courses[j].timeData.value;
        var sharedDays := DaySet(time1) * DaySet(time2);
        ConflictAtMeaning(courses, i, j);
        if sharedDays != {} {
          if time1.startMinutes < time2.endMinutes && time1.endMinutes > time2.startMinutes {
            conflicts := conflicts + [Record(courses, i, j)];
            pairs := pairs + [(i, j)];
          }
        }
      }
    }
  }

  // ---------------------------------------------------------------------------------
  // Properties of the conflict list
  // ---------------------------------------------------------------------------------

  /** Every pair has its first index below n. */
  predicate FirstBelow(ps: seq<(nat, nat)>, n: nat) {
    forall k :: 0 <= k < |ps| ==> ps[k].0 < n
  }

  /** Every pair is (i, j) with i < j < m. */
  predicate InRow(ps: seq<(nat, nat)>, i: nat, m: nat) {
    forall k :: 0 <= k < |ps| ==> ps[k].0 == i && i < ps[k].1 < m
  }

  /** Row i holds pairs (i, j) with i < j < m only. */
  lemma {:induction false} RowPairsShape(cs: seq<Section>, i: nat, m: nat)
    requires i < |cs| && m <= |cs|
    ensures InRow(RowPairs(cs, i, m), i, m)
    decreases m
  {
    if m > i + 1 {
      RowPairsShape(cs, i, m - 1);
      var p := RowPairs(cs, i, m - 1);
      var q := RowPairs(cs, i, m);
      forall k | 0 <= k < |q| ensures q[k].0 == i && i < q[k].1 < m {
        if k < |p| {
          assert q[k] == p[k];
        }
      }
    }
  }

  lemma InRowFirstBelow(ps: seq<(nat, nat)>, i: nat, m: nat)
    requires InRow(ps, i, m)
    ensures FirstBelow(ps, i + 1)
  {
  }

  /** Two lists of pairs whose first indices are below n stay so when joined. */
  lemma FirstBelowConcat(a: seq<(nat, nat)>, b: seq<(nat, nat)>, n: nat)
    requires FirstBelow(a, n) && FirstBelow(b, n)
    ensures FirstBelow(a + b, n)
  {
    forall k | 0 <= k < |a + b| ensures (a + b)[k].0 < n {
      if k < |a| {
        assert (a + b)[k] == a[k];
      } else {
        assert (a + b)[k] == b[k - |a|];
      }
    }
  }

  /** The pairs of the rows before n all have a first index below n. */
  lemma {:induction false} PairsBeforeShape(cs: seq<Section>, n: nat)
    requires n <= |cs|
    ensures FirstBelow(PairsBefore(cs, n), n)
    decreases n
  {
    if n > 0 {
      var a := PairsBefore(cs, n - 1);
      var b := RowPairs(cs, n - 1, |cs|);
      PairsBeforeShape(cs, n - 1);
      RowPairsShape(cs, n - 1, |cs|);
      InRowFirstBelow(b, n - 1, |cs|);
      FirstBelowMonotone(a, n - 1, n);
      FirstBelowConcat(a, b, n);
      assert PairsBefore(cs, n) == a + b;
    }
  }

  lemma FirstBelowMonotone(ps: seq<(nat, nat)>, n: nat, n': nat)
    requires FirstBelow(ps, n) && n <= n'
    ensures FirstBelow(ps, n')
  {
  }

  lemma {:induction false} RowPairsMembers(cs: seq<Section>, i: nat, m: nat, j: nat)
    requires i < |cs| && m <= |cs|
    ensures (i, j) in RowPairs(cs, i, m) <==> i < j < m && ConflictAt(cs, i, j)
    decreases m
  {
    if m > i + 1 {
      RowPairsMembers(cs, i, m - 1, j);
    }
  }

  lemma PairsBeforeMembers(cs: seq<Section>, n: nat, i: nat, j: nat)
    requires n <= |cs|
    ensures (i, j) in PairsBefore(cs, n) <==> i < n && i < j < |cs| && ConflictAt(cs, i, j)
  {
    PairsBeforeRows(cs, n, (i, j));
    if i < n {
      RowPairsMembers(cs, i, |cs|, j);
    }
  }

  /** The pairs of the rows before n are the pairs of row p.0, for p.0 below n. */
  lemma {:induction false} PairsBeforeRows(cs: seq<Section>, n: nat, p: (nat, nat))
    requires n <= |cs|
    ensures p in PairsBefore(cs, n) <==> p.0 < n && p in RowPairs(cs, p.0, |cs|)
    decreases n
  {
    if n > 0 {
      var a := PairsBefore(cs, n - 1);
      var b := RowPairs(cs, n - 1, |cs|);
      assert PairsBefore(cs, n) == a + b;
      if p.0 == n - 1 {
        NotInEarlierRows(cs, n - 1, p);
        InRight(a, b, p);
      } else {
        NotInOtherRow(cs, n - 1, p);
        InLeft(a, b, p);
        PairsBeforeRows(cs, n - 1, p);
      }
    }
  }

  lemma InLeft<T>(a: seq<T>, b: seq<T>, x: T)
    requires x !in b
    ensures x in a + b <==> x in a
  {
  }

  lemma InRight<T>(a: seq<T>, b: seq<T>, x: T)
    requires x !in a
    ensures x in a + b <==> x in b
  {
  }

  /** The rows before n hold no pair whose first index is n or more. */
  lemma NotInEarlierRows(cs: seq<Section>, n: nat, p: (nat, nat))
    requires n <= |cs| && p.0 >= n
    ensures p !in PairsBefore(cs, n)
  {
    PairsBeforeShape(cs, n);
  }

  /** Row r holds no pair whose first index is not r. */
  lemma NotInOtherRow(cs: seq<Section>, r: nat, p: (nat, nat))
    requires r < |cs| && p.0 != r
    ensures p !in RowPairs(cs, r, |cs|)
  {
    RowPairsShape(cs, r, |cs|);
  }

  /** A pair is reported exactly when i < j, both have a meeting time, they share a day and overlap. */
  lemma ConflictPairsMembers(cs: seq<Section>, i: nat, j: nat)
    ensures (i, j) in ConflictPairs(cs) <==> i < j < |cs| && ConflictAt(cs, i, j)
  {
    PairsBeforeMembers(cs, |cs|, i, j);
  }

  predicate LexBefore(p: (nat, nat), q: (nat, nat)) {
    p.0 < q.0 || (p.0 == q.0 && p.1 < q.1)
  }

  predicate LexSorted(ps: seq<(nat, nat)>) {
    forall a, b :: 0 <= a < b < |ps| ==> LexBefore(ps[a], ps[b])
  }

  lemma {:induction false} RowPairsSorted(cs: seq<Section>, i: nat, m: nat)
    requires i < |cs| && m <= |cs|
    ensures LexSorted(RowPairs(cs, i, m))
    decreases m
  {
    if m > i + 1 {
      RowPairsSorted(cs, i, m - 1);
      RowPairsShape(cs, i, m - 1);
      var p := RowPairs(cs, i, m - 1);
      var q := RowPairs(cs, i, m);
      forall x, y | 0 <= x < y < |q| ensures LexBefore(q[x], q[y]) {
        assert q[x] == p[x];
        if y < |p| {
          assert q[y] == p[y];
        } else {
          assert q[y] == (i, m - 1);
        }
      }
    }
  }

  /** A sorted list of rows before r, followed by a sorted row r, is sorted. */
  lemma SortedConcat(a: seq<(nat, nat)>, b: seq<(nat, nat)>, r: nat, m: nat)
    requires LexSorted(a) && LexSorted(b)
    requires FirstBelow(a, r) && InRow(b, r, m)
    ensures LexSorted(a + b)
  {
    var ps := a + b;
    forall x, y | 0 <= x < y < |ps| ensures LexBefore(ps[x], ps[y]) {
      if y < |a| {
        assert ps[x] == a[x] && ps[y] == a[y];
      } else if x >= |a| {
        assert ps[x] == b[x - |a|] && ps[y] == b[y - |a|];
      } else {
        assert ps[x] == a[x] && ps[y] == b[y - |a|];
      }
    }
  }

  lemma {:induction false} PairsBeforeSorted(cs: seq<Section>, n: nat)
    requires n <= |cs|
    ensures LexSorted(PairsBefore(cs, n))
    decreases n
  {
    if n > 0 {
      var a := PairsBefore(cs, n - 1);
      var b := RowPairs(cs, n - 1, |cs|);
      PairsBeforeSorted(cs, n - 1);
      RowPairsSorted(cs, n - 1, |cs|);
      PairsBeforeShape(cs, n - 1);
      RowPairsShape(cs, n - 1, |cs|);
      SortedConcat(a, b, n - 1, |cs|);
      assert PairsBefore(cs, n) == a + b;
    }
  }

  /** Conflicts are listed by the first section's index, then by the second's. */
  lemma ConflictPairsSorted(cs: seq<Section>)
    ensures LexSorted(ConflictPairs(cs))
  {
    PairsBeforeSorted(cs, |cs|);
  }

  lemma {:induction false} RecordsAt(cs: seq<Section>, ps: seq<(nat, nat)>, k: nat)
    requires ValidPairs(cs, ps) && k < |ps|
    ensures Timed(cs, ps[k]) && Records(cs, ps)[k] == Record(cs, ps[k].0, ps[k].1)
    decreases |ps|
  {
    if k < |ps| - 1 {
      RecordsAt(cs, ps[..|ps| - 1], k);
      assert ps[..|ps| - 1][k] == ps[k];
    }
  }

  /** A section without a meeting time is in no reported conflict, on either side. */
  lemma UntimedNeverConflicts(cs: seq<Section>, k: nat)
    requires k < |cs| && cs[k].timeData.None?
    ensures forall p :: p in ConflictPairs(cs) ==> p.0 != k && p.1 != k
  {
    forall p | p in ConflictPairs(cs) ensures p.0 != k && p.1 != k {
      ConflictPairsMembers(cs, p.0, p.1);
    }
  }

  /** Back-to-back meetings (one ends when the other starts) do not overlap, whatever their days. */
  lemma BackToBackNoOverlap(t1: TimeData, t2: TimeData)
    requires t1.endMinutes == t2.startMinutes
    ensures !Overlaps(t1, t2) && !Overlaps(t2, t1)
  {
  }

  /** Meetings on disjoint sets of days do not overlap, whatever their hours. */
  lemma DisjointDaysNoOverlap(t1: TimeData, t2: TimeData)
    requires forall a, b :: 0 <= a < |t1.days| && 0 <= b < |t2.days| ==> t1.days[a] != t2.days[b]
    ensures !Overlaps(t1, t2)
  {
    SharesDayWitness(t1.days, t2.days);
  }

  /** Overlap does not depend on which of the two meetings comes first. */
  lemma OverlapsSymmetric(t1: TimeData, t2: TimeData)
    ensures Overlaps(t1, t2) <==> Overlaps(t2, t1)
  {
    SharedDaysNonEmpty(t1, t2);
    SharedDaysNonEmpty(t2, t1);
    assert DaySet(t1) * DaySet(t2) == DaySet(t2) * DaySet(t1);
  }

  /** Two overlapping sections give one conflict, for the pair (0, 1), and one record. */
  lemma TwoSectionsConflict(cs: seq<Section>)
    requires |cs| == 2 && cs[0].timeData.Some? && cs[1].timeData.Some?
    requires Overlaps(cs[0].timeData.value, cs[1].timeData.value)
    ensures ConflictPairs(cs) == [(0, 1)]
    ensures Records(cs, ConflictPairs(cs)) == [Record(cs, 0, 1)]
  {
    assert RowPairs(cs, 1, 2) == [];
    assert RowPairs(cs, 0, 2) == [] + [(0, 1)];
    assert PairsBefore(cs, 1) == [] + [(0, 1)];
    assert PairsBefore(cs, 2) == [(0, 1)] + [];
    assert ValidPairs(cs, [(0, 1)]) by {
      assert [(0, 1)][..0] == [];
    }
    assert Records(cs, [(0, 1)]) == Records(cs, []) + [Record(cs, 0, 1)] by {
      assert [(0, 1)][..0] == [];
    }
  }

  /** M W 8:30-10:45 and M W 10:30-11:40 overlap, on Monday and Wednesday. */
  lemma MorningOverlapDays(t1: TimeData, t2: TimeData)
    requires t1.days == ['M', 'W'] && t1.startMinutes == 510 && t1.endMinutes == 645
    requires t2.days == ['M', 'W'] && t2.startMinutes == 630 && t2.endMinutes == 700
    ensures Overlaps(t1, t2)
    ensures DaySet(t1) * DaySet(t2) == {'M', 'W'}
  {
    assert t1.days[0] == 'M' && t1.days[1] == 'W';
    assert DaySet(t1) == {'M', 'W'};
    assert DaySet(t2) == {'M', 'W'};
    SharedDaysNonEmpty(t1, t2);
  }

  /** The example: two sections meeting M W at 510-645 and 630-700 give one record, for {M, W}. */
  lemma MorningConflictExample(cs: seq<Section>)
    requires |cs| == 2 && cs[0].timeData.Some? && cs[1].timeData.Some?
    requires var t1 := cs[0].timeData.value;
      t1.days == ['M', 'W'] && t1.startMinutes == 510 && t1.endMinutes == 645
    requires var t2 := cs[1].timeData.value;
      t2.days == ['M', 'W'] && t2.startMinutes == 630 && t2.endMinutes == 700
    ensures ConflictPairs(cs) == [(0, 1)]
    ensures |Records(cs, ConflictPairs(cs))| == 1
    ensures Records(cs, ConflictPairs(cs))[0].conflictingDays == {'M', 'W'}
    ensures Records(cs, ConflictPairs(cs))[0].course1 == Ref(cs[0])
    ensures Records(cs, ConflictPairs(cs))[0].course2 == Ref(cs[1])
  {
    MorningOverlapDays(cs[0].timeData.value, cs[1].timeData.value);
    TwoSectionsConflict(cs);
  }
}
