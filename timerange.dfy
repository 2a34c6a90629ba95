/**
 * The time-range pattern shared by the scraper (scraper_module.py:17) and the scheduler
 * (models.py:52), (\d{1,2}:\d{2}\s*[AP]M)\s*-\s*(\d{1,2}:\d{2}\s*[AP]M) under re.I, and the
 * 12-hour clock conversion datetime.strptime(_, '%I:%M %p') applied to its groups.
 *
 * At a given start position the pattern can match in at most one way (a one-digit hour is
 * followed by ':', a two-digit one by a digit; every \s* is followed by a non-space), so it
 * is modelled as a deterministic matcher, and re.search as the leftmost start that matches.
 */
module TimeRanges {
  import opened Text
  import opened Wrappers

  /** Number of whitespace characters in s from index i on, up to the first other character. */
  function SpaceRun(s: string, i: nat): (n: nat)
    requires i <= |s|
    ensures i + n <= |s|
    ensures forall k :: i <= k < i + n ==> IsSpace(s[k])
    ensures i + n < |s| ==> !IsSpace(s[i + n])
    decreases |s| - i
  {
    if i < |s| && IsSpace(s[i]) then 1 + SpaceRun(s, i + 1) else 0
  }

  /** [AP] under re.I */
  predicate IsMeridiemLetter(c: char) { c == 'A' || c == 'a' || c == 'P' || c == 'p' }

  /** M under re.I */
  predicate IsM(c: char) { c == 'M' || c == 'm' }

  /** Where the colon of a clock starting at i stands: after one digit or after two. */
  function ColonAt(s: string, i: nat): nat
    requires i < |s|
  {
    if i + 1 < |s| && IsDigit(s[i + 1]) then i + 2 else i + 1
  }

  /** The end of the match of \d{1,2}:\d{2}\s*[AP]M (any case) that starts at i, if there is one. */
  function ClockAt(s: string, i: nat): (e: Option<nat>)
    ensures e.Some? ==> i + 6 <= e.value <= |s|
  {
    if i < |s| && IsDigit(s[i]) then
      var j := ColonAt(s, i);
      if j + 3 <= |s| && s[j] == ':' && IsDigit(s[j + 1]) && IsDigit(s[j + 2]) then
        var k := j + 3 + SpaceRun(s, j + 3);
        if k + 2 <= |s| && IsMeridiemLetter(s[k]) && IsM(s[k + 1]) then Some(k + 2) else None
      else None
    else None
  }

  /** The bounds of one capture group. */
  datatype Span = Span(start: nat, end: nat)

  /** A match of the time-range pattern: its two groups, the start clock and the end clock. */
  datatype RangeMatch = RangeMatch(first: Span, second: Span)

  /** The groups lie in order inside s, and each is exactly a clock. */
  predicate WellPlaced(s: string, m: RangeMatch) {
    && m.first.start < m.first.end <= m.second.start < m.second.end <= |s|
    && ClockAt(s, m.first.start) == Some(m.first.end)
    && ClockAt(s, m.second.start) == Some(m.second.end)
  }

  /** The match of the time-range pattern that starts at i, if there is one. */
  function RangeAt(s: string, i: nat): (m: Option<RangeMatch>)
    ensures m.Some? ==> m.value.first.start == i && WellPlaced(s, m.value)
  {
    match ClockAt(s, i)
    case None => None
    case Some(e1) =>
      var k := e1 + SpaceRun(s, e1);
      if k < |s| && s[k] == '-' then
        var j := k + 1 + SpaceRun(s, k + 1);
        match ClockAt(s, j)
        case None => None
        case Some(e2) => Some(RangeMatch(Span(i, e1), Span(j, e2)))
      else None
  }

  /** group(1): the start clock of a match, a clock on its own that strip() leaves as it is. */
  function StartGroup(s: string, m: RangeMatch): (c: string)
    requires WellPlaced(s, m)
    ensures ClockAt(c, 0) == Some(|c|) && Strip(c) == c
  {
    ClockSlice(s, m.first.start, m.first.end);
    s[m.first.start..m.first.end]
  }

  /** group(2): the end clock of a match. */
  function EndGroup(s: string, m: RangeMatch): (c: string)
    requires WellPlaced(s, m)
    ensures ClockAt(c, 0) == Some(|c|) && Strip(c) == c
  {
    ClockSlice(s, m.second.start, m.second.end);
    s[m.second.start..m.second.end]
  }

  /** re.search from index k: the leftmost match starting at k or later. */
  function SearchFrom(s: string, k: nat): (m: Option<RangeMatch>)
    ensures m.Some? ==> k <= m.value.first.start && RangeAt(s, m.value.first.start) == m
    ensures m.Some? ==> forall i :: k <= i < m.value.first.start ==> RangeAt(s, i).None?
    ensures m.None? ==> forall i :: k <= i ==> RangeAt(s, i).None?
    decreases |s| - k
  {
    if k >= |s| then
      NoRangeBeyond(s, k);
      None
    else
      var here := RangeAt(s, k);
      if here.Some? then here
      else
        var later := SearchFrom(s, k + 1);
        assert later.Some? ==> forall i :: k <= i < later.value.first.start ==> RangeAt(s, i).None? by {
          if later.Some? {
            forall i | k <= i < later.value.first.start ensures RangeAt(s, i).None? {
              if i == k {
                assert RangeAt(s, i) == here;
              }
            }
          }
        }
        assert later.None? ==> forall i :: k <= i ==> RangeAt(s, i).None? by {
          if later.None? {
            forall i | k <= i ensures RangeAt(s, i).None? {
              if i == k {
                assert RangeAt(s, i) == here;
              }
            }
          }
        }
        later
  }

  lemma NoRangeBeyond(s: string, k: nat)
    requires k >= |s|
    ensures forall i :: k <= i ==> RangeAt(s, i).None?
  {
    forall i | k <= i ensures RangeAt(s, i).None? {
      assert ClockAt(s, i).None?;
    }
  }

  /** re.search over the whole string. */
  function Search(s: string): Option<RangeMatch> {
    SearchFrom(s, 0)
  }

  // ---------------------------------------------------------------------------------
  // strptime(_, '%I:%M %p')
  // ---------------------------------------------------------------------------------

  function DigitValue(c: char): nat
    requires IsDigit(c)
  {
    c as int - '0' as int
  }

  /**
   * The directive %I, whose pattern is 1[0-2]|0[1-9]|[1-9], at the start of c: the hour
   * and the number of characters it takes. Taking a shorter alternative after a longer one
   * failed later would leave a digit where ':' is needed, so the first alternative that
   * matches is the only candidate.
   */
  function HourField(c: string): (r: Option<(nat, nat)>)
    ensures r.Some? ==> 1 <= r.value.0 <= 12 && 1 <= r.value.1 <= 2 && r.value.1 <= |c|
  {
    if |c| >= 2 && c[0] == '1' && '0' <= c[1] <= '2' then Some((10 + DigitValue(c[1]), 2))
    else if |c| >= 2 && c[0] == '0' && '1' <= c[1] <= '9' then Some((DigitValue(c[1]), 2))
    else if |c| >= 1 && '1' <= c[0] <= '9' then Some((DigitValue(c[0]), 1))
    else None
  }

  /** The directive %M, whose pattern is [0-5]\d|\d, at index p of c. */
  function MinuteField(c: string, p: nat): (r: Option<(nat, nat)>)
    ensures r.Some? ==> r.value.0 <= 59 && 1 <= r.value.1 <= 2 && p + r.value.1 <= |c|
  {
    if p + 1 < |c| && '0' <= c[p] <= '5' && IsDigit(c[p + 1]) then Some((10 * DigitValue(c[p]) + DigitValue(c[p + 1]), 2))
    else if p < |c| && IsDigit(c[p]) then Some((DigitValue(c[p]), 1))
    else None
  }

  /**
   * datetime.strptime(c, '%I:%M %p') as minutes after midnight, or None where it raises
   * ValueError. The space of the format stands for one or more whitespace characters,
   * %p accepts AM or PM in any case, and the whole of c must be consumed.
   */
  function StrptimeMinutes(c: string): (r: Option<nat>)
    ensures r.Some? ==> r.value < 1440
  {
    match HourField(c)
    case None => None
    case Some((h, hl)) =>
      if hl < |c| && c[hl] == ':' then
        match MinuteField(c, hl + 1)
        case None => None
        case Some((m, ml)) =>
          var p := hl + 1 + ml;
          var n := SpaceRun(c, p);
          if n >= 1 && p + n + 2 == |c| && IsMeridiemLetter(c[p + n]) && IsM(c[p + n + 1]) then
            var pm := c[p + n] == 'P' || c[p + n] == 'p';
            Some((h % 12 + (if pm then 12 else 0)) * 60 + m)
          else None
      else None
  }

  /** The hour written in a clock that the range pattern matched, read as a number. */
  function ClockHour(c: string): nat
    requires ClockAt(c, 0).Some?
  {
    if ColonAt(c, 0) == 2 then 10 * DigitValue(c[0]) + DigitValue(c[1]) else DigitValue(c[0])
  }

  /** The two minute digits of a clock that the range pattern matched, read as a number. */
  function ClockMinute(c: string): nat
    requires ClockAt(c, 0).Some?
  {
    var j := ColonAt(c, 0);
    10 * DigitValue(c[j + 1]) + DigitValue(c[j + 2])
  }

  /** The clock reads PM. */
  predicate ClockPm(c: string)
    requires ClockAt(c, 0).Some?
  {
    c[|c| - 2] == 'P' || c[|c| - 2] == 'p'
  }

  /** The clock is one strptime accepts: hour 1-12, minute 0-59, whitespace before AM/PM. */
  predicate ClockOk(c: string)
    requires ClockAt(c, 0).Some?
  {
    1 <= ClockHour(c) <= 12 && ClockMinute(c) <= 59 && IsSpace(c[ColonAt(c, 0) + 3])
  }

  /** Minutes after midnight that a clock reads on the 12-hour dial. */
  function ClockValue(c: string): nat
    requires ClockAt(c, 0).Some?
  {
    (ClockHour(c) % 12 + (if ClockPm(c) then 12 else 0)) * 60 + ClockMinute(c)
  }

  lemma {:induction false} SpaceRunSlice(s: string, a: nat, e: nat, p: nat)
    requires a + p <= e <= |s| && a + p + SpaceRun(s, a + p) < e
    ensures SpaceRun(s[a..e], p) == SpaceRun(s, a + p)
    decreases e - a - p
  {
    if IsSpace(s[a + p]) {
      SpaceRunSlice(s, a, e, p + 1);
    }
  }

  /** A clock found inside a longer string is a clock on its own, and strip() leaves it as it is. */
  lemma ClockSlice(s: string, a: nat, e: nat)
    requires ClockAt(s, a) == Some(e)
    ensures ClockAt(s[a..e], 0) == Some(e - a)
    ensures Strip(s[a..e]) == s[a..e]
  {
    var c := s[a..e];
    var j := ColonAt(s, a);
    assert ColonAt(c, 0) == j - a;
    var k := j + 3 + SpaceRun(s, j + 3);
    assert k + 2 == e;
    SpaceRunSlice(s, a, e, j - a + 3);
    StripUnchanged(c);
  }

  /**
   * On exactly the strings the range pattern takes as a clock, strptime succeeds when the
   * hour is 1-12, the minute 0-59 and some whitespace separates the minute from AM/PM; it
   * then gives 12 AM as 0 and 12 PM as 720.
   */
  lemma StrptimeOnClock(c: string)
    requires ClockAt(c, 0) == Some(|c|)
    ensures StrptimeMinutes(c).Some? <==>
      1 <= ClockHour(c) <= 12 && ClockMinute(c) <= 59 && IsSpace(c[ColonAt(c, 0) + 3])
    ensures StrptimeMinutes(c).Some? ==>
      StrptimeMinutes(c).value == (ClockHour(c) % 12 + (if ClockPm(c) then 12 else 0)) * 60 + ClockMinute(c)
  {
    var j := ColonAt(c, 0);
    var k := j + 3 + SpaceRun(c, j + 3);
    assert k + 2 == |c|;
    if 1 <= ClockHour(c) <= 12 {
      assert HourField(c) == Some((ClockHour(c), j));
      if ClockMinute(c) <= 59 {
        assert MinuteField(c, j + 1) == Some((ClockMinute(c), 2));
      } else {
        assert MinuteField(c, j + 1) == Some((DigitValue(c[j + 1]), 1));
        assert SpaceRun(c, j + 2) == 0;
      }
    } else if HourField(c).Some? {
      var hl := HourField(c).value.1;
      assert hl < |c| && c[hl] != ':';
    }
  }

  /** strptime on a matched clock, in terms of ClockOk and ClockValue. */
  lemma ReadClock(c: string)
    requires ClockAt(c, 0) == Some(|c|)
    ensures StrptimeMinutes(c) == (if ClockOk(c) then Some(ClockValue(c)) else None)
  {
    StrptimeOnClock(c);
  }

  /** A clock written without whitespace before AM/PM, such as "8:30AM", is matched by the range pattern but refused by strptime. */
  lemma CompactMeridiemRefused(c: string)
    requires ClockAt(c, 0) == Some(|c|) && !IsSpace(c[ColonAt(c, 0) + 3])
    ensures StrptimeMinutes(c).None?
  {
    StrptimeOnClock(c);
  }

  // ---------------------------------------------------------------------------------
  // The clock format as the listings print it, and its round trip
  // ---------------------------------------------------------------------------------

  function DigitChar(d: nat): (c: char)
    requires d < 10
    ensures IsDigit(c) && DigitValue(c) == d
  {
    ('0' as int + d) as char
  }

  function TwoDigits(n: nat): string
    requires n < 100
  {
    [DigitChar(n / 10), DigitChar(n % 10)]
  }

  /** A minute of the day written as "hh:mm AM" or "hh:mm PM", the form the listings use. */
  function FormatClock(t: nat): (c: string)
    requires t < 1440
    ensures |c| == 8
  {
    var h24 := t / 60;
    var h12 := if h24 % 12 == 0 then 12 else h24 % 12;
    TwoDigits(h12) + ":" + TwoDigits(t % 60) + " " + (if h24 >= 12 then "PM" else "AM")
  }

  /** Every minute of the day written as a clock is taken by the range pattern and read back by strptime unchanged. */
  lemma FormatClockRoundTrip(t: nat)
    requires t < 1440
    ensures ClockAt(FormatClock(t), 0) == Some(8)
    ensures StrptimeMinutes(FormatClock(t)) == Some(t)
  {
    var c := FormatClock(t);
    var h24 := t / 60;
    var h12 := if h24 % 12 == 0 then 12 else h24 % 12;
    assert c[2] == ':' && c[5] == ' ';
    assert IsDigit(c[0]) && IsDigit(c[1]) && IsDigit(c[3]) && IsDigit(c[4]);
    assert ColonAt(c, 0) == 2;
    assert SpaceRun(c, 5) == 1 by {
      assert SpaceRun(c, 6) == 0;
    }
    assert HourField(c) == Some((h12, 2));
    assert MinuteField(c, 3) == Some((t % 60, 2));
    assert h12 % 12 + (if h24 >= 12 then 12 else 0) == h24;
  }
}
