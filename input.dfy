/**
 * parse_course_input (scraper_module.py): a course typed as "MATH 1A" becomes the pair
 * (department, course code), upper-cased, with the code's words joined by single spaces.
 */
module CourseInput {
  import opened Text
  import opened Wrappers

  /** The (department, course_code) pair, or None for the source's (None, None). */
  function ParseCourseInput(input: string): (r: Option<(string, string)>)
    ensures r.Some? ==> IsWord(r.value.0) && r.value.1 != []
  {
    var parts := Words(Upper(Strip(input)));
    if |parts| < 2 then None else Some((parts[0], Join(parts[1..], " ")))
  }

  /** s is left unchanged by upper-casing. */
  predicate UpperFixed(s: string) {
    forall i :: 0 <= i < |s| ==> UpperChar(s[i]) == s[i]
  }

  lemma UpperOfUpperFixed(s: string)
    requires UpperFixed(s)
    ensures Upper(s) == s
  {
  }

  lemma UpperIsUpperFixed(s: string)
    ensures UpperFixed(Upper(s))
  {
  }

  /** Every character of a word of s is a character of s. */
  lemma {:induction false} WordsChars(s: string, k: nat, i: nat)
    requires k < |Words(s)| && i < |Words(s)[k]|
    ensures Words(s)[k][i] in s
    decreases |s|
  {
    if IsSpace(s[0]) {
      WordsChars(s[1..], k, i);
    } else if k > 0 {
      var n := NonSpaceRun(s);
      WordsChars(s[n..], k - 1, i);
    }
  }

  lemma WordsOfUpperFixed(s: string, k: nat)
    requires UpperFixed(s) && k < |Words(s)|
    ensures UpperFixed(Words(s)[k])
  {
    forall i | 0 <= i < |Words(s)[k]| ensures UpperChar(Words(s)[k][i]) == Words(s)[k][i] {
      WordsChars(s, k, i);
    }
  }

  lemma {:induction false} JoinUpperFixed(ws: seq<string>)
    requires forall k :: 0 <= k < |ws| ==> UpperFixed(ws[k])
    ensures UpperFixed(Join(ws, " "))
    decreases |ws|
  {
    if |ws| > 1 {
      JoinUpperFixed(ws[1..]);
    }
  }

  /** The words joined by single spaces start and end with a character of a word. */
  lemma {:induction false} JoinEnds(ws: seq<string>)
    requires |ws| >= 1 && forall k :: 0 <= k < |ws| ==> IsWord(ws[k])
    ensures var s := Join(ws, " "); s != [] && !IsSpace(s[0]) && !IsSpace(s[|s| - 1])
    decreases |ws|
  {
    if |ws| > 1 {
      JoinEnds(ws[1..]);
      var rest := Join(ws[1..], " ");
      assert Join(ws, " ") == ws[0] + " " + rest;
    }
  }

  /** The department and the course code, as parse_course_input expects them to be typed. */
  function CourseText(department: string, code: seq<string>): string {
    department + " " + Join(code, " ")
  }

  /**
   * Round trip: typing an upper-case department and the words of an upper-case course code,
   * separated by single spaces, parses back to the department and the code.
   */
  lemma ParseCourseInputRoundTrip(department: string, code: seq<string>)
    requires IsWord(department) && UpperFixed(department)
    requires |code| >= 1 && forall k :: 0 <= k < |code| ==> IsWord(code[k]) && UpperFixed(code[k])
    ensures ParseCourseInput(CourseText(department, code)) == Some((department, Join(code, " ")))
  {
    var ws := [department] + code;
    assert ws[1..] == code;
    assert Join(ws, " ") == CourseText(department, code);
    JoinEnds(ws);
    StripUnchanged(Join(ws, " "));
    JoinUpperFixed(ws);
    UpperOfUpperFixed(Join(ws, " "));
    WordsOfJoin(ws);
  }

  /** Parsing is idempotent: printing a parsed course as "DEPT CODE" and parsing it again gives the same pair. */
  lemma ParseCourseInputIdempotent(input: string)
    requires ParseCourseInput(input).Some?
    ensures var r := ParseCourseInput(input).value; ParseCourseInput(r.0 + " " + r.1) == Some(r)
  {
    var t := Upper(Strip(input));
    var parts := Words(t);
    UpperIsUpperFixed(Strip(input));
    forall k | 0 <= k < |parts| ensures IsWord(parts[k]) && UpperFixed(parts[k]) {
      WordsOfUpperFixed(t, k);
    }
    ParseCourseInputRoundTrip(parts[0], parts[1..]);
  }

  /** Input with fewer than two words is refused. */
  lemma ParseCourseInputOneWord(w: string)
    requires IsWord(w)
    ensures ParseCourseInput(w) == None
  {
    assert Join([w], " ") == w;
    StripUnchanged(w);
    UpperIsUpperFixed(w);
    assert |Words(Upper(w))| == 1 by {
      var u := Upper(w);
      assert IsWord(u);
      assert Join([u], " ") == u;
      WordsOfJoin([u]);
    }
  }

  /** Leading whitespace does not change the words. */
  lemma {:induction false} WordsAfterSpaces(p: string, t: string)
    requires forall i :: 0 <= i < |p| ==> IsSpace(p[i])
    ensures Words(p + t) == Words(t)
    decreases |p|
  {
    if p != [] {
      assert (p + t)[1..] == p[1..] + t;
      WordsAfterSpaces(p[1..], t);
    } else {
      assert p + t == t;
    }
  }

  lemma {:induction false} NonSpaceRunBeforeSpaces(t: string, q: string)
    requires forall i :: 0 <= i < |q| ==> IsSpace(q[i])
    ensures NonSpaceRun(t + q) == NonSpaceRun(t)
    decreases |t|
  {
    if t == [] {
      assert t + q == q;
    } else if !IsSpace(t[0]) {
      assert (t + q)[1..] == t[1..] + q;
      NonSpaceRunBeforeSpaces(t[1..], q);
    }
  }

  /** Trailing whitespace does not change the words. */
  lemma {:induction false} WordsBeforeSpaces(t: string, q: string)
    requires forall i :: 0 <= i < |q| ==> IsSpace(q[i])
    ensures Words(t + q) == Words(t)
    decreases |t|
  {
    if t == [] {
      assert t + q == q + [];
      WordsAfterSpaces(q, []);
    } else if IsSpace(t[0]) {
      assert (t + q)[1..] == t[1..] + q;
      WordsBeforeSpaces(t[1..], q);
    } else {
      var n := NonSpaceRun(t);
      NonSpaceRunBeforeSpaces(t, q);
      assert (t + q)[..n] == t[..n];
      assert (t + q)[n..] == t[n..] + q;
      WordsBeforeSpaces(t[n..], q);
    }
  }

  /** str.split() ignores the whitespace str.strip() removes. */
  lemma WordsOfStrip(s: string)
    ensures Words(Strip(s)) == Words(s)
  {
    var a, b := StripShape(s);
    assert s == s[..a] + (s[a..b] + s[b..]);
    WordsAfterSpaces(s[..a], s[a..b] + s[b..]);
    WordsBeforeSpaces(s[a..b], s[b..]);
  }

  /** Upper-casing maps whitespace to whitespace and nothing else to it, so the words are upper-cased one by one. */
  lemma {:induction false} WordsOfUpper(s: string)
    ensures |Words(Upper(s))| == |Words(s)|
    ensures Words(Upper(s)) == UpperWords(Words(s))
    decreases |s|
  {
    if s != [] {
      var u := Upper(s);
      assert u[1..] == Upper(s[1..]);
      if IsSpace(s[0]) {
        WordsOfUpper(s[1..]);
      } else {
        var n := NonSpaceRun(s);
        NonSpaceRunOfUpper(s);
        assert u[n..] == Upper(s[n..]);
        assert u[..n] == Upper(s[..n]);
        WordsOfUpper(s[n..]);
        UpperWordsCons(s[..n], Words(s[n..]));
      }
    }
  }

  /** Each word upper-cased. */
  function UpperWords(ws: seq<string>): (us: seq<string>)
    ensures |us| == |ws|
  {
    seq(|ws|, k requires 0 <= k < |ws| => Upper(ws[k]))
  }

  lemma UpperWordsCons(w: string, ws: seq<string>)
    ensures UpperWords([w] + ws) == [Upper(w)] + UpperWords(ws)
  {
  }

  /**
   * For every input: refused when it has fewer than two words; otherwise the department is
   * its first word upper-cased and the course code is the remaining words upper-cased and
   * joined by single spaces.
   */
  lemma ParseCourseInputParts(input: string)
    ensures var ws := Words(input);
      && (ParseCourseInput(input).None? <==> |ws| < 2)
      && (ParseCourseInput(input).Some? ==>
            && ParseCourseInput(input).value.0 == Upper(ws[0])
            && ParseCourseInput(input).value.1 == Join(UpperWords(ws[1..]), " "))
  {
    WordsOfStrip(input);
    WordsOfUpper(Strip(input));
    var ws := Words(input);
    if |ws| >= 2 {
      assert UpperWords(ws)[1..] == UpperWords(ws[1..]);
    }
  }

  lemma {:induction false} NonSpaceRunOfUpper(s: string)
    ensures NonSpaceRun(Upper(s)) == NonSpaceRun(s)
    decreases |s|
  {
    if s != [] {
      assert Upper(s)[1..] == Upper(s[1..]);
      NonSpaceRunOfUpper(s[1..]);
    }
  }

  /** The input is refused exactly when it holds fewer than two whitespace-separated words. */
  lemma ParseCourseInputNone(input: string)
    ensures ParseCourseInput(input) == None <==> |Words(input)| < 2
  {
    WordsOfStrip(input);
    WordsOfUpper(Strip(input));
  }
}
