/**
 * Name normalisation and strict name matching (scraper_module.py: normalize_name and
 * match_professor_name_strict). A display name becomes a list of lower-case tokens of at
 * least two characters; two names match when their first and last tokens agree, directly
 * or crosswise ("Last, First" order).
 */
module Names {
  import opened Text
  import opened Sequences

  /** Index of the first occurrence of c in s. */
  function FirstIndexOf(s: string, c: char): (k: nat)
    requires c in s
    ensures k < |s| && s[k] == c
    ensures forall i :: 0 <= i < k ==> s[i] != c
  {
    if s[0] == c then 0 else 1 + FirstIndexOf(s[1..], c)
  }

  /**
   * re.sub(r'\([^)]*\)', '', name): every '(' that has a ')' somewhere after it is removed
   * together with everything up to and including the first such ')'. Whatever '(' is left
   * has no ')' after it.
   */
  function StripParens(s: string): (r: string)
    ensures forall c :: c in r ==> c in s
    ensures '(' !in s ==> r == s
    ensures forall i, j :: 0 <= i < j < |r| && r[i] == '(' ==> r[j] != ')'
    decreases |s|
  {
    if s == [] then []
    else if s[0] == '(' && ')' in s[1..] then StripParens(s[FirstIndexOf(s[1..], ')') + 2..])
    else [s[0]] + StripParens(s[1..])
  }

  /** re.sub(r'\.([A-Z])', r' \1', s): a period directly before a capital becomes a space. */
  function SplitGluedInitials(s: string): string {
    seq(|s|, i requires 0 <= i < |s| => if s[i] == '.' && i + 1 < |s| && IsUpper(s[i + 1]) then ' ' else s[i])
  }

  /** Length of the longest prefix of s holding no capital letter. */
  function NonUpperRun(s: string): (n: nat)
    ensures n <= |s|
    ensures forall i :: 0 <= i < n ==> !IsUpper(s[i])
    ensures n < |s| ==> IsUpper(s[n])
  {
    if s == [] || IsUpper(s[0]) then 0 else 1 + NonUpperRun(s[1..])
  }

  /** Length of the longest prefix of s made of the letters a-z. */
  function LowerRun(s: string): (n: nat)
    ensures n <= |s|
    ensures forall i :: 0 <= i < n ==> IsLower(s[i])
    ensures n < |s| ==> !IsLower(s[n])
  {
    if s == [] || !IsLower(s[0]) then 0 else 1 + LowerRun(s[1..])
  }

  /** One match of [A-Z][^A-Z]*: a capital followed by no other capital. */
  predicate IsPiece(p: string) {
    |p| >= 1 && IsUpper(p[0]) && forall i :: 1 <= i < |p| ==> !IsUpper(p[i])
  }

  /**
   * re.findall(r'[A-Z][^A-Z]*', s): one piece per capital letter, running up to the next
   * capital; whatever precedes the first capital belongs to no piece.
   */
  function CapitalPieces(s: string): (ps: seq<string>)
    ensures forall k :: 0 <= k < |ps| ==> IsPiece(ps[k])
    decreases |s|
  {
    if s == [] then []
    else if !IsUpper(s[0]) then CapitalPieces(s[1..])
    else
      var n := 1 + NonUpperRun(s[1..]);
      [s[..n]] + CapitalPieces(s[n..])
  }

  /** The surname prefixes that are glued to the piece after them (lines 56 and 81). */
  const SpecialPrefixes: seq<string> := ["Mc", "Mac", "O'", "De", "Van", "Von", "La", "Le", "St", "Saint"]

  /**
   * What the merging loops of lines 57-68 and 82-90 compute: a special prefix is glued to
   * the piece after it, when there is one. Merging never more than halves the count.
   */
  function MergePrefixes(ps: seq<string>): (ms: seq<string>)
    ensures |ms| <= |ps| <= 2 * |ms|
    decreases |ps|
  {
    if |ps| == 0 then []
    else if ps[0] in SpecialPrefixes && |ps| >= 2 then [ps[0] + ps[1]] + MergePrefixes(ps[2..])
    else [ps[0]] + MergePrefixes(ps[1..])
  }

  /** The re-split of a name that has no whitespace in it (lines 44-93). */
  function SplitSingle(tok: string): seq<string>
    requires IsWord(tok)
  {
    var pieces := CapitalPieces(tok);
    if |pieces| >= 2 then MergePrefixes(pieces)
    else if |pieces| == 1 then
      // re.match(r'^([a-z]+)([A-Z].*)', tok); '.*' runs to the end because tok has no newline
      var k := LowerRun(tok);
      if 1 <= k < |tok| && IsUpper(tok[k]) then
        var first, rest := tok[..k], tok[k..];
        var restPieces := CapitalPieces(rest);
        if |restPieces| >= 2 then [first] + MergePrefixes(restPieces) else [first, rest]
      else [tok]
    else [tok]
  }

  /** What normalize_name promises of each token it returns. */
  predicate WellFormedToken(t: string) {
    |t| >= 2 && '.' !in t && forall i :: 0 <= i < |t| ==> !IsUpper(t[i])
  }

  /** p.lower().strip().replace('.', '') */
  function CleanToken(p: string): (t: string)
    ensures '.' !in t
    ensures forall i :: 0 <= i < |t| ==> !IsUpper(t[i])
  {
    var l := Lower(p);
    StripChars(l);
    assert forall c :: c in l ==> !IsUpper(c);
    RemoveChar(Strip(l), '.')
  }

  /**
   * What the filtering loop of lines 97-107 computes: the cleaned parts of two or more
   * characters, in order. A single letter is dropped wherever it stands.
   */
  function KeepTokens(parts: seq<string>): (ts: seq<string>)
    ensures |ts| <= |parts|
    ensures forall k :: 0 <= k < |ts| ==> WellFormedToken(ts[k])
    decreases |parts|
  {
    if parts == [] then []
    else
      var t := CleanToken(parts[|parts| - 1]);
      var rest := KeepTokens(parts[..|parts| - 1]);
      if |t| > 1 then rest + [t] else rest
  }

  /** The whitespace-split parts of the name after the three textual clean-ups (lines 33-40). */
  function RawParts(name: string): seq<string> {
    Words(SplitGluedInitials(ReplaceChar(StripParens(name), ',', ' ')))
  }

  /** normalize_name: every token is lower-case, period-free and at least two characters long. */
  function Normalize(name: string): (tokens: seq<string>)
    ensures forall k :: 0 <= k < |tokens| ==> WellFormedToken(tokens[k])
  {
    var parts := RawParts(name);
    KeepTokens(if |parts| == 1 then SplitSingle(parts[0]) else parts)
  }

  /** match_professor_name_strict */
  predicate MatchStrict(searchName: string, cardName: string) {
    var s := Normalize(searchName);
    var c := Normalize(cardName);
    if |s| < 2 then false
    else if |c| < 2 then false
    else if s[0] == c[0] && s[|s| - 1] == c[|c| - 1] then true
    else s[0] == c[|c| - 1] && s[|s| - 1] == c[0]
  }

  /** The prefix-merging loop of lines 57-68 (and 82-90). */
  method MergePrefixLoop(splitParts: seq<string>) returns (merged: seq<string>)
    ensures merged == MergePrefixes(splitParts)
  {
    merged := [];
    var i := 0;
    while i < |splitParts|
      invariant 0 <= i <= |splitParts|
      invariant merged + MergePrefixes(splitParts[i..]) == MergePrefixes(splitParts)
    {
      var current := splitParts[i];
      if current in SpecialPrefixes && i < |splitParts| - 1 {
        assert splitParts[i..][2..] == splitParts[i + 2..];
        AppendAssociative(merged, [current + splitParts[i + 1]], MergePrefixes(splitParts[i + 2..]));
        merged := merged + [current + splitParts[i + 1]];
        i := i + 2;
      } else {
        assert splitParts[i..][1..] == splitParts[i + 1..];
        AppendAssociative(merged, [current], MergePrefixes(splitParts[i + 1..]));
        merged := merged + [current];
        i := i + 1;
      }
    }
  }

  /** The filtering loop of lines 97-107. */
  method FilterTokens(parts: seq<string>) returns (filteredParts: seq<string>)
    ensures filteredParts == KeepTokens(parts)
  {
    filteredParts := [];
    for i := 0 to |parts|
      invariant filteredParts == KeepTokens(parts[..i])
    {
      assert parts[..i + 1][..i] == parts[..i];
      var pClean := CleanToken(parts[i]);
      // a single letter is skipped at the start, in the middle and at the end alike
      if |pClean| > 1 {
        filteredParts := filteredParts + [pClean];
      }
    }
    assert parts[..|parts|] == parts;
  }

  /** normalize_name, step by step as the source does it. */
  method NormalizeName(name: string) returns (filteredParts: seq<string>)
    ensures filteredParts == Normalize(name)
    ensures forall k :: 0 <= k < |filteredParts| ==> WellFormedToken(filteredParts[k])
  {
    var nameClean := StripParens(name);
    nameClean := ReplaceChar(nameClean, ',', ' ');
    nameClean := SplitGluedInitials(nameClean);
    var parts := Words(nameClean);
    if |parts| == 1 {
      var splitParts := CapitalPieces(parts[0]);
      if |splitParts| >= 2 {
        parts := MergePrefixLoop(splitParts);
      } else if |splitParts| == 1 {
        var k := LowerRun(parts[0]);
        if 1 <= k < |parts[0]| && IsUpper(parts[0][k]) {
          var first, rest := parts[0][..k], parts[0][k..];
          var restParts := CapitalPieces(rest);
          if |restParts| >= 2 {
            var mergedRest := MergePrefixLoop(restParts);
            parts := [first] + mergedRest;
          } else {
            parts := [first, rest];
          }
        }
      }
    }
    filteredParts := FilterTokens(parts);
  }

  // ---------------------------------------------------------------------------------
  // Properties of the pieces
  // ---------------------------------------------------------------------------------

  /** The pieces glued back together. */
  function Concat(ps: seq<string>): string {
    if ps == [] then [] else ps[0] + Concat(ps[1..])
  }

  lemma {:induction false} NonUpperRunOf(x: string, y: string)
    requires forall i :: 0 <= i < |x| ==> !IsUpper(x[i])
    requires y == [] || IsUpper(y[0])
    ensures NonUpperRun(x + y) == |x|
    decreases |x|
  {
    if x != [] {
      assert (x + y)[1..] == x[1..] + y;
      NonUpperRunOf(x[1..], y);
    } else {
      assert x + y == y;
    }
  }

  /** findall(r'[A-Z][^A-Z]*') undoes the gluing of pieces: it splits their concatenation back into them. */
  lemma {:induction false} CapitalPiecesOfConcat(ps: seq<string>)
    requires forall k :: 0 <= k < |ps| ==> IsPiece(ps[k])
    ensures CapitalPieces(Concat(ps)) == ps
    decreases |ps|
  {
    if ps != [] {
      var s := Concat(ps);
      var rest := Concat(ps[1..]);
      assert s == ps[0] + rest;
      assert rest != [] ==> IsUpper(rest[0]) by {
        if ps[1..] != [] {
          assert rest == ps[1..][0] + Concat(ps[1..][1..]);
        }
      }
      assert s[1..] == ps[0][1..] + rest;
      NonUpperRunOf(ps[0][1..], rest);
      var n := 1 + NonUpperRun(s[1..]);
      assert s[..n] == ps[0];
      assert s[n..] == rest;
      CapitalPiecesOfConcat(ps[1..]);
    }
  }

  /** Text before the first capital never reaches a piece. */
  lemma {:induction false} CapitalPiecesSkip(x: string, y: string)
    requires forall i :: 0 <= i < |x| ==> !IsUpper(x[i])
    ensures CapitalPieces(x + y) == CapitalPieces(y)
    decreases |x|
  {
    if x != [] {
      assert (x + y)[1..] == x[1..] + y;
      CapitalPiecesSkip(x[1..], y);
    } else {
      assert x + y == y;
    }
  }

  /** Merging prefixes regroups the pieces without changing the text they spell. */
  lemma {:induction false} MergePrefixesConcat(ps: seq<string>)
    ensures Concat(MergePrefixes(ps)) == Concat(ps)
    decreases |ps|
  {
    if |ps| > 0 {
      if ps[0] in SpecialPrefixes && |ps| >= 2 {
        MergePrefixesConcat(ps[2..]);
        assert Concat(ps) == ps[0] + (ps[1] + Concat(ps[2..])) by {
          assert ps[1..][0] == ps[1] && ps[1..][1..] == ps[2..];
        }
      } else {
        MergePrefixesConcat(ps[1..]);
      }
    }
  }

  /**
   * The lowercase-to-uppercase retry of lines 70-93 never reaches its prefix merging: when
   * the word has a single capital, so has the part from that capital on.
   */
  lemma LowerUpperRetryNeverMerges(tok: string)
    requires IsWord(tok) && |CapitalPieces(tok)| == 1
    requires 1 <= LowerRun(tok) < |tok| && IsUpper(tok[LowerRun(tok)])
    ensures |CapitalPieces(tok[LowerRun(tok)..])| == 1
    ensures SplitSingle(tok) == [tok[..LowerRun(tok)], tok[LowerRun(tok)..]]
  {
    var k := LowerRun(tok);
    assert tok == tok[..k] + tok[k..];
    CapitalPiecesSkip(tok[..k], tok[k..]);
  }

  /**
   * findall drops whatever precedes the first capital, so a lower-case first name glued to
   * a surname with two or more capitals is lost (the comment at line 72 expects it kept).
   */
  lemma LeadingLowercaseDropped(first: string, rest: string)
    requires IsWord(first + rest)
    requires forall i :: 0 <= i < |first| ==> !IsUpper(first[i])
    requires |CapitalPieces(rest)| >= 2
    ensures SplitSingle(first + rest) == MergePrefixes(CapitalPieces(rest))
  {
    CapitalPiecesSkip(first, rest);
  }

  // ---------------------------------------------------------------------------------
  // Properties of the filter
  // ---------------------------------------------------------------------------------

  /** A token is kept exactly when it is the cleaned form, two or more characters long, of some part. */
  lemma {:induction false} KeepTokensMembers(parts: seq<string>, t: string)
    ensures t in KeepTokens(parts) <==> |t| > 1 && exists k :: 0 <= k < |parts| && CleanToken(parts[k]) == t
    decreases |parts|
  {
    if parts != [] {
      var init := parts[..|parts| - 1];
      KeepTokensMembers(init, t);
      if exists k :: 0 <= k < |parts| && CleanToken(parts[k]) == t {
        var k :| 0 <= k < |parts| && CleanToken(parts[k]) == t;
        if k < |parts| - 1 {
          assert init[k] == parts[k];
        }
      }
      if exists k :: 0 <= k < |init| && CleanToken(init[k]) == t {
        var k :| 0 <= k < |init| && CleanToken(init[k]) == t;
        assert parts[k] == init[k];
      }
    }
  }

  lemma {:induction false} RemoveCharAbsent(s: string, c: char)
    requires c !in s
    ensures RemoveChar(s, c) == s
    decreases |s|
  {
    if s != [] {
      assert c !in s[1..];
      RemoveCharAbsent(s[1..], c);
    }
  }

  /** A word without periods is cleaned to its lower-case form. */
  lemma CleanWord(p: string)
    requires IsWord(p) && '.' !in p
    ensures CleanToken(p) == Lower(p)
  {
    var l := Lower(p);
    assert IsWord(l);
    var a, b := StripShape(l);
    assert a == 0 && b == |l|;
    assert Strip(l) == l;
    assert '.' !in l by {
      forall i | 0 <= i < |l| ensures l[i] != '.' {
        assert p[i] != '.';
      }
    }
    RemoveCharAbsent(l, '.');
  }

  /** A capital followed by a period, as in "M.", is cleaned to one letter and so dropped. */
  lemma CleanInitial(c: char)
    requires IsUpper(c)
    ensures CleanToken([c, '.']) == [LowerChar(c)]
  {
    var l := Lower([c, '.']);
    assert l == [LowerChar(c), '.'];
    assert IsWord(l);
    var a, b := StripShape(l);
    assert a == 0 && b == |l|;
    assert Strip(l) == l;
    assert l[1..] == ['.'];
    assert l[1..][1..] == [];
    assert LowerChar(c) != '.';
    assert RemoveChar(l[1..], '.') == RemoveChar(l[1..][1..], '.') == [];
    assert RemoveChar(l, '.') == [l[0]] + RemoveChar(l[1..], '.');
  }

  lemma KeepTwo(a: string, b: string)
    requires IsWord(a) && '.' !in a && |a| >= 2
    requires IsWord(b) && '.' !in b && |b| >= 2
    ensures KeepTokens([a, b]) == [Lower(a), Lower(b)]
  {
    CleanWord(a);
    CleanWord(b);
    assert [a, b][..1] == [a];
    assert [a][..0] == [];
    assert KeepTokens([a]) == [Lower(a)];
  }

  /** A middle part that cleans to at most one character leaves only first and last. */
  lemma KeepOuter(a: string, m: string, b: string)
    requires IsWord(a) && '.' !in a && |a| >= 2
    requires IsWord(b) && '.' !in b && |b| >= 2
    requires |CleanToken(m)| <= 1
    ensures KeepTokens([a, m, b]) == [Lower(a), Lower(b)]
  {
    CleanWord(a);
    CleanWord(b);
    assert [a, m, b][..2] == [a, m];
    assert [a, m][..1] == [a];
    assert [a][..0] == [];
    assert KeepTokens([a, m]) == [Lower(a)];
  }

  // ---------------------------------------------------------------------------------
  // normalize_name on the shapes of name its comments describe
  // ---------------------------------------------------------------------------------

  lemma ReplaceCharAbsent(s: string, a: char, b: char)
    requires a !in s
    ensures ReplaceChar(s, a, b) == s
  {
  }

  lemma SplitGluedInitialsNone(s: string)
    requires forall i :: 0 <= i < |s| - 1 && s[i] == '.' ==> !IsUpper(s[i + 1])
    ensures SplitGluedInitials(s) == s
  {
  }

  /** Words without parentheses or commas (periods only before a non-capital) are just split. */
  lemma RawPartsPlain(ws: seq<string>)
    requires forall k :: 0 <= k < |ws| ==> IsWord(ws[k])
    requires '(' !in Join(ws, " ") && ',' !in Join(ws, " ")
    requires forall i :: 0 <= i < |Join(ws, " ")| - 1 && Join(ws, " ")[i] == '.' ==> !IsUpper(Join(ws, " ")[i + 1])
    ensures RawParts(Join(ws, " ")) == ws
  {
    var s := Join(ws, " ");
    ReplaceCharAbsent(s, ',', ' ');
    SplitGluedInitialsNone(s);
    WordsOfJoin(ws);
  }

  /** A word of two or more characters with no period, parenthesis or comma. */
  predicate PlainWord(w: string) {
    IsWord(w) && '.' !in w && '(' !in w && ')' !in w && ',' !in w && |w| >= 2
  }

  /** "Clare Nguyen" -> ["clare", "nguyen"] */
  lemma NormalizeFirstLast(a: string, b: string)
    requires PlainWord(a) && PlainWord(b)
    ensures Normalize(a + " " + b) == [Lower(a), Lower(b)]
  {
    var s := a + " " + b;
    assert Join([a, b], " ") == s by {
      assert [a, b][1..] == [b];
    }
    RawPartsPlain([a, b]);
    KeepTwo(a, b);
  }

  /** "Clare M. Nguyen" -> ["clare", "nguyen"]: a middle initial is dropped. */
  lemma NormalizeMiddleInitial(a: string, c: char, b: string)
    requires PlainWord(a) && PlainWord(b) && IsUpper(c)
    ensures Normalize(a + " " + [c, '.'] + " " + b) == [Lower(a), Lower(b)]
  {
    var m := [c, '.'];
    var s := a + " " + m + " " + b;
    assert Join([a, m, b], " ") == s by {
      assert [a, m, b][1..] == [m, b];
      assert [m, b][1..] == [b];
      assert Join([b], " ") == b;
      assert Join([m, b], " ") == m + " " + b;
      assert Join([a, m, b], " ") == a + " " + (m + " " + b);
    }
    assert IsWord(m);
    forall i | 0 <= i < |s| - 1 && s[i] == '.' ensures !IsUpper(s[i + 1]) {
      assert i == |a| + 2;
    }
    RawPartsPlain([a, m, b]);
    CleanInitial(c);
    KeepOuter(a, m, b);
  }

  /** "Christopher N Bradley" -> ["christopher", "bradley"]: a one-letter middle name is dropped. */
  lemma NormalizeMiddleLetter(a: string, c: char, b: string)
    requires PlainWord(a) && PlainWord(b) && !IsSpace(c) && c != '.' && c != '(' && c != ','
    ensures Normalize(a + " " + [c] + " " + b) == [Lower(a), Lower(b)]
  {
    var m := [c];
    var s := a + " " + m + " " + b;
    assert Join([a, m, b], " ") == s by {
      assert [a, m, b][1..] == [m, b];
      assert [m, b][1..] == [b];
      assert Join([b], " ") == b;
      assert Join([m, b], " ") == m + " " + b;
      assert Join([a, m, b], " ") == a + " " + (m + " " + b);
    }
    assert IsWord(m);
    assert '.' !in s;
    RawPartsPlain([a, m, b]);
    assert |CleanToken(m)| <= 1;
    KeepOuter(a, m, b);
  }

  /** A period before a capital, with no other period around, becomes a space. */
  lemma SplitGluedAt(x: string, y: string)
    requires '.' !in x && '.' !in y && y != [] && IsUpper(y[0])
    ensures SplitGluedInitials(x + "." + y) == x + " " + y
  {
    var s := x + "." + y;
    var t := x + " " + y;
    forall i | 0 <= i < |s| ensures SplitGluedInitials(s)[i] == t[i] {
      if i < |x| {
        assert s[i] == x[i] == t[i];
      } else if i > |x| {
        assert s[i] == y[i - |x| - 1] == t[i];
      } else {
        assert s[i + 1] == y[0];
      }
    }
  }

  lemma RawPartsGluedInitial(a: string, c: char, b: string)
    requires PlainWord(a) && PlainWord(b) && IsUpper(c) && IsUpper(b[0])
    ensures RawParts(a + " " + [c] + "." + b) == [a, [c], b]
  {
    var x := a + " " + [c];
    var name := x + "." + b;
    var spaced := x + " " + b;
    assert '(' !in name && ',' !in name && '.' !in x;
    ReplaceCharAbsent(name, ',', ' ');
    SplitGluedAt(x, b);
    assert Join([a, [c], b], " ") == spaced by {
      assert [a, [c], b][1..] == [[c], b];
      assert [[c], b][1..] == [b];
      assert Join([b], " ") == b;
      assert Join([[c], b], " ") == [c] + " " + b;
    }
    assert IsWord([c]);
    WordsOfJoin([a, [c], b]);
    assert StripParens(name) == name;
    assert ReplaceChar(name, ',', ' ') == name;
    assert SplitGluedInitials(name) == spaced;
  }

  /** "Christopher N.Bradley" -> ["christopher", "bradley"]: a glued initial is split off, then dropped. */
  lemma NormalizeGluedInitial(a: string, c: char, b: string)
    requires PlainWord(a) && PlainWord(b) && IsUpper(c) && IsUpper(b[0])
    ensures Normalize(a + " " + [c] + "." + b) == [Lower(a), Lower(b)]
  {
    RawPartsGluedInitial(a, c, b);
    assert |CleanToken([c])| <= 1;
    KeepOuter(a, [c], b);
  }

  lemma {:induction false} StripParensPlain(x: string, y: string)
    requires '(' !in x
    ensures StripParens(x + y) == x + StripParens(y)
    decreases |x|
  {
    if x != [] {
      assert (x + y)[0] == x[0];
      assert (x + y)[1..] == x[1..] + y;
      StripParensPlain(x[1..], y);
    } else {
      assert x + y == y;
    }
  }

  lemma StripParensGroup(x: string, y: string)
    requires ')' !in x
    ensures StripParens("(" + x + ")" + y) == StripParens(y)
  {
    var s := "(" + x + ")" + y;
    assert s[1..] == x + ")" + y;
    assert s[1..][|x|] == ')';
    var k := FirstIndexOf(s[1..], ')');
    assert k == |x|;
    assert s[k + 2..] == y;
  }

  /** "Roderic (Rick)Taylor" is normalised like "Roderic Taylor": the aside is dropped. */
  lemma NormalizeDropsAside(a: string, x: string, b: string)
    requires '(' !in a && ')' !in x && '(' !in b
    ensures Normalize(a + " (" + x + ")" + b) == Normalize(a + " " + b)
  {
    var name := a + " (" + x + ")" + b;
    assert name == (a + " ") + ("(" + x + ")" + b);
    StripParensPlain(a + " ", "(" + x + ")" + b);
    StripParensGroup(x, b);
    assert StripParens(a + " " + b) == a + " " + b;
  }

  /** "RodericTaylor" -> ["roderic", "taylor"]: a name glued from two capitalised pieces is split. */
  lemma NormalizeGlued(a: string, b: string)
    requires PlainWord(a) && PlainWord(b) && IsPiece(a) && IsPiece(b) && a !in SpecialPrefixes
    ensures Normalize(a + b) == [Lower(a), Lower(b)]
  {
    var s := a + b;
    assert Join([s], " ") == s;
    RawPartsPlain([s]);
    assert Concat([a, b]) == s by {
      assert [a, b][1..] == [b];
      assert Concat([b]) == b;
    }
    CapitalPiecesOfConcat([a, b]);
    assert [a, b][1..] == [b] && [a, b][2..] == [];
    assert MergePrefixes([a, b]) == [a, b];
    KeepTwo(a, b);
  }

  /** Three capitalised pieces glued together are found again by the piece split. */
  lemma CapitalPiecesOfThree(a: string, p: string, b: string)
    requires IsPiece(a) && IsPiece(p) && IsPiece(b)
    ensures CapitalPieces(a + p + b) == [a, p, b]
  {
    assert Concat([a, p, b]) == a + p + b by {
      assert [a, p, b][1..] == [p, b];
      assert [p, b][1..] == [b];
      assert Concat([b]) == b;
    }
    CapitalPiecesOfConcat([a, p, b]);
  }

  /** A special prefix in the middle is glued to the piece after it. */
  lemma MergeMiddlePrefix(a: string, p: string, b: string)
    requires a !in SpecialPrefixes && p in SpecialPrefixes
    ensures MergePrefixes([a, p, b]) == [a, p + b]
  {
    assert [a, p, b][1..] == [p, b] && [p, b][2..] == [];
    assert MergePrefixes([p, b]) == [p + b];
  }

  /** "MorganMcKnight" -> ["morgan", "mcknight"]: a surname prefix stays with the piece after it. */
  lemma NormalizeGluedPrefix(a: string, p: string, b: string)
    requires PlainWord(a) && PlainWord(p) && PlainWord(b)
    requires IsPiece(a) && IsPiece(p) && IsPiece(b)
    requires a !in SpecialPrefixes && p in SpecialPrefixes
    ensures Normalize(a + p + b) == [Lower(a), Lower(p + b)]
  {
    var s := a + p + b;
    assert Join([s], " ") == s;
    RawPartsPlain([s]);
    CapitalPiecesOfThree(a, p, b);
    MergeMiddlePrefix(a, p, b);
    assert SplitSingle(s) == [a, p + b];
    KeepTwo(a, p + b);
  }

  // ---------------------------------------------------------------------------------
  // Worked examples of the docstrings (lines 27-30, 43 and 117-125)
  // ---------------------------------------------------------------------------------

  lemma LowerRoderic(a: string, b: string)
    requires a == "Roderic" && b == "Taylor"
    ensures PlainWord(a) && PlainWord(b) && Lower(a) == "roderic" && Lower(b) == "taylor"
  {
  }

  lemma LowerChristopher(a: string, b: string)
    requires a == "Christopher" && b == "Bradley"
    ensures PlainWord(a) && PlainWord(b) && Lower(a) == "christopher" && Lower(b) == "bradley"
  {
  }

  lemma LowerMorgan(a: string, b: string)
    requires a == "Morgan" && b == "McKnight"
    ensures Lower(a) == "morgan" && Lower(b) == "mcknight"
  {
  }

  lemma RodericTaylor(name: string, a: string, b: string)
    requires name == "Roderic Taylor" && a == "Roderic" && b == "Taylor"
    ensures Normalize(name) == ["roderic", "taylor"]
  {
    LowerRoderic(a, b);
    assert name == a + " " + b;
    NormalizeFirstLast(a, b);
  }

  lemma RodericRickTaylor(name: string, plain: string, a: string, x: string, b: string)
    requires name == "Roderic (Rick)Taylor" && plain == "Roderic Taylor"
    requires a == "Roderic" && x == "Rick" && b == "Taylor"
    ensures Normalize(name) == Normalize(plain)
  {
    assert name == a + " (" + x + ")" + b;
    assert plain == a + " " + b;
    assert '(' !in a && ')' !in x && '(' !in b;
    NormalizeDropsAside(a, x, b);
  }

  lemma RodericTaylorGlued(name: string, a: string, b: string)
    requires name == "RodericTaylor" && a == "Roderic" && b == "Taylor"
    ensures Normalize(name) == ["roderic", "taylor"]
  {
    LowerRoderic(a, b);
    assert name == a + b;
    assert IsPiece(a) && IsPiece(b) && a !in SpecialPrefixes;
    NormalizeGlued(a, b);
  }

  lemma ChristopherBradley(name: string, a: string, c: char, b: string)
    requires name == "Christopher N.Bradley" && a == "Christopher" && c == 'N' && b == "Bradley"
    ensures Normalize(name) == ["christopher", "bradley"]
  {
    LowerChristopher(a, b);
    assert name == a + " " + [c] + "." + b;
    NormalizeGluedInitial(a, c, b);
  }

  lemma MorganPieces(a: string, p: string, b: string)
    requires a == "Morgan" && p == "Mc" && b == "Knight"
    ensures PlainWord(a) && PlainWord(p) && PlainWord(b)
    ensures IsPiece(a) && IsPiece(p) && IsPiece(b)
    ensures a !in SpecialPrefixes && p in SpecialPrefixes
  {
    assert PlainWord(a) && PlainWord(p) && PlainWord(b);
    assert SpecialPrefixes[0] == p;
  }

  lemma MorganMcKnight(name: string, a: string, p: string, b: string)
    requires name == "MorganMcKnight" && a == "Morgan" && p == "Mc" && b == "Knight"
    ensures Normalize(name) == ["morgan", "mcknight"]
  {
    LowerMorgan(a, p + b);
    assert name == a + p + b;
    MorganPieces(a, p, b);
    NormalizeGluedPrefix(a, p, b);
  }

  /** The worked examples of the docstring and comments of normalize_name. */
  lemma NormalizeExamples()
    ensures Normalize("Roderic (Rick)Taylor") == ["roderic", "taylor"]
    ensures Normalize("RodericTaylor") == ["roderic", "taylor"]
    ensures Normalize("Christopher N.Bradley") == ["christopher", "bradley"]
    ensures Normalize("MorganMcKnight") == ["morgan", "mcknight"]
  {
    RodericRickTaylor("Roderic (Rick)Taylor", "Roderic Taylor", "Roderic", "Rick", "Taylor");
    RodericTaylor("Roderic Taylor", "Roderic", "Taylor");
    RodericTaylorGlued("RodericTaylor", "Roderic", "Taylor");
    ChristopherBradley("Christopher N.Bradley", "Christopher", 'N', "Bradley");
    MorganMcKnight("MorganMcKnight", "Morgan", "Mc", "Knight");
  }

  // ---------------------------------------------------------------------------------
  // Properties of strict matching
  // ---------------------------------------------------------------------------------

  /**
   * Two names match exactly when both normalise to two or more tokens and their outer
   * tokens agree as an unordered pair: first with first and last with last, or crosswise.
   */
  lemma MatchStrictOuterPair(searchName: string, cardName: string)
    ensures MatchStrict(searchName, cardName) <==>
      var s := Normalize(searchName);
      var c := Normalize(cardName);
      |s| >= 2 && |c| >= 2 && multiset{s[0], s[|s| - 1]} == multiset{c[0], c[|c| - 1]}
  {
    var s := Normalize(searchName);
    var c := Normalize(cardName);
    if |s| >= 2 && |c| >= 2 {
      var ms, mc := multiset{s[0], s[|s| - 1]}, multiset{c[0], c[|c| - 1]};
      if ms == mc {
        assert s[0] in mc;
        assert s[|s| - 1] in mc;
        if s[0] == c[0] {
          assert ms - multiset{s[0]} == mc - multiset{c[0]};
          assert multiset{s[|s| - 1]} == multiset{c[|c| - 1]};
          assert s[|s| - 1] in multiset{c[|c| - 1]};
        } else {
          assert s[0] == c[|c| - 1];
          assert ms - multiset{s[0]} == mc - multiset{c[|c| - 1]};
          assert multiset{s[|s| - 1]} == multiset{c[0]};
          assert s[|s| - 1] in multiset{c[0]};
        }
      }
    }
  }

  /** The order of the two names does not matter. */
  lemma MatchStrictSymmetric(x: string, y: string)
    ensures MatchStrict(x, y) <==> MatchStrict(y, x)
  {
  }

  /** A name matches itself, and only names giving at least a first and a last token match anything. */
  lemma MatchStrictReflexive(x: string)
    ensures MatchStrict(x, x) <==> |Normalize(x)| >= 2
  {
  }

  /** Only the outer tokens are compared: names with the same outer tokens match the same names. */
  lemma MatchStrictOuterOnly(x: string, x': string, y: string)
    requires |Normalize(x)| >= 2 && |Normalize(x')| >= 2
    requires Normalize(x)[0] == Normalize(x')[0]
    requires Normalize(x)[|Normalize(x)| - 1] == Normalize(x')[|Normalize(x')| - 1]
    ensures MatchStrict(x, y) <==> MatchStrict(x', y)
  {
  }

  lemma WordClare(w: string)
    requires w == "Clare"
    ensures PlainWord(w) && Lower(w) == "clare"
  {
  }

  lemma WordNguyen(w: string)
    requires w == "Nguyen"
    ensures PlainWord(w) && Lower(w) == "nguyen"
  {
  }

  lemma WordJohn(w: string)
    requires w == "John"
    ensures PlainWord(w) && Lower(w) == "john"
  {
  }

  lemma WordSmith(w: string)
    requires w == "Smith"
    ensures PlainWord(w) && Lower(w) == "smith"
  {
  }

  lemma TwoWordName(name: string, a: string, b: string, la: string, lb: string)
    requires name == a + " " + b && PlainWord(a) && PlainWord(b) && Lower(a) == la && Lower(b) == lb
    ensures Normalize(name) == [la, lb]
  {
    NormalizeFirstLast(a, b);
  }

  lemma ClareNguyen(name: string, a: string, b: string)
    requires name == "Clare Nguyen" && a == "Clare" && b == "Nguyen"
    ensures Normalize(name) == ["clare", "nguyen"]
  {
    WordClare(a);
    WordNguyen(b);
    TwoWordName(name, a, b, "clare", "nguyen");
  }

  lemma ClareMNguyen(name: string, a: string, b: string)
    requires name == "Clare M. Nguyen" && a == "Clare" && b == "Nguyen"
    ensures Normalize(name) == ["clare", "nguyen"]
  {
    WordClare(a);
    WordNguyen(b);
    assert name == a + " " + ['M', '.'] + " " + b;
    NormalizeMiddleInitial(a, 'M', b);
  }

  lemma JohnNguyen(name: string, a: string, b: string)
    requires name == "John Nguyen" && a == "John" && b == "Nguyen"
    ensures Normalize(name) == ["john", "nguyen"]
  {
    WordJohn(a);
    WordNguyen(b);
    TwoWordName(name, a, b, "john", "nguyen");
  }

  lemma ClareSmith(name: string, a: string, b: string)
    requires name == "Clare Smith" && a == "Clare" && b == "Smith"
    ensures Normalize(name) == ["clare", "smith"]
  {
    WordClare(a);
    WordSmith(b);
    TwoWordName(name, a, b, "clare", "smith");
  }

  lemma ChristopherBradleyPlain(name: string, a: string, b: string)
    requires name == "Christopher Bradley" && a == "Christopher" && b == "Bradley"
    ensures Normalize(name) == ["christopher", "bradley"]
  {
    LowerChristopher(a, b);
    TwoWordName(name, a, b, "christopher", "bradley");
  }

  lemma ClareMatches()
    ensures MatchStrict("Clare Nguyen", "Clare M. Nguyen")
    ensures MatchStrict("Clare Nguyen", "Clare Nguyen")
  {
    ClareNguyen("Clare Nguyen", "Clare", "Nguyen");
    ClareMNguyen("Clare M. Nguyen", "Clare", "Nguyen");
  }

  lemma ClareJohn()
    ensures !MatchStrict("Clare Nguyen", "John Nguyen")
  {
    ClareNguyen("Clare Nguyen", "Clare", "Nguyen");
    JohnNguyen("John Nguyen", "John", "Nguyen");
    assert "clare" != "john" by {
      assert "clare"[0] != "john"[0];
    }
  }

  lemma ClareSmithMismatch()
    ensures !MatchStrict("Clare Nguyen", "Clare Smith")
  {
    ClareNguyen("Clare Nguyen", "Clare", "Nguyen");
    ClareSmith("Clare Smith", "Clare", "Smith");
    assert "nguyen" != "smith" && "clare" != "smith" by {
      assert "nguyen"[0] != "smith"[0] && "clare"[0] != "smith"[0];
    }
  }

  lemma RodericMatches()
    ensures MatchStrict("Roderic Taylor", "Roderic (Rick)Taylor")
    ensures MatchStrict("Roderic Taylor", "RodericTaylor")
  {
    NormalizeExamples();
    RodericTaylor("Roderic Taylor", "Roderic", "Taylor");
  }

  lemma ChristopherGluedMatch()
    ensures MatchStrict("Christopher Bradley", "Christopher N.Bradley")
  {
    ChristopherBradleyPlain("Christopher Bradley", "Christopher", "Bradley");
    ChristopherBradley("Christopher N.Bradley", "Christopher", 'N', "Bradley");
  }

  lemma ChristopherMiddleLetter(name: string, a: string, c: char, b: string)
    requires name == a + " " + [c] + " " + b
    requires a == "Christopher" && c == 'N' && b == "Bradley"
    ensures Normalize(name) == ["christopher", "bradley"]
  {
    LowerChristopher(a, b);
    NormalizeMiddleLetter(a, c, b);
  }

  lemma ChristopherSpaced(x: string, y: string, a: string, c: char, b: string)
    requires x == a + " " + b && y == a + " " + [c] + " " + b
    requires a == "Christopher" && c == 'N' && b == "Bradley"
    ensures MatchStrict(x, y)
  {
    ChristopherBradleyPlain(x, a, b);
    ChristopherMiddleLetter(y, a, c, b);
  }

  lemma ChristopherSpacedMatch()
    ensures MatchStrict("Christopher Bradley", "Christopher N Bradley")
  {
    ChristopherSpaced("Christopher Bradley", "Christopher N Bradley", "Christopher", 'N', "Bradley");
  }
}
