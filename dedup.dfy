/**
 * The table walk and the CRN de-duplication of parse_course_info (scraper_module.py). Every
 * row whose text mentions the course code is handed to the row extractor, and every record
 * it returns is collected; then records are kept in order, skipping a record whose CRN an
 * earlier record already had, except that the placeholder CRN "N/A" is never skipped.
 */
module Dedup {
  import opened Text
  import opened Wrappers
  import opened Listings
  import opened Sequences

  /** One table row: its cells, and whether it holds a hybrid "skittle" span. */
  datatype Row = Row(cells: seq<Cell>, hybridSpan: bool)

  /** The CRN that de-duplication never skips. */
  const Placeholder: string := "N/A"

  // ---------------------------------------------------------------------------------
  // Collecting the records of the table rows
  // ---------------------------------------------------------------------------------

  /** The row mentions the course code, case-insensitively. */
  predicate Mentions(r: Row, courseCode: string) {
    Contains(Upper(RowText(r.cells)), Upper(courseCode))
  }

  /** What the extractor gives for one row: its record when the row has cells and mentions the code. */
  function RowInfo(r: Row, courseCode: string): Option<Listing> {
    if r.cells != [] && Mentions(r, courseCode) then RowListing(courseCode, r.cells, r.hybridSpan) else None
  }

  /** The extractor's answer for every row, in row order. */
  function RowInfos(rows: seq<Row>, courseCode: string): (infos: seq<Option<Listing>>)
    ensures |infos| == |rows|
  {
    seq(|rows|, k requires 0 <= k < |rows| => RowInfo(rows[k], courseCode))
  }

  /** The records among the answers, in order. */
  function Present(infos: seq<Option<Listing>>): (ls: seq<Listing>)
    ensures |ls| <= |infos|
  {
    if infos == [] then []
    else
      var last := infos[|infos| - 1];
      Present(infos[..|infos| - 1]) + (if last.Some? then [last.value] else [])
  }

  /** The records the row walk collects. */
  function Records(rows: seq<Row>, courseCode: string): seq<Listing> {
    Present(RowInfos(rows, courseCode))
  }

  lemma PresentSnoc(infos: seq<Option<Listing>>, i: nat)
    requires i < |infos|
    ensures Present(infos[..i + 1]) == Present(infos[..i]) + (if infos[i].Some? then [infos[i].value] else [])
  {
    assert infos[..i + 1][..i] == infos[..i];
  }

  /** The rows loop of parse_course_info, over the rows of all tables in document order. */
  method CollectRecords(rows: seq<Row>, courseCode: string) returns (courses: seq<Listing>)
    ensures courses == Records(rows, courseCode)
  {
    ghost var infos := RowInfos(rows, courseCode);
    courses := [];
    for i := 0 to |rows|
      invariant courses == Present(infos[..i])
    {
      PresentSnoc(infos, i);
      var row := rows[i];
      if |row.cells| > 0 {
        var rowText := RowText(row.cells);
        if Contains(Upper(rowText), Upper(courseCode)) {
          var info := ExtractCourseFromRow(courseCode, row.cells, row.hybridSpan);
          assert info == infos[i];
          if info.Some? {
            courses := courses + [info.value];
          }
        } else {
          assert infos[i] == None;
        }
      } else {
        assert infos[i] == None;
      }
    }
    assert infos[..|rows|] == infos;
  }

  /** A record is present exactly when some answer holds it. */
  lemma {:induction false} PresentMembers(infos: seq<Option<Listing>>, l: Listing)
    ensures l in Present(infos) <==> exists k :: 0 <= k < |infos| && infos[k] == Some(l)
    decreases |infos|
  {
    if infos != [] {
      var n := |infos| - 1;
      var prev := infos[..n];
      PresentMembers(prev, l);
      if l in Present(prev) {
        var k :| 0 <= k < n && prev[k] == Some(l);
        assert infos[k] == Some(l);
      }
      if exists k :: 0 <= k < |infos| && infos[k] == Some(l) {
        var k :| 0 <= k < |infos| && infos[k] == Some(l);
        if k < n {
          assert prev[k] == Some(l);
        }
      }
    }
  }

  /**
   * A record is collected exactly when it is the extractor's record of a row that has cells
   * and mentions the course code.
   */
  lemma RecordsMeaning(rows: seq<Row>, courseCode: string, l: Listing)
    ensures l in Records(rows, courseCode) <==> exists k :: (0 <= k < |rows| && rows[k].cells != [] &&
      Mentions(rows[k], courseCode) && RowListing(courseCode, rows[k].cells, rows[k].hybridSpan) == Some(l))
  {
    var infos := RowInfos(rows, courseCode);
    PresentMembers(infos, l);
    if l in Records(rows, courseCode) {
      var k :| 0 <= k < |infos| && infos[k] == Some(l);
      assert RowInfo(rows[k], courseCode) == Some(l);
    }
    if exists k :: (0 <= k < |rows| && rows[k].cells != [] &&
      Mentions(rows[k], courseCode) && RowListing(courseCode, rows[k].cells, rows[k].hybridSpan) == Some(l)) {
      var k :| (0 <= k < |rows| && rows[k].cells != [] &&
        Mentions(rows[k], courseCode) && RowListing(courseCode, rows[k].cells, rows[k].hybridSpan) == Some(l));
      assert infos[k] == Some(l);
    }
  }

  // ---------------------------------------------------------------------------------
  // De-duplication by CRN
  // ---------------------------------------------------------------------------------

  /** seen_crns after the first n records: the CRN of every one of them, kept or not. */
  function CrnsBefore(cs: seq<Listing>, n: nat): set<string>
    requires n <= |cs|
  {
    if n == 0 then {} else CrnsBefore(cs, n - 1) + {cs[n - 1].crn}
  }

  /** Record k is kept: its CRN is the placeholder or no earlier record had it. */
  predicate Kept(cs: seq<Listing>, k: nat)
    requires k < |cs|
  {
    cs[k].crn !in CrnsBefore(cs, k) || cs[k].crn == Placeholder
  }

  /** unique_courses after the first n records. */
  function DedupUpTo(cs: seq<Listing>, n: nat): (d: seq<Listing>)
    requires n <= |cs|
    ensures |d| <= n
  {
    if n == 0 then [] else DedupUpTo(cs, n - 1) + (if Kept(cs, n - 1) then [cs[n - 1]] else [])
  }

  /** The de-duplication loop of parse_course_info. */
  method DedupByCrn(courses: seq<Listing>) returns (unique: seq<Listing>)
    ensures unique == DedupUpTo(courses, |courses|)
  {
    var seen: set<string> := {};
    unique := [];
    for i := 0 to |courses|
      invariant seen == CrnsBefore(courses, i)
      invariant unique == DedupUpTo(courses, i)
    {
      var course := courses[i];
      if course.crn !in seen || course.crn == Placeholder {
        seen := seen + {course.crn};
        unique := unique + [course];
      }
    }
  }

  /** parse_course_info over table rows: collect, then de-duplicate. */
  method ParseCourseInfo(rows: seq<Row>, courseCode: string) returns (unique: seq<Listing>)
    ensures var courses := Records(rows, courseCode); unique == DedupUpTo(courses, |courses|)
  {
    var courses := CollectRecords(rows, courseCode);
    unique := DedupByCrn(courses);
  }

  // ---------------------------------------------------------------------------------
  // What de-duplication keeps
  // ---------------------------------------------------------------------------------

  /** No two records share a CRN other than the placeholder. */
  predicate UniqueCrns(d: seq<Listing>) {
    forall a, b :: 0 <= a < b < |d| && d[a].crn == d[b].crn ==> d[a].crn == Placeholder
  }

  lemma {:induction false} CrnsBeforeMembers(cs: seq<Listing>, n: nat, c: string)
    requires n <= |cs|
    ensures c in CrnsBefore(cs, n) <==> exists j :: 0 <= j < n && cs[j].crn == c
    decreases n
  {
    if n > 0 {
      CrnsBeforeMembers(cs, n - 1, c);
    }
  }

  /** A record is kept exactly when its CRN is the placeholder or it is the first record with that CRN. */
  lemma KeptMeaning(cs: seq<Listing>, k: nat)
    requires k < |cs|
    ensures Kept(cs, k) <==> cs[k].crn == Placeholder || forall j :: 0 <= j < k ==> cs[j].crn != cs[k].crn
  {
    CrnsBeforeMembers(cs, k, cs[k].crn);
  }

  /** The kept records are exactly the records that were seen, counted by CRN: the same CRNs go in and come out. */
  lemma {:induction false} DedupSameCrns(cs: seq<Listing>, n: nat, c: string)
    requires n <= |cs|
    ensures c in CrnsBefore(cs, n) <==> exists m :: 0 <= m < |DedupUpTo(cs, n)| && DedupUpTo(cs, n)[m].crn == c
    decreases n
  {
    if n > 0 {
      DedupSameCrns(cs, n - 1, c);
      var prev := DedupUpTo(cs, n - 1);
      if Kept(cs, n - 1) {
        assert DedupUpTo(cs, n) == prev + [cs[n - 1]];
        CrnInSnoc(prev, cs[n - 1], c);
      } else {
        assert DedupUpTo(cs, n) == prev + [] == prev;
        assert CrnsBefore(cs, n) == CrnsBefore(cs, n - 1);
      }
    }
  }

  lemma CrnInSnoc(d: seq<Listing>, l: Listing, c: string)
    ensures (exists m :: 0 <= m < |d + [l]| && (d + [l])[m].crn == c) <==>
      (exists m :: 0 <= m < |d| && d[m].crn == c) || l.crn == c
  {
    var e := d + [l];
    if exists m :: 0 <= m < |e| && e[m].crn == c {
      var m :| 0 <= m < |e| && e[m].crn == c;
      if m < |d| {
        assert d[m].crn == c;
      }
    }
    if exists m :: 0 <= m < |d| && d[m].crn == c {
      var m :| 0 <= m < |d| && d[m].crn == c;
      assert e[m].crn == c;
    }
    if l.crn == c {
      assert e[|d|].crn == c;
    }
  }

  /** De-duplication leaves at most one record per CRN, except for the placeholder. */
  lemma {:induction false} DedupUnique(cs: seq<Listing>, n: nat)
    requires n <= |cs|
    ensures UniqueCrns(DedupUpTo(cs, n))
    decreases n
  {
    if n > 0 {
      DedupUnique(cs, n - 1);
      var prev := DedupUpTo(cs, n - 1);
      var d := DedupUpTo(cs, n);
      if Kept(cs, n - 1) && cs[n - 1].crn != Placeholder {
        var x := cs[n - 1];
        forall a | 0 <= a < |prev| ensures prev[a].crn != x.crn {
          DedupSameCrns(cs, n - 1, prev[a].crn);
        }
        assert d == prev + [x];
      }
    }
  }

  /** De-duplication keeps records in their order and adds none. */
  lemma {:induction false} DedupSubsequence(cs: seq<Listing>, n: nat)
    requires n <= |cs|
    ensures IsSubsequence(DedupUpTo(cs, n), cs[..n])
    decreases n
  {
    if n == 0 {
      assert cs[..0] == [];
    } else {
      DedupSubsequence(cs, n - 1);
      var prev := DedupUpTo(cs, n - 1);
      var d := DedupUpTo(cs, n);
      assert cs[..n][..n - 1] == cs[..n - 1];
      if Kept(cs, n - 1) {
        assert d[..|d| - 1] == prev && d[|d| - 1] == cs[..n][n - 1];
      } else {
        assert d == prev;
      }
    }
  }

  /** Every record whose CRN is the placeholder, and the first record of every other CRN, is kept. */
  lemma {:induction false} DedupKeeps(cs: seq<Listing>, n: nat, k: nat)
    requires k < n <= |cs|
    requires cs[k].crn == Placeholder || forall j :: 0 <= j < k ==> cs[j].crn != cs[k].crn
    ensures cs[k] in DedupUpTo(cs, n)
    decreases n
  {
    if k < n - 1 {
      DedupKeeps(cs, n - 1, k);
    } else {
      KeptMeaning(cs, k);
    }
  }
}
