/**
 * The alternate course importer (`scripts/import-courses.ts`): the code is the
 * first code token anywhere in a line and the name is the text before the
 * first `" - "`; courses are deduplicated by code alone and upserted in
 * batches of 100.
 */
module ImportCourses {
  import opened Base
  import opened Text
  import opened Seqs
  import opened Types
  import opened CourseCode
  import ImportAllCourses

  // ---------------------------------------------------------------------------
  // Extracting code and name.
  // ---------------------------------------------------------------------------

  /** The leftmost position at or after `p` where a code token starts. */
  function FirstCodeAt(s: string, p: nat): (r: Option<nat>)
    requires p <= |s|
    ensures r.Some? ==> p <= r.value < |s| && CodeEnd(s, r.value).Some?
    ensures forall q | p <= q <= |s| && (r.None? || q < r.value) :: CodeEnd(s, q).None?
    decreases |s| - p
  {
    if CodeEnd(s, p).Some? then Some(p)
    else if p == |s| then None
    else FirstCodeAt(s, p + 1)
  }

  /** Without a token start anywhere, no piece of `s` is a code. */
  lemma {:induction false} NoCodeAnywhere(s: string)
    requires FirstCodeAt(s, 0).None?
    ensures forall i, e | 0 <= i <= e <= |s| :: !IsCode(s[i..e])
  {
    forall i, e | 0 <= i <= e <= |s| ensures !IsCode(s[i..e]) {
      CodeEndNone(s, i);
    }
  }

  /**
   * `s[p..e]` is the match a regular-expression search returns: no code starts
   * before `p`, and no code from `p` is longer.
   */
  ghost predicate LeftmostLongest(s: string, p: nat, e: nat)
  {
    && p < e <= |s| && IsCode(s[p..e])
    && (forall q, e' | 0 <= q < p && q <= e' <= |s| :: !IsCode(s[q..e']))
    && (forall e' | e < e' <= |s| :: !IsCode(s[p..e']))
  }

  /** There is at most one leftmost-longest match. */
  lemma {:induction false} LeftmostLongestUnique(s: string, p1: nat, e1: nat, p2: nat, e2: nat)
    requires LeftmostLongest(s, p1, e1) && LeftmostLongest(s, p2, e2)
    ensures p1 == p2 && e1 == e2
  {
  }

  /** The first token start, with the end `CodeEnd` finds there, is the leftmost-longest match. */
  lemma {:induction false} FirstCodeLeftmostLongest(s: string, p: nat)
    requires FirstCodeAt(s, 0) == Some(p)
    ensures LeftmostLongest(s, p, CodeEnd(s, p).value)
  {
    forall q, e' | 0 <= q < p && q <= e' <= |s| ensures !IsCode(s[q..e']) {
      CodeEndNone(s, q);
    }
  }

  /** `extractCourseCode`: the first match of `[A-Z]+\s+\d+[A-Z]*` in the line. */
  function ExtractCourseCode(s: string): (r: Option<string>)
    ensures r.Some? ==> IsCode(r.value) && exists i: nat :: OccursAt(s, r.value, i)
    ensures r.Some? ==> exists p: nat, e: nat :: LeftmostLongest(s, p, e) && r.value == s[p..e]
    ensures r.None? <==> forall i, e | 0 <= i <= e <= |s| :: !IsCode(s[i..e])
  {
    match FirstCodeAt(s, 0)
    case Some(p) =>
      var e := CodeEnd(s, p).value;
      FirstCodeLeftmostLongest(s, p);
      assert OccursAt(s, s[p..e], p);
      Some(s[p..e])
    case None =>
      NoCodeAnywhere(s);
      None
  }

  /** The first separator `" - "` of `s` starts at `p`. */
  ghost predicate FirstSeparator(s: string, p: nat)
  {
    OccursAt(s, " - ", p) && forall q | 0 <= q < p :: !OccursAt(s, " - ", q)
  }

  /** `extractCourseName`: `s.split(' - ')[0].trim()`, the text before the first separator. */
  function ExtractCourseName(s: string): (r: string)
    ensures IsTrimmed(r)
    ensures forall p: nat | FirstSeparator(s, p) :: r == Trim(s[..p])
    ensures (forall p: nat :: !OccursAt(s, " - ", p)) ==> r == Trim(s)
  {
    match IndexOf(s, " - ", 0)
    case Some(p) =>
      FirstSeparatorIs(s, p);
      Trim(s[..p])
    case None => Trim(s)
  }

  /** The separator `indexOf` finds is the only first separator. */
  lemma {:induction false} FirstSeparatorIs(s: string, p: nat)
    requires IndexOf(s, " - ", 0) == Some(p)
    ensures forall q: nat | FirstSeparator(s, q) :: q == p
  {
  }

  /** No space in `name` is directly followed by a dash, so no separator starts inside it. */
  predicate NoSpaceDash(name: string)
  {
    forall m | 0 <= m && m + 1 < |name| :: !(name[m] == ' ' && name[m + 1] == '-')
  }

  /** A name in which no space precedes a dash is what comes before the separator. */
  lemma {:induction false} NameBeforeSeparator(name: string, rest: string)
    requires NoSpaceDash(name)
    ensures ExtractCourseName(name + " - " + rest) == Trim(name)
  {
    var s := name + " - " + rest;
    forall j | 0 <= j < |name| ensures !OccursAt(s, " - ", j) {
      assert s[j] == name[j];
      assert s[j + 1] == (if j + 1 < |name| then name[j + 1] else ' ');
    }
    assert s[..|name|] == name;
    assert FirstSeparator(s, |name|);
  }

  /** A dash inside a word stays in the name: `"Pre-Calculus - MATH 110"` gives `"Pre-Calculus"`. */
  lemma {:induction false} HyphenatedNameExample(line: string)
    requires line == "Pre-Calculus - MATH 110"
    ensures ExtractCourseName(line) == "Pre-Calculus"
  {
    var name := "Pre-Calculus";
    assert NoSpaceDash(name);
    assert line == name + " - " + "MATH 110";
    NameBeforeSeparator(name, "MATH 110");
    TrimTrimmed(name);
  }

  /** A line without a dash is its own name, trimmed. */
  lemma {:induction false} NameWithoutSeparator(s: string)
    requires forall m | 0 <= m < |s| :: s[m] != '-'
    ensures ExtractCourseName(s) == Trim(s)
  {
    forall j | 0 <= j ensures !OccursAt(s, " - ", j) {
      if j + 3 <= |s| {
        assert s[j..j + 3][1] == s[j + 1] != '-' == " - "[1];
      }
    }
  }

  /**
   * After a prefix with no digit that does not end in a capital letter, the
   * first code token is the one that starts right after the prefix.
   */
  lemma {:induction false} FirstCodeAfterPlainPrefix(prefix: string, code: string, rest: string)
    requires forall m | 0 <= m < |prefix| :: !IsDigit(prefix[m])
    requires |prefix| == 0 || !IsUpper(prefix[|prefix| - 1])
    requires IsCode(code)
    requires |rest| == 0 || IsSpace(rest[0])
    ensures ExtractCourseCode(prefix + code + rest) == Some(code)
  {
    var s := prefix + code + rest;
    var n, e := |prefix|, |prefix| + |code|;
    CodeChars(code);
    assert s[..n] == prefix;
    PrefixChars(s, prefix);
    assert s[n..e] == code;
    assert e == |s| || s[e] == rest[0];
    CodeEndComplete(s, n, e);
    forall q | 0 <= q < n ensures CodeEnd(s, q).None? {
      NoCodeStartsInPrefix(s, n, q);
    }
    FirstCodeIs(s, n, e);
  }

  /** The code extracted is the token at `n` when no token starts before it. */
  lemma {:induction false} FirstCodeIs(s: string, n: nat, e: nat)
    requires n <= |s| && CodeEnd(s, n) == Some(e)
    requires forall q | 0 <= q < n :: CodeEnd(s, q).None?
    ensures ExtractCourseCode(s) == Some(s[n..e])
  {
    var r := FirstCodeAt(s, 0);
    assert r.Some?;
    assert r.value <= n;
    assert !(r.value < n);
  }

  /** No code token starts inside a digit-free prefix that ends in a non-capital and is followed by a capital. */
  lemma {:induction false} NoCodeStartsInPrefix(s: string, n: nat, q: nat)
    requires q < n < |s| && !IsUpper(s[n - 1]) && IsUpper(s[n])
    requires forall m | 0 <= m < n :: !IsDigit(s[m])
    ensures CodeEnd(s, q).None?
  {
    SpanStopsBefore(s, q, n, Upper);
    var a := Span(s, q, Upper);
    SpanStopsBefore(s, a, n + 1, Space);
  }

  /** On `<name> - <code>[ - TAG]` with a digit-free name, the first code is `code`. */
  lemma {:induction false} PermissiveCodeOfPlainLine(name: string, code: string, rest: string)
    requires forall m | 0 <= m < |name| :: !IsDigit(name[m])
    requires IsCode(code) && (|rest| == 0 || IsSpace(rest[0]))
    ensures ExtractCourseCode(name + " - " + code + rest) == Some(code)
  {
    assert name + " - " + code + rest == (name + " - ") + code + rest;
    FirstCodeAfterPlainPrefix(name + " - ", code, rest);
  }

  /** On `<name> - <rest>`, where no space in the name precedes a dash, the name is the trimmed `name`. */
  lemma {:induction false} PermissiveNameOfPlainLine(name: string, code: string, rest: string)
    requires NoSpaceDash(name)
    ensures ExtractCourseName(name + " - " + code + rest) == Trim(name)
  {
    assert name + " - " + code + rest == name + " - " + (code + rest);
    NameBeforeSeparator(name, code + rest);
  }

  /**
   * On a plain long-form line, whose name has neither a dash nor a digit, both
   * importers read the same code and the same name.
   */
  lemma {:induction false} ParsersAgree(name: string, code: string, tag: string)
    requires |name| > 0 && !IsSpace(name[|name| - 1])
    requires forall m | 0 <= m < |name| :: name[m] != '-' && !IsLineTerminator(name[m]) && !IsDigit(name[m])
    requires IsCode(code)
    requires forall m | 0 <= m < |tag| :: IsUpper(tag[m])
    ensures var line := name + " - " + code + ImportAllCourses.TagSuffix(tag);
      && ImportAllCourses.ParseCourseLine(line) == Some(ImportAllCourses.ParsedCourse(code, Trim(name)))
      && ExtractCourseCode(line) == Some(code)
      && ExtractCourseName(line) == Trim(name)
  {
    var rest := ImportAllCourses.TagSuffix(tag);
    ImportAllCourses.ParseLongForm(name, code, tag);
    PermissiveCodeOfPlainLine(name, code, rest);
    PermissiveNameOfPlainLine(name, code, rest);
  }

  /**
   * On a line whose name holds a code, the importers disagree: the primary one
   * takes the last code and keeps the earlier one in the name, the alternate
   * one takes the first code.
   */
  lemma {:induction false} ParsersDisagree(line: string)
    requires line == "Topics in COMP 101 - COMP 102"
    ensures ImportAllCourses.ParseCourseLine(line) == Some(ImportAllCourses.ParsedCourse("COMP 102", "Topics in COMP 101"))
    ensures ExtractCourseCode(line) == Some("COMP 101")
    ensures ExtractCourseName(line) == "Topics in COMP 101"
  {
    StrictReadsLastCode(line);
    PermissiveCodeExample(line);
    PermissiveNameExample(line);
  }

  lemma {:induction false} StrictReadsLastCode(line: string)
    requires line == "Topics in COMP 101 - COMP 102"
    ensures ImportAllCourses.ParseCourseLine(line) == Some(ImportAllCourses.ParsedCourse("COMP 102", "Topics in COMP 101"))
  {
    var name, last := "Topics in COMP 101", "COMP 102";
    TopicsIsPlain(name);
    assert CodeShape(last, 4, 5, 8);
    assert line == name + " - " + last + ImportAllCourses.TagSuffix("");
    ImportAllCourses.ParsePlainName(name, last, "");
  }

  lemma {:induction false} TopicsIsPlain(name: string)
    requires name == "Topics in COMP 101"
    ensures ImportAllCourses.PlainName(name)
  {
  }

  lemma {:induction false} PermissiveCodeExample(line: string)
    requires line == "Topics in COMP 101 - COMP 102"
    ensures ExtractCourseCode(line) == Some("COMP 101")
  {
    var first := "COMP 101";
    assert CodeShape(first, 4, 5, 8);
    assert line == "Topics in " + first + " - COMP 102";
    FirstCodeAfterPlainPrefix("Topics in ", first, " - COMP 102");
  }

  lemma {:induction false} PermissiveNameExample(line: string)
    requires line == "Topics in COMP 101 - COMP 102"
    ensures ExtractCourseName(line) == "Topics in COMP 101"
  {
    var name, last := "Topics in COMP 101", "COMP 102";
    assert line == name + " - " + last;
    NameBeforeSeparator(name, last);
    TrimTrimmed(name);
  }

  // ---------------------------------------------------------------------------
  // Collecting unique courses.
  // ---------------------------------------------------------------------------

  /** `s.replace(/["]/g, '')` */
  function RemoveDoubleQuotes(s: string): (r: string)
    ensures |r| <= |s|
    ensures forall m | 0 <= m < |r| :: r[m] != '"'
    ensures (forall m | 0 <= m < |s| :: s[m] != '"') ==> r == s
  {
    if |s| == 0 then ""
    else
      var r0 := RemoveDoubleQuotes(s[..|s| - 1]);
      assert s == s[..|s| - 1] + [s[|s| - 1]];
      if s[|s| - 1] == '"' then r0 else r0 + [s[|s| - 1]]
  }

  /** Removing quotes works piece by piece. */
  lemma {:induction false} RemoveDoubleQuotesAppend(a: string, b: string)
    ensures RemoveDoubleQuotes(a + b) == RemoveDoubleQuotes(a) + RemoveDoubleQuotes(b)
    decreases |b|
  {
    if |b| == 0 {
      assert a + b == a;
    } else {
      var n := |b| - 1;
      RemoveDoubleQuotesAppend(a, b[..n]);
      assert (a + b)[..|a + b| - 1] == a + b[..n];
      assert (a + b)[|a + b| - 1] == b[n];
    }
  }

  /** On one character: a double quote disappears, anything else stays. */
  lemma {:induction false} RemoveDoubleQuotesChar(c: char)
    ensures RemoveDoubleQuotes([c]) == if c == '"' then [] else [c]
  {
    assert [c][..0] == [];
  }

  /** A double quote anywhere in the label is dropped, wherever it sits. */
  lemma {:induction false} CleanDepartmentDropsQuote(a: string, b: string)
    ensures CleanDepartment(a + ['"'] + b) == CleanDepartment(a + b)
  {
    RemoveDoubleQuotesAppend(a + ['"'], b);
    RemoveDoubleQuotesAppend(a, ['"']);
    RemoveDoubleQuotesChar('"');
    RemoveDoubleQuotesAppend(a, b);
    assert RemoveDoubleQuotes(a) + [] == RemoveDoubleQuotes(a);
  }

  /** A quoted label with no quote inside cleans to its trimmed inside. */
  lemma {:induction false} CleanDepartmentQuoted(t: string)
    requires forall m | 0 <= m < |t| :: t[m] != '"'
    ensures CleanDepartment(['"'] + t + ['"']) == Trim(t)
  {
    CleanDepartmentDropsQuote([], t + ['"']);
    assert [] + ['"'] + (t + ['"']) == ['"'] + t + ['"'];
    assert [] + (t + ['"']) == t + ['"'];
    CleanDepartmentDropsQuote(t, []);
    assert t + ['"'] + [] == t + ['"'];
    assert t + [] == t;
  }

  /** The cleaned department label: every double quote removed, then trimmed. */
  function CleanDepartment(raw: string): (r: string)
    ensures IsTrimmed(r)
    ensures forall m | 0 <= m < |r| :: r[m] != '"'
  {
    var t := RemoveDoubleQuotes(raw);
    var r := Trim(t);
    TrimIsSlice(t);
    var a: nat :| OccursAt(t, r, a);
    assert forall m | 0 <= m < |r| :: r[m] == t[a + m];
    r
  }

  /** One top-level entry of the catalogue: its label and its lines. */
  datatype CatalogEntry = CatalogEntry(title: string, lines: seq<string>)

  /** The record kept per code and later upserted. */
  datatype CourseRow = CourseRow(name: string, code: string, departmentId: string)

  function RowCode(r: CourseRow): string
  {
    r.code
  }

  /** The row one line contributes: none when the line has no code. */
  function LineRow(line: string, id: string): (r: seq<CourseRow>)
    ensures |r| <= 1
    ensures forall x | x in r :: IsCode(x.code) && x.departmentId == id
  {
    match ExtractCourseCode(line)
    case Some(code) => [CourseRow(ExtractCourseName(line), code, id)]
    case None => []
  }

  function LineRows(lines: seq<string>, id: string): (r: seq<CourseRow>)
    ensures forall x | x in r :: IsCode(x.code) && x.departmentId == id
  {
    if |lines| == 0 then [] else LineRows(lines[..|lines| - 1], id) + LineRow(lines[|lines| - 1], id)
  }

  /** The rows of one entry: none when its department is not found. */
  function EntryRows(depts: seq<Department>, entry: CatalogEntry): (r: seq<CourseRow>)
    ensures forall x | x in r :: IsCode(x.code) && x.departmentId != ""
  {
    match DepartmentId(depts, CleanDepartment(entry.title))
    case Some(id) => LineRows(entry.lines, id)
    case None => []
  }

  /** Every row of every entry, in catalogue order, before deduplication. */
  function CatalogRows(depts: seq<Department>, entries: seq<CatalogEntry>): (r: seq<CourseRow>)
    ensures forall x | x in r :: IsCode(x.code) && x.departmentId != ""
  {
    if |entries| == 0 then [] else CatalogRows(depts, entries[..|entries| - 1]) + EntryRows(depts, entries[|entries| - 1])
  }

  lemma {:induction false} LineRowsStep(lines: seq<string>, j: nat, id: string, before: seq<CourseRow>)
    requires j < |lines|
    ensures before + LineRows(lines[..j + 1], id) == before + LineRows(lines[..j], id) + LineRow(lines[j], id)
  {
    assert lines[..j + 1][..j] == lines[..j];
  }

  lemma {:induction false} CatalogRowsSnoc(depts: seq<Department>, entries: seq<CatalogEntry>, e: CatalogEntry)
    ensures CatalogRows(depts, entries + [e]) == CatalogRows(depts, entries) + EntryRows(depts, e)
  {
    assert (entries + [e])[..|entries|] == entries;
  }

  /** The rows of one more catalogue entry: none when its label has no department, else its lines' rows. */
  lemma {:induction false} EntryStep(depts: seq<Department>, entries: seq<CatalogEntry>, i: nat)
    requires i < |entries|
    ensures DepartmentId(depts, CleanDepartment(entries[i].title)).None? ==>
      CatalogRows(depts, entries[..i + 1]) == CatalogRows(depts, entries[..i])
    ensures DepartmentId(depts, CleanDepartment(entries[i].title)).Some? ==>
      CatalogRows(depts, entries[..i + 1]) ==
        CatalogRows(depts, entries[..i]) + LineRows(entries[i].lines, DepartmentId(depts, CleanDepartment(entries[i].title)).value)
  {
    assert entries[..i + 1] == entries[..i] + [entries[i]];
    CatalogRowsSnoc(depts, entries[..i], entries[i]);
    assert CatalogRows(depts, entries[..i]) + [] == CatalogRows(depts, entries[..i]);
  }

  /** One step of the collection loop keeps the map's keys and values in step with `DedupBy`. */
  lemma {:induction false} CollectStep(prefix: seq<CourseRow>, x: CourseRow)
    ensures KeysOf(prefix + [x], RowCode) == KeysOf(prefix, RowCode) + {x.code}
    ensures DedupBy(prefix + [x], RowCode) ==
      if x.code in KeysOf(prefix, RowCode) then DedupBy(prefix, RowCode) else DedupBy(prefix, RowCode) + [x]
  {
    DedupBySnoc(prefix, x, RowCode);
    KeysOfSnoc(prefix, x, RowCode);
  }

  /**
   * The inner loop over one entry's lines. The map `coursesSet` is its key set
   * `codes` together with its values in insertion order.
   */
  method CollectLines(lines: seq<string>, id: string, ghost before: seq<CourseRow>,
                      codes0: set<string>, values0: seq<CourseRow>)
    returns (codes: set<string>, values: seq<CourseRow>)
    requires codes0 == KeysOf(before, RowCode) && values0 == DedupBy(before, RowCode)
    ensures codes == KeysOf(before + LineRows(lines, id), RowCode)
    ensures values == DedupBy(before + LineRows(lines, id), RowCode)
  {
    codes, values := codes0, values0;
    assert LineRows(lines[..0], id) == [];
    assert before + [] == before;
    for j := 0 to |lines|
      invariant codes == KeysOf(before + LineRows(lines[..j], id), RowCode)
      invariant values == DedupBy(before + LineRows(lines[..j], id), RowCode)
    {
      ghost var prefix := before + LineRows(lines[..j], id);
      LineRowsStep(lines, j, id, before);
      var courseCode := ExtractCourseCode(lines[j]);
      if courseCode.None? {
        assert LineRow(lines[j], id) == [];
        assert prefix + [] == prefix;
        continue;
      }
      var row := CourseRow(ExtractCourseName(lines[j]), courseCode.value, id);
      assert LineRow(lines[j], id) == [row];
      CollectStep(prefix, row);
      if courseCode.value !in codes {
        codes := codes + {courseCode.value};
        values := values + [row];
      }
    }
    assert lines[..|lines|] == lines;
  }

  /** The collection loop: one row per code, the first one seen, in first-seen order. */
  method CollectCourses(depts: seq<Department>, entries: seq<CatalogEntry>) returns (coursesToInsert: seq<CourseRow>)
    ensures coursesToInsert == DedupBy(CatalogRows(depts, entries), RowCode)
  {
    var codes: set<string> := {};
    coursesToInsert := [];
    for i := 0 to |entries|
      invariant codes == KeysOf(CatalogRows(depts, entries[..i]), RowCode)
      invariant coursesToInsert == DedupBy(CatalogRows(depts, entries[..i]), RowCode)
    {
      var entry := entries[i];
      EntryStep(depts, entries, i);
      ghost var before := CatalogRows(depts, entries[..i]);
      var departmentId := DepartmentId(depts, CleanDepartment(entry.title));
      if departmentId.None? {
        continue;
      }
      codes, coursesToInsert := CollectLines(entry.lines, departmentId.value, before, codes, coursesToInsert);
    }
    assert entries[..|entries|] == entries;
  }

  /**
   * Every code the catalogue yields is collected exactly once, under the
   * first row that had it.
   */
  lemma {:induction false} CollectedOncePerCode(depts: seq<Department>, entries: seq<CatalogEntry>)
    ensures var rows := CatalogRows(depts, entries);
      var kept := DedupBy(rows, RowCode);
      && (forall i, j | 0 <= i < j < |kept| :: kept[i].code != kept[j].code)
      && (forall x | x in rows :: exists k | 0 <= k < |kept| :: kept[k].code == x.code)
  {
    var rows := CatalogRows(depts, entries);
    var kept := DedupBy(rows, RowCode);
    forall x | x in rows ensures exists k | 0 <= k < |kept| :: kept[k].code == x.code {
      var m :| 0 <= m < |rows| && rows[m] == x;
      assert RowCode(rows[m]) in KeysOf(rows, RowCode);
    }
  }

  // ---------------------------------------------------------------------------
  // Upserting in batches of 100.
  // ---------------------------------------------------------------------------

  const BatchSize: nat := 100

  /** The codes the successful batches bring into the table (the upsert ignores codes already there). */
  function UpsertedCodes(bs: seq<seq<CourseRow>>, batchFails: nat -> bool): set<string>
  {
    if |bs| == 0 then {}
    else
      UpsertedCodes(bs[..|bs| - 1], batchFails)
      + (if batchFails(|bs| - 1) then {} else KeysOf(bs[|bs| - 1], RowCode))
  }

  lemma {:induction false} UpsertedCodesSnoc(bs: seq<seq<CourseRow>>, b: seq<CourseRow>, batchFails: nat -> bool)
    ensures UpsertedCodes(bs + [b], batchFails)
            == UpsertedCodes(bs, batchFails) + (if batchFails(|bs|) then {} else KeysOf(b, RowCode))
  {
    assert (bs + [b])[..|bs|] == bs;
  }

  /** A successful batch adds its codes to the table; a failed one leaves it. */
  lemma {:induction false} UpsertStoredStep(existing: set<string>, stored: set<string>, done: seq<seq<CourseRow>>,
                                            batch: seq<CourseRow>, batchFails: nat -> bool)
    requires stored == existing + UpsertedCodes(done, batchFails)
    ensures (if batchFails(|done|) then stored else stored + KeysOf(batch, RowCode))
            == existing + UpsertedCodes(done + [batch], batchFails)
  {
    UpsertedCodesSnoc(done, batch, batchFails);
  }

  /**
   * The batch loop: a failed batch adds its size to `skipped`, a successful
   * one to `imported`; `stored` is the set of codes in the table afterwards.
   */
  method UpsertBatches(courses: seq<CourseRow>, existing: set<string>, batchFails: nat -> bool)
    returns (imported: nat, skipped: nat, stored: set<string>)
    ensures imported == SizesWhere(Chunks(courses, BatchSize), batchFails, false)
    ensures skipped == SizesWhere(Chunks(courses, BatchSize), batchFails, true)
    ensures stored == existing + UpsertedCodes(Chunks(courses, BatchSize), batchFails)
  {
    imported, skipped, stored := 0, 0, existing;
    ghost var done: seq<seq<CourseRow>> := [];
    var i, batchIndex := 0, 0;
    assert courses[0..] == courses;
    while i < |courses|
      invariant batchIndex == |done|
      invariant Chunks(courses, BatchSize) == done + Chunks(courses[Min(i, |courses|)..], BatchSize)
      invariant imported == SizesWhere(done, batchFails, false)
      invariant skipped == SizesWhere(done, batchFails, true)
      invariant stored == existing + UpsertedCodes(done, batchFails)
      decreases |courses| - i
    {
      var batch := courses[i..Min(i + BatchSize, |courses|)];
      ChunksAdvance(courses, BatchSize, i, done);
      SizesWhereSnoc(done, batch, batchFails, false);
      SizesWhereSnoc(done, batch, batchFails, true);
      UpsertStoredStep(existing, stored, done, batch, batchFails);
      if batchFails(batchIndex) {
        skipped := skipped + |batch|;
      } else {
        imported := imported + |batch|;
        stored := stored + KeysOf(batch, RowCode);
      }
      done := done + [batch];
      i, batchIndex := i + BatchSize, batchIndex + 1;
    }
    ChunksDone(courses, BatchSize, i, done);
  }

  /** Every collected course is counted once, as imported or as skipped. */
  lemma {:induction false} UpsertCountsEveryCourse(courses: seq<CourseRow>, batchFails: nat -> bool)
    ensures SizesWhere(Chunks(courses, BatchSize), batchFails, false)
          + SizesWhere(Chunks(courses, BatchSize), batchFails, true) == |courses|
  {
    ChunksAreBatches(courses, BatchSize);
    SizesWhereSplit(Chunks(courses, BatchSize), batchFails);
  }

  /** When no batch fails, the table ends up holding every collected code. */
  lemma {:induction false} UpsertAllSucceed(bs: seq<seq<CourseRow>>, batchFails: nat -> bool)
    requires forall j: nat :: !batchFails(j)
    ensures UpsertedCodes(bs, batchFails) == KeysOf(Flatten(bs), RowCode)
    decreases |bs|
  {
    if |bs| > 0 {
      var n := |bs| - 1;
      UpsertAllSucceed(bs[..n], batchFails);
      FlattenSnoc(bs[..n], bs[n]);
      assert bs[..n] + [bs[n]] == bs;
      KeysOfAppend(Flatten(bs[..n]), bs[n], RowCode);
    }
  }

  /** The result of one run of the importer. */
  datatype ImportReport = ImportReport(total: nat, imported: nat, skipped: nat)

  /**
   * The whole import: nothing when the department query fails (a null list is
   * an empty map); otherwise the collected courses are upserted in batches.
   */
  method ImportCourses(departments: Response<seq<Department>>, entries: seq<CatalogEntry>, existing: set<string>,
                       batchFails: nat -> bool)
    returns (report: Option<ImportReport>, stored: set<string>)
    ensures departments.ResponseError? ==> report.None? && stored == existing
    ensures departments.ResponseData? ==>
      var depts := if departments.data.Some? then departments.data.value else [];
      var courses := DedupBy(CatalogRows(depts, entries), RowCode);
      && report.Some?
      && report.value.total == |courses|
      && report.value.imported + report.value.skipped == report.value.total
      && report.value.imported == SizesWhere(Chunks(courses, BatchSize), batchFails, false)
      && stored == existing + UpsertedCodes(Chunks(courses, BatchSize), batchFails)
  {
    if departments.ResponseError? {
      return None, existing;
    }
    var depts := if departments.data.Some? then departments.data.value else [];
    var coursesToInsert := CollectCourses(depts, entries);
    var imported, skipped;
    imported, skipped, stored := UpsertBatches(coursesToInsert, existing, batchFails);
    UpsertCountsEveryCourse(coursesToInsert, batchFails);
    report := Some(ImportReport(|coursesToInsert|, imported, skipped));
  }
}
