/**
 * The professor importer (`scripts/import-professors.ts`): for every
 * department of the roster that the department table knows, one professor
 * record per name is inserted, in batches of 100; the names of unknown
 * departments are counted as skipped.
 */
module ImportProfessors {
  import opened Base
  import opened Seqs
  import opened Types

  /** One entry of the roster: a department name and the professors listed under it. */
  datatype RosterEntry = RosterEntry(department: string, names: seq<string>)

  /** The record inserted for a professor (the table assigns the id). */
  datatype NewProfessor = NewProfessor(
    name: string,
    departmentId: string,
    title: string,
    averageRating: int,
    totalReviews: int,
    wouldTakeAgainPercent: int,
    difficultyRating: int)

  const BatchSize: nat := 100

  /** A freshly imported professor: titled "Professor", with every aggregate at zero. */
  predicate IsFreshRecord(r: NewProfessor)
  {
    r.title == "Professor" && r.averageRating == 0 && r.totalReviews == 0
    && r.wouldTakeAgainPercent == 0 && r.difficultyRating == 0
  }

  /** The records built for one department's names, in roster order. */
  function ProfessorRecords(names: seq<string>, departmentId: string): (r: seq<NewProfessor>)
    ensures |r| == |names|
    ensures forall k | 0 <= k < |names| ::
      r[k].name == names[k] && r[k].departmentId == departmentId && IsFreshRecord(r[k])
  {
    seq(|names|, k requires 0 <= k < |names| => NewProfessor(names[k], departmentId, "Professor", 0, 0, 0, 0))
  }

  /**
   * One department's batch loop: a successful batch adds its size to
   * `imported` and its records to the table; a failed one is only logged.
   */
  method InsertBatches(records: seq<NewProfessor>, batchFails: nat -> bool)
    returns (imported: nat, inserted: seq<NewProfessor>)
    ensures imported == SizesWhere(Chunks(records, BatchSize), batchFails, false)
    ensures inserted == FlattenWhere(Chunks(records, BatchSize), batchFails, false)
  {
    imported, inserted := 0, [];
    ghost var done: seq<seq<NewProfessor>> := [];
    var i, batchIndex := 0, 0;
    assert records[0..] == records;
    while i < |records|
      invariant batchIndex == |done|
      invariant Chunks(records, BatchSize) == done + Chunks(records[Min(i, |records|)..], BatchSize)
      invariant imported == SizesWhere(done, batchFails, false)
      invariant inserted == FlattenWhere(done, batchFails, false)
      decreases |records| - i
    {
      var batch := records[i..Min(i + BatchSize, |records|)];
      ChunksAdvance(records, BatchSize, i, done);
      SizesWhereSnoc(done, batch, batchFails, false);
      FlattenWhereSnoc(done, batch, batchFails, false);
      if !batchFails(batchIndex) {
        imported := imported + |batch|;
        inserted := inserted + batch;
      }
      done := done + [batch];
      i, batchIndex := i + BatchSize, batchIndex + 1;
    }
    ChunksDone(records, BatchSize, i, done);
  }

  /** The records one roster entry adds to the table; none when its department is unknown. */
  function EntryInserted(depts: seq<Department>, e: RosterEntry, batchFails: nat -> bool): seq<NewProfessor>
  {
    match DepartmentId(depts, e.department)
    case Some(id) => FlattenWhere(Chunks(ProfessorRecords(e.names, id), BatchSize), batchFails, false)
    case None => []
  }

  /** The records of failed batches of one entry, which reach the table nowhere. */
  function EntryFailed(depts: seq<Department>, e: RosterEntry, batchFails: nat -> bool): nat
  {
    match DepartmentId(depts, e.department)
    case Some(id) => SizesWhere(Chunks(ProfessorRecords(e.names, id), BatchSize), batchFails, true)
    case None => 0
  }

  /** How many names of one entry are skipped: all of them when its department is unknown. */
  function EntrySkipped(depts: seq<Department>, e: RosterEntry): nat
  {
    if DepartmentId(depts, e.department).None? then |e.names| else 0
  }

  /** The records the whole roster adds; the `k`-th entry's `j`-th batch fails when `batchFails(k)(j)`. */
  function Inserted(depts: seq<Department>, roster: seq<RosterEntry>, batchFails: nat -> nat -> bool): seq<NewProfessor>
  {
    if |roster| == 0 then []
    else Inserted(depts, roster[..|roster| - 1], batchFails)
         + EntryInserted(depts, roster[|roster| - 1], batchFails(|roster| - 1))
  }

  function Skipped(depts: seq<Department>, roster: seq<RosterEntry>): nat
  {
    if |roster| == 0 then 0 else Skipped(depts, roster[..|roster| - 1]) + EntrySkipped(depts, roster[|roster| - 1])
  }

  function Failed(depts: seq<Department>, roster: seq<RosterEntry>, batchFails: nat -> nat -> bool): nat
  {
    if |roster| == 0 then 0
    else Failed(depts, roster[..|roster| - 1], batchFails) + EntryFailed(depts, roster[|roster| - 1], batchFails(|roster| - 1))
  }

  /** The number of names on the roster. */
  function NameCount(roster: seq<RosterEntry>): nat
  {
    if |roster| == 0 then 0 else NameCount(roster[..|roster| - 1]) + |roster[|roster| - 1].names|
  }

  /** The importer's final report. */
  datatype ImportReport = ImportReport(totalImported: nat, skipped: nat)

  /**
   * The whole import: nothing when the department query fails (a null list is
   * an empty map); otherwise every roster entry is imported in turn.
   */
  method ImportProfessors(departments: Response<seq<Department>>, roster: seq<RosterEntry>,
                          batchFails: nat -> nat -> bool)
    returns (report: Option<ImportReport>, inserted: seq<NewProfessor>)
    ensures departments.ResponseError? ==> report.None? && inserted == []
    ensures departments.ResponseData? ==>
      var depts := if departments.data.Some? then departments.data.value else [];
      && inserted == Inserted(depts, roster, batchFails)
      && report == Some(ImportReport(|inserted|, Skipped(depts, roster)))
  {
    if departments.ResponseError? {
      return None, [];
    }
    var depts := if departments.data.Some? then departments.data.value else [];
    var totalImported, skipped := 0, 0;
    inserted := [];
    for k := 0 to |roster|
      invariant inserted == Inserted(depts, roster[..k], batchFails)
      invariant totalImported == |inserted|
      invariant skipped == Skipped(depts, roster[..k])
    {
      var entry := roster[k];
      RosterStep(depts, roster, k, batchFails);
      var departmentId := DepartmentId(depts, entry.department);
      if departmentId.None? {
        skipped := skipped + |entry.names|;
        continue;
      }
      var records := ProfessorRecords(entry.names, departmentId.value);
      var imported, rows := InsertBatches(records, batchFails(k));
      FlattenWhereSize(Chunks(records, BatchSize), batchFails(k), false);
      totalImported := totalImported + imported;
      inserted := inserted + rows;
    }
    assert roster[..|roster|] == roster;
    report := Some(ImportReport(totalImported, skipped));
  }

  /** One more roster entry adds its own inserted records and skipped names. */
  lemma {:induction false} RosterStep(depts: seq<Department>, roster: seq<RosterEntry>, k: nat, batchFails: nat -> nat -> bool)
    requires k < |roster|
    ensures Inserted(depts, roster[..k + 1], batchFails) ==
      Inserted(depts, roster[..k], batchFails) + EntryInserted(depts, roster[k], batchFails(k))
    ensures Skipped(depts, roster[..k + 1]) == Skipped(depts, roster[..k]) + EntrySkipped(depts, roster[k])
  {
    assert roster[..k + 1][..k] == roster[..k];
  }

  /** Every name on the roster is imported, skipped, or lost in a failed batch: exactly one of the three. */
  lemma {:induction false} RosterAccounting(depts: seq<Department>, roster: seq<RosterEntry>, batchFails: nat -> nat -> bool)
    ensures |Inserted(depts, roster, batchFails)| + Skipped(depts, roster) + Failed(depts, roster, batchFails)
            == NameCount(roster)
    decreases |roster|
  {
    if |roster| > 0 {
      var n := |roster| - 1;
      var e := roster[n];
      RosterAccounting(depts, roster[..n], batchFails);
      match DepartmentId(depts, e.department)
      case Some(id) =>
        var records := ProfessorRecords(e.names, id);
        FlattenWhereSize(Chunks(records, BatchSize), batchFails(n), false);
        SizesWhereSplit(Chunks(records, BatchSize), batchFails(n));
        ChunksAreBatches(records, BatchSize);
      case None =>
    }
  }

  /**
   * Every record the import adds is a fresh professor of a department the
   * table knows, under that department's id.
   */
  lemma {:induction false} InsertedAreFresh(depts: seq<Department>, roster: seq<RosterEntry>, batchFails: nat -> nat -> bool)
    ensures forall r | r in Inserted(depts, roster, batchFails) ::
      IsFreshRecord(r) && r.departmentId != "" && exists i | 0 <= i < |depts| :: depts[i].id == r.departmentId
    decreases |roster|
  {
    if |roster| > 0 {
      var n := |roster| - 1;
      var e := roster[n];
      InsertedAreFresh(depts, roster[..n], batchFails);
      match DepartmentId(depts, e.department)
      case Some(id) =>
        var records := ProfessorRecords(e.names, id);
        ChunksAreBatches(records, BatchSize);
        FlattenWhereMembers(Chunks(records, BatchSize), batchFails(n), false);
        assert forall r | r in Flatten(Chunks(records, BatchSize)) :: r in records;
      case None =>
    }
  }

  /** The names of a sequence of records. */
  function Names(rs: seq<NewProfessor>): (r: seq<string>)
    ensures |r| == |rs|
  {
    if |rs| == 0 then [] else Names(rs[..|rs| - 1]) + [rs[|rs| - 1].name]
  }

  lemma {:induction false} NamesAppend(a: seq<NewProfessor>, b: seq<NewProfessor>)
    ensures Names(a + b) == Names(a) + Names(b)
    decreases |b|
  {
    if |b| > 0 {
      var n := |b| - 1;
      assert (a + b)[..|a + b| - 1] == a + b[..n];
      NamesAppend(a, b[..n]);
      assert b[..n] + [b[n]] == b;
    } else {
      assert a + b == a;
    }
  }

  lemma {:induction false} NamesOfRecords(names: seq<string>, id: string)
    ensures Names(ProfessorRecords(names, id)) == names
    decreases |names|
  {
    if |names| > 0 {
      var n := |names| - 1;
      var rs := ProfessorRecords(names, id);
      assert rs[..n] == ProfessorRecords(names[..n], id);
      NamesOfRecords(names[..n], id);
      assert names[..n] + [names[n]] == names;
    }
  }

  /** Every name on the roster, in roster order. */
  function AllNames(roster: seq<RosterEntry>): (r: seq<string>)
    ensures |r| == NameCount(roster)
  {
    if |roster| == 0 then [] else AllNames(roster[..|roster| - 1]) + roster[|roster| - 1].names
  }

  /**
   * When the table knows every roster department and no batch fails, every
   * listed professor is inserted exactly once, in roster order, and nothing
   * is skipped.
   */
  lemma {:induction false} EveryNameImported(depts: seq<Department>, roster: seq<RosterEntry>, batchFails: nat -> nat -> bool)
    requires forall k, j: nat :: !batchFails(k)(j)
    requires forall k | 0 <= k < |roster| :: DepartmentId(depts, roster[k].department).Some?
    ensures Names(Inserted(depts, roster, batchFails)) == AllNames(roster)
    ensures Skipped(depts, roster) == 0
    decreases |roster|
  {
    if |roster| > 0 {
      var n := |roster| - 1;
      var e := roster[n];
      EveryNameImported(depts, roster[..n], batchFails);
      var id := DepartmentId(depts, e.department).value;
      var records := ProfessorRecords(e.names, id);
      assert forall j: nat :: batchFails(n)(j) == false;
      FlattenWhereAll(Chunks(records, BatchSize), batchFails(n), false);
      ChunksAreBatches(records, BatchSize);
      NamesAppend(Inserted(depts, roster[..n], batchFails), records);
      NamesOfRecords(e.names, id);
    }
  }
}
