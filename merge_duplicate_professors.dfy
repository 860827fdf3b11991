/**
 * The duplicate-professor analysis (`scripts/merge-duplicate-professors.ts`):
 * professors are grouped by exact name, the names held by more than one
 * record are reported with their distinct departments, and the first record
 * of each is named as the one to keep. The pass only reads.
 */
module MergeDuplicateProfessors {
  import opened Base
  import opened Seqs

  /** The department a professor row joins to. */
  datatype DepartmentRef = DepartmentRef(name: string, code: string)

  /** A professor row as the query reads it. */
  datatype ProfessorRecord = ProfessorRecord(
    id: string,
    name: string,
    departmentId: Option<string>,
    department: Option<DepartmentRef>)

  function NameOf(p: ProfessorRecord): string { p.name }

  /**
   * `professorMap`, filled one row at a time: a name seen for the first
   * time opens an empty list, and the row is pushed onto its name's list.
   */
  method GroupByName(professors: seq<ProfessorRecord>) returns (professorMap: seq<Group<string, ProfessorRecord>>)
    ensures professorMap == GroupBy(professors, NameOf)
  {
    professorMap := [];
    for k := 0 to |professors|
      invariant professorMap == GroupBy(professors[..k], NameOf)
    {
      var prof := professors[k];
      assert professors[..k + 1] == professors[..k] + [prof];
      GroupBySnoc(professors[..k], prof, NameOf);
      ghost var before := professorMap;
      var i := FindGroup(professorMap, prof.name);
      if i == |professorMap| {
        professorMap := professorMap + [Group(prof.name, [])];
      }
      professorMap := professorMap[i := Group(prof.name, professorMap[i].members + [prof])];
      if i == |before| {
        assert [] + [prof] == [prof];
        assert professorMap[i] == Group(prof.name, [prof]);
        assert professorMap == before + [Group(prof.name, [prof])];
      }
      assert professorMap == AddToGroup(before, NameOf(prof), prof);
    }
    assert professors[..|professors|] == professors;
  }

  /** The groups of more than one record, in map order. */
  function Duplicates(gs: seq<Group<string, ProfessorRecord>>): (r: seq<Group<string, ProfessorRecord>>)
    ensures forall g | g in r :: g in gs && |g.members| > 1
    ensures forall g | g in gs && |g.members| > 1 :: g in r
  {
    if |gs| == 0 then []
    else
      var g := gs[|gs| - 1];
      assert forall h | h in gs :: h in gs[..|gs| - 1] || h == g;
      Duplicates(gs[..|gs| - 1]) + (if |g.members| > 1 then [g] else [])
  }

  /**
   * `d` is the sublist of the groups of more than one record, in map order:
   * `idx` gives, increasing, the position in `gs` of each element of `d`.
   */
  ghost predicate MultiRecordGroupsAt(gs: seq<Group<string, ProfessorRecord>>, d: seq<Group<string, ProfessorRecord>>,
                                      idx: seq<nat>)
  {
    && |idx| == |d|
    && (forall i | 0 <= i < |idx| :: idx[i] < |gs| && d[i] == gs[idx[i]] && |gs[idx[i]].members| > 1)
    && (forall i, j | 0 <= i < j < |idx| :: idx[i] < idx[j])
    && (forall j | 0 <= j < |gs| && |gs[j].members| > 1 :: j in idx)
  }

  /**
   * The filter keeps every group of more than one record, and only those, in
   * the map's order; so `duplicates.length` is the number of such groups.
   */
  lemma {:induction false} DuplicatesInOrder(gs: seq<Group<string, ProfessorRecord>>) returns (idx: seq<nat>)
    ensures MultiRecordGroupsAt(gs, Duplicates(gs), idx)
    decreases |gs|
  {
    if |gs| == 0 {
      idx := [];
    } else {
      var n := |gs| - 1;
      var gs0, g := gs[..n], gs[n];
      assert gs == gs0 + [g];
      var idx0 := DuplicatesInOrder(gs0);
      DuplicatesSnoc(gs0, g);
      if |g.members| > 1 {
        idx := idx0 + [n];
        MultiRecordKeep(gs0, g, Duplicates(gs0), idx0);
      } else {
        idx := idx0;
        MultiRecordSkip(gs0, g, Duplicates(gs0), idx0);
      }
    }
  }

  lemma {:induction false} DuplicatesSnoc(gs: seq<Group<string, ProfessorRecord>>, g: Group<string, ProfessorRecord>)
    ensures Duplicates(gs + [g]) == Duplicates(gs) + (if |g.members| > 1 then [g] else [])
  {
    assert (gs + [g])[..|gs|] == gs;
  }

  /** A group of more than one record is appended to the sublist, at its own position. */
  lemma {:induction false} MultiRecordKeep(gs: seq<Group<string, ProfessorRecord>>, g: Group<string, ProfessorRecord>,
                                          d: seq<Group<string, ProfessorRecord>>, idx: seq<nat>)
    requires MultiRecordGroupsAt(gs, d, idx) && |g.members| > 1
    ensures MultiRecordGroupsAt(gs + [g], d + [g], idx + [|gs|])
  {
    var gs', d', idx' := gs + [g], d + [g], idx + [|gs|];
    forall i | 0 <= i < |idx'| ensures idx'[i] < |gs'| && d'[i] == gs'[idx'[i]] && |gs'[idx'[i]].members| > 1 {
      if i < |idx| {
        assert idx'[i] == idx[i] && d'[i] == d[i] && gs'[idx[i]] == gs[idx[i]];
      }
    }
    forall j | 0 <= j < |gs'| && |gs'[j].members| > 1 ensures j in idx' {
      if j < |gs| {
        assert gs'[j] == gs[j];
        assert j in idx;
      } else {
        assert idx'[|idx|] == j;
      }
    }
  }

  /** A group of one record leaves the sublist as it is. */
  lemma {:induction false} MultiRecordSkip(gs: seq<Group<string, ProfessorRecord>>, g: Group<string, ProfessorRecord>,
                                          d: seq<Group<string, ProfessorRecord>>, idx: seq<nat>)
    requires MultiRecordGroupsAt(gs, d, idx) && |g.members| <= 1
    ensures MultiRecordGroupsAt(gs + [g], d + [], idx)
  {
    var gs' := gs + [g];
    assert d + [] == d;
    forall i | 0 <= i < |idx| ensures gs'[idx[i]] == gs[idx[i]] {
    }
    forall j | 0 <= j < |gs'| && |gs'[j].members| > 1 ensures j in idx {
      assert gs'[j] == gs[j];
    }
  }

  /** The reported number of records to merge: each group's size less one. */
  function ExtraRecords(gs: seq<Group<string, ProfessorRecord>>): (e: nat)
    ensures e <= TotalSize(gs)
    ensures e + |gs| >= TotalSize(gs)
  {
    if |gs| == 0 then 0
    else
      var g := gs[|gs| - 1];
      ExtraRecords(gs[..|gs| - 1]) + (if |g.members| > 0 then |g.members| - 1 else 0)
  }

  /** The elements of `vs` without repeats, each at its first position (`filter((v, i, a) => a.indexOf(v) === i)`). */
  function Distinct(vs: seq<string>): (r: seq<string>)
    ensures forall v :: v in r <==> v in vs
    ensures forall i, j | 0 <= i < j < |r| :: r[i] != r[j]
    ensures exists idx: seq<nat> :: IndexesFirstOccurrences(vs, Self, r, idx)
  {
    var r := DedupBy(vs, Self);
    assert forall v :: v in r <==> v in KeysOf(r, Self);
    assert forall v :: v in vs <==> v in KeysOf(vs, Self);
    KeepsFirstOccurrences(vs);
    r
  }

  /** The kept values are the first occurrences, in input order. */
  lemma {:induction false} KeepsFirstOccurrences(vs: seq<string>)
    ensures exists idx: seq<nat> :: IndexesFirstOccurrences(vs, Self, DedupBy(vs, Self), idx)
  {
    var idx := DedupByFirstOccurrences(vs, Self);
  }

  /** Values compared as themselves, as `indexOf` does. */
  function Self(v: string): string { v }

  /** A row's department name, `'Unknown'` when it has none (or an empty one). */
  function DepartmentName(p: ProfessorRecord): (r: string)
    ensures r != ""
    ensures r == "Unknown" || (p.department.Some? && r == p.department.value.name)
    ensures p.department.Some? && p.department.value.name != "" ==> r == p.department.value.name
    ensures p.department.None? || p.department.value.name == "" ==> r == "Unknown"
  {
    if p.department.Some? && p.department.value.name != "" then p.department.value.name else "Unknown"
  }

  /** A row's department code, `'UNKN'` when it has none (or an empty one). */
  function DepartmentCode(p: ProfessorRecord): (r: string)
    ensures r != ""
    ensures r == "UNKN" || (p.department.Some? && r == p.department.value.code)
    ensures p.department.Some? && p.department.value.code != "" ==> r == p.department.value.code
    ensures p.department.None? || p.department.value.code == "" ==> r == "UNKN"
  {
    if p.department.Some? && p.department.value.code != "" then p.department.value.code else "UNKN"
  }

  function Ids(profs: seq<ProfessorRecord>): (r: seq<string>)
    ensures |r| == |profs|
    ensures forall i | 0 <= i < |profs| :: r[i] == profs[i].id
  {
    seq(|profs|, i requires 0 <= i < |profs| => profs[i].id)
  }

  /** What the analysis reports for one duplicated name. */
  datatype DuplicateEntry = DuplicateEntry(
    name: string,
    count: nat,
    departments: seq<string>,
    departmentCodes: seq<string>,
    keep: ProfessorRecord,
    mergeIds: seq<string>)

  /** `profs.map(p => p.department?.name || 'Unknown')`. */
  function DepartmentNames(profs: seq<ProfessorRecord>): (r: seq<string>)
    ensures |r| == |profs|
    ensures forall i | 0 <= i < |profs| :: r[i] == DepartmentName(profs[i])
  {
    seq(|profs|, i requires 0 <= i < |profs| => DepartmentName(profs[i]))
  }

  /** `profs.map(p => p.department?.code || 'UNKN')`. */
  function DepartmentCodes(profs: seq<ProfessorRecord>): (r: seq<string>)
    ensures |r| == |profs|
    ensures forall i | 0 <= i < |profs| :: r[i] == DepartmentCode(profs[i])
  {
    seq(|profs|, i requires 0 <= i < |profs| => DepartmentCode(profs[i]))
  }

  /**
   * The entry for one group: its name and size, its distinct department
   * names and codes in first-seen order, the first record kept and the ids
   * of the others to merge into it.
   */
  function EntryOf(g: Group<string, ProfessorRecord>): (e: DuplicateEntry)
    requires |g.members| > 0
    ensures e.name == g.key && e.count == |g.members| && e.keep == g.members[0]
    ensures [e.keep.id] + e.mergeIds == Ids(g.members)
    ensures |e.mergeIds| == e.count - 1
    ensures forall d :: d in e.departments <==> exists p | p in g.members :: DepartmentName(p) == d
    ensures forall c :: c in e.departmentCodes <==> exists p | p in g.members :: DepartmentCode(p) == c
    ensures forall i, j | 0 <= i < j < |e.departments| :: e.departments[i] != e.departments[j]
    ensures forall i, j | 0 <= i < j < |e.departmentCodes| :: e.departmentCodes[i] != e.departmentCodes[j]
    ensures exists idx :: IndexesFirstOccurrences(DepartmentNames(g.members), Self, e.departments, idx)
    ensures exists idx :: IndexesFirstOccurrences(DepartmentCodes(g.members), Self, e.departmentCodes, idx)
    ensures (forall i, j | 0 <= i < j < |g.members| :: g.members[i].id != g.members[j].id) ==> e.keep.id !in e.mergeIds
  {
    var profs := g.members;
    var names := DepartmentNames(profs);
    var codes := DepartmentCodes(profs);
    MappedValues(profs, DepartmentName, names);
    MappedValues(profs, DepartmentCode, codes);
    IdsSplit(profs);
    DuplicateEntry(g.key, |profs|, Distinct(names), Distinct(codes), profs[0], Ids(profs[1..]))
  }

  /** The values of `f` over the records are exactly the values of the mapped sequence. */
  lemma {:induction false} MappedValues<U>(profs: seq<ProfessorRecord>, f: ProfessorRecord -> U, xs: seq<U>)
    requires |xs| == |profs| && forall i | 0 <= i < |profs| :: xs[i] == f(profs[i])
    ensures forall d :: d in xs <==> exists p | p in profs :: f(p) == d
  {
    forall d ensures d in xs <==> exists p | p in profs :: f(p) == d {
      if d in xs {
        var i :| 0 <= i < |xs| && xs[i] == d;
        assert profs[i] in profs;
      }
      if exists p | p in profs :: f(p) == d {
        var p :| p in profs && f(p) == d;
        var i :| 0 <= i < |profs| && profs[i] == p;
        assert xs[i] == d;
      }
    }
  }

  /** The first id followed by the others; with distinct ids the first is not among the others. */
  lemma {:induction false} IdsSplit(profs: seq<ProfessorRecord>)
    requires |profs| > 0
    ensures Ids(profs) == [profs[0].id] + Ids(profs[1..])
    ensures (forall i, j | 0 <= i < j < |profs| :: profs[i].id != profs[j].id) ==> profs[0].id !in Ids(profs[1..])
  {
    assert Ids(profs) == [profs[0].id] + Ids(profs[1..]);
    if forall i, j | 0 <= i < j < |profs| :: profs[i].id != profs[j].id {
      forall k | 0 <= k < |profs| - 1 ensures Ids(profs[1..])[k] != profs[0].id {
        assert Ids(profs[1..])[k] == profs[k + 1].id;
      }
    }
  }

  /** The analysis: how many names are duplicated, how many records would be merged, and one entry per name. */
  datatype MergeReport = MergeReport(duplicateCount: nat, extraRecords: nat, entries: seq<DuplicateEntry>)

  /**
   * The report on the grouped rows: one entry per duplicated name, in map
   * order, and the number of records to merge, which over non-empty groups
   * is all records less one per name.
   */
  function ReportOf(gs: seq<Group<string, ProfessorRecord>>): (r: MergeReport)
    ensures r.duplicateCount == |r.entries| == |Duplicates(gs)|
    ensures forall i | 0 <= i < |r.entries| ::
      r.entries[i].name == Duplicates(gs)[i].key && r.entries[i].count > 1 && |r.entries[i].mergeIds| > 0
    ensures forall i | 0 <= i < |r.entries| :: r.entries[i] == EntryOf(Duplicates(gs)[i])
    ensures r.extraRecords == ExtraRecords(Duplicates(gs))
    ensures (forall i | 0 <= i < |gs| :: |gs[i].members| > 0) ==> r.extraRecords == TotalSize(gs) - |gs|
  {
    var ds := Duplicates(gs);
    assert (forall i | 0 <= i < |gs| :: |gs[i].members| > 0) ==> ExtraRecords(ds) == TotalSize(gs) - |gs| by {
      if forall i | 0 <= i < |gs| :: |gs[i].members| > 0 {
        ExtraRecordsOfDuplicates(gs);
      }
    }
    var entries := Entries(ds);
    MergeReport(|ds|, ExtraRecords(ds), entries)
  }

  /** One entry per duplicated group, in order. */
  function Entries(ds: seq<Group<string, ProfessorRecord>>): (r: seq<DuplicateEntry>)
    requires forall g | g in ds :: |g.members| > 1
    ensures |r| == |ds|
    ensures forall i | 0 <= i < |ds| :: r[i] == EntryOf(ds[i])
    ensures forall i | 0 <= i < |ds| :: r[i].name == ds[i].key && r[i].count > 1 && |r[i].mergeIds| > 0
  {
    var entries := seq(|ds|, i requires 0 <= i < |ds| => EntryOf(ds[i]));
    assert forall i | 0 <= i < |ds| :: entries[i].name == ds[i].key && entries[i].count > 1 && |entries[i].mergeIds| > 0 by {
      forall i | 0 <= i < |ds| ensures entries[i].name == ds[i].key && entries[i].count > 1 && |entries[i].mergeIds| > 0 {
        assert ds[i] in ds;
        var e := EntryOf(ds[i]);
        assert e.count == |ds[i].members| > 1;
      }
    }
    entries
  }

  /** The whole pass: nothing when the query fails, otherwise the report on the rows read (none when `null`). */
  method MergeDuplicateProfessors(professors: Response<seq<ProfessorRecord>>) returns (report: Option<MergeReport>)
    ensures professors.ResponseError? ==> report.None?
    ensures professors.ResponseData? ==>
      report == Some(ReportOf(GroupBy(if professors.data.Some? then professors.data.value else [], NameOf)))
  {
    if professors.ResponseError? {
      return None;
    }
    var rows := if professors.data.Some? then professors.data.value else [];
    var professorMap := GroupByName(rows);
    report := Some(ReportOf(professorMap));
  }

  /** Over non-empty groups, the records to merge are all records less one per group. */
  lemma {:induction false} ExtraRecordsOfDuplicates(gs: seq<Group<string, ProfessorRecord>>)
    requires forall i | 0 <= i < |gs| :: |gs[i].members| > 0
    ensures ExtraRecords(Duplicates(gs)) == TotalSize(gs) - |gs|
    decreases |gs|
  {
    if |gs| > 0 {
      var n := |gs| - 1;
      ExtraRecordsOfDuplicates(gs[..n]);
      var d0 := Duplicates(gs[..n]);
      if |gs[n].members| > 1 {
        ExtraRecordsSnoc(d0, gs[n]);
      } else {
        assert d0 + [] == d0;
      }
    }
  }

  lemma {:induction false} ExtraRecordsSnoc(gs: seq<Group<string, ProfessorRecord>>, g: Group<string, ProfessorRecord>)
    ensures ExtraRecords(gs + [g]) == ExtraRecords(gs) + (if |g.members| > 0 then |g.members| - 1 else 0)
  {
    assert (gs + [g])[..|gs|] == gs;
  }

  /** The reported number of records to merge is the number of rows less the number of distinct names. */
  lemma {:induction false} ExtraRecordsCount(professors: seq<ProfessorRecord>)
    ensures ExtraRecords(Duplicates(GroupBy(professors, NameOf))) == |professors| - |GroupBy(professors, NameOf)|
  {
    GroupByKeys(professors, NameOf);
    GroupByTotal(professors, NameOf);
    ExtraRecordsOfDuplicates(GroupBy(professors, NameOf));
  }

  /**
   * A name is reported as duplicated exactly when more than one row carries
   * it, and its group then holds exactly those rows, in input order.
   */
  lemma {:induction false} DuplicateIffRepeated(professors: seq<ProfessorRecord>, name: string)
    ensures (exists g | g in Duplicates(GroupBy(professors, NameOf)) :: g.key == name)
            <==> |FilterKey(professors, NameOf, name)| > 1
    ensures forall g | g in Duplicates(GroupBy(professors, NameOf)) ::
            g.members == FilterKey(professors, NameOf, g.key)
  {
    var gs := GroupBy(professors, NameOf);
    GroupByMembers(professors, NameOf);
    GroupKeysDistinct(professors, NameOf);
    if |FilterKey(professors, NameOf, name)| > 1 {
      var p := FilterKey(professors, NameOf, name)[0];
      assert p in professors && p.name == name;
      var k :| 0 <= k < |professors| && professors[k] == p;
      assert name in KeysOf(professors, NameOf);
      var m :| 0 <= m < |gs| && GroupKeys(gs)[m] == name;
      assert gs[m] in Duplicates(gs);
    }
  }
}
