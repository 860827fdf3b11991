/**
 * The back-fill of the professor/department link table
 * (`scripts/populate-professor-departments.ts`): every professor that has a
 * department gets one (professor, department) link, inserted in batches of
 * 100; a batch refused as a duplicate is counted apart from other failures.
 */
module PopulateProfessorDepartments {
  import opened Base
  import opened Text
  import opened Seqs

  /** A professor row as the query reads it: id, name and an optional department id. */
  datatype ProfessorRow = ProfessorRow(id: string, name: string, departmentId: Option<string>)

  /** One row of the link table. */
  datatype ProfessorDepartment = ProfessorDepartment(professorId: string, departmentId: string)

  /** What the table answers to one batch insert: an error message, or the rows it returned (`null` allowed). */
  datatype InsertAnswer = InsertError(message: string) | InsertOk(returned: Option<seq<ProfessorDepartment>>)

  const BatchSize: nat := 100

  /** Whether the query keeps the row: its department is set (`.not('department_id', 'is', null)`). */
  predicate HasDepartment(p: ProfessorRow) { p.departmentId.Some? }

  /** The link a row becomes (`{ professor_id, department_id }`); only used on rows with a department. */
  function LinkOf(p: ProfessorRow): ProfessorDepartment
  {
    ProfessorDepartment(p.id, if p.departmentId.Some? then p.departmentId.value else "")
  }

  /**
   * The links for the professors whose department is set: the query keeps
   * only those rows, and each becomes one link, in table order.
   */
  function Links(table: seq<ProfessorRow>): (r: seq<ProfessorDepartment>)
    ensures |r| <= |table|
    ensures forall l | l in r :: exists p | p in table :: HasDepartment(p) && LinkOf(p) == l
    ensures forall p | p in table && HasDepartment(p) :: LinkOf(p) in r
    ensures |r| == 0 <==> forall p | p in table :: !HasDepartment(p)
    ensures exists idx :: IndexesKept(table, HasDepartment, LinkOf, r, idx)
  {
    FilterMapSpec(table, HasDepartment, LinkOf);
    FilterMap(table, HasDepartment, LinkOf)
  }

  /** Whether an error message reports a duplicate (`message.includes('duplicate')`). */
  predicate IsDuplicateError(a: InsertAnswer)
  {
    a.InsertError? && Contains(a.message, "duplicate")
  }

  /** Any message that mentions "duplicate", wherever, is read as a duplicate error. */
  lemma {:induction false} DuplicateAnywhere(before: string, after: string)
    ensures IsDuplicateError(InsertError(before + "duplicate" + after))
  {
    var m := before + "duplicate" + after;
    assert m[|before|..|before| + 9] == "duplicate";
    assert OccursAt(m, "duplicate", |before|);
  }

  /** How many rows an answer reports inserted: `data?.length || 0`. */
  function ReturnedCount(a: InsertAnswer): (n: nat)
    ensures n > 0 ==> a.InsertOk? && a.returned.Some?
    ensures a.InsertOk? && a.returned.Some? ==> n == |a.returned.value|
  {
    if a.InsertOk? && a.returned.Some? then |a.returned.value| else 0
  }

  /** The counters after a sequence of batches; `failed` is what the script only logs. */
  datatype Tally = Tally(inserted: nat, duplicates: nat, failed: nat)

  /** The `j`-th batch is answered by `answers(j)`. */
  function TallyOf<T>(bs: seq<seq<T>>, answers: nat -> InsertAnswer): (t: Tally)
    ensures (forall j | 0 <= j < |bs| :: answers(j).InsertOk?) ==> t.duplicates == 0 && t.failed == 0
    ensures (forall j | 0 <= j < |bs| :: answers(j).InsertError?) ==> t.inserted == 0
    ensures (forall j | 0 <= j < |bs| :: !IsDuplicateError(answers(j))) ==> t.duplicates == 0
  {
    if |bs| == 0 then Tally(0, 0, 0)
    else
      var t := TallyOf(bs[..|bs| - 1], answers);
      var b, a := bs[|bs| - 1], answers(|bs| - 1);
      if IsDuplicateError(a) then t.(duplicates := t.duplicates + |b|)
      else if a.InsertError? then t.(failed := t.failed + |b|)
      else t.(inserted := t.inserted + ReturnedCount(a))
  }

  lemma {:induction false} TallyOfSnoc<T>(bs: seq<seq<T>>, b: seq<T>, answers: nat -> InsertAnswer)
    ensures TallyOf(bs + [b], answers).inserted
            == TallyOf(bs, answers).inserted + (if answers(|bs|).InsertOk? then ReturnedCount(answers(|bs|)) else 0)
    ensures TallyOf(bs + [b], answers).duplicates
            == TallyOf(bs, answers).duplicates + (if IsDuplicateError(answers(|bs|)) then |b| else 0)
  {
    assert (bs + [b])[..|bs|] == bs;
  }

  /** One pass of the batch loop moves the counters to the tally of one more batch. */
  lemma {:induction false} TallyStep<T>(done: seq<seq<T>>, batch: seq<T>, answers: nat -> InsertAnswer,
                                        totalInserted: nat, duplicates: nat)
    requires totalInserted == TallyOf(done, answers).inserted && duplicates == TallyOf(done, answers).duplicates
    ensures var a := answers(|done|);
      (if a.InsertError? then totalInserted else totalInserted + ReturnedCount(a)) == TallyOf(done + [batch], answers).inserted
    ensures var a := answers(|done|);
      (if a.InsertError? && Contains(a.message, "duplicate") then duplicates + |batch| else duplicates)
        == TallyOf(done + [batch], answers).duplicates
  {
    TallyOfSnoc(done, batch, answers);
  }

  /** The script's final report. */
  datatype PopulateReport = PopulateReport(totalInserted: nat, duplicates: nat)

  /** The batch loop: a duplicate error adds the batch size to `duplicates`, success the returned row count to `totalInserted`. */
  method InsertLinks(links: seq<ProfessorDepartment>, answers: nat -> InsertAnswer)
    returns (totalInserted: nat, duplicates: nat)
    ensures totalInserted == TallyOf(Chunks(links, BatchSize), answers).inserted
    ensures duplicates == TallyOf(Chunks(links, BatchSize), answers).duplicates
  {
    totalInserted, duplicates := 0, 0;
    ghost var done: seq<seq<ProfessorDepartment>> := [];
    var i, batchIndex := 0, 0;
    assert links[0..] == links;
    while i < |links|
      invariant batchIndex == |done|
      invariant Chunks(links, BatchSize) == done + Chunks(links[Min(i, |links|)..], BatchSize)
      invariant totalInserted == TallyOf(done, answers).inserted
      invariant duplicates == TallyOf(done, answers).duplicates
      decreases |links| - i
    {
      var batch := links[i..Min(i + BatchSize, |links|)];
      ChunksAdvance(links, BatchSize, i, done);
      TallyStep(done, batch, answers, totalInserted, duplicates);
      var answer := answers(batchIndex);
      if answer.InsertError? {
        if Contains(answer.message, "duplicate") {
          duplicates := duplicates + |batch|;
        }
      } else {
        totalInserted := totalInserted + ReturnedCount(answer);
      }
      done := done + [batch];
      i, batchIndex := i + BatchSize, batchIndex + 1;
    }
    ChunksDone(links, BatchSize, i, done);
  }

  /**
   * The whole back-fill. A failed query, a `null` result or no professor
   * with a department ends it without a report; otherwise the links are
   * inserted batch by batch and counted.
   */
  method PopulateProfessorDepartments(professors: Response<seq<ProfessorRow>>, answers: nat -> InsertAnswer)
    returns (report: Option<PopulateReport>)
    ensures professors.ResponseError? || professors.data.None? ==> report.None?
    ensures professors.ResponseData? && professors.data.Some? ==>
      var links := Links(professors.data.value);
      var t := TallyOf(Chunks(links, BatchSize), answers);
      report == if |links| == 0 then None else Some(PopulateReport(t.inserted, t.duplicates))
  {
    if professors.ResponseError? || professors.data.None? {
      return None;
    }
    var links := Links(professors.data.value);
    if |links| == 0 {
      return None;
    }
    var totalInserted, duplicates := InsertLinks(links, answers);
    report := Some(PopulateReport(totalInserted, duplicates));
  }

  /** Each successful answer reports at most (exactly, for `exact`) the rows of its batch. */
  ghost predicate AnswersBounded<T>(bs: seq<seq<T>>, answers: nat -> InsertAnswer, exact: bool)
  {
    forall j | 0 <= j < |bs| && answers(j).InsertOk? ::
      if exact then ReturnedCount(answers(j)) == |bs[j]| else ReturnedCount(answers(j)) <= |bs[j]|
  }

  /**
   * Inserted, duplicate and other failed rows never exceed the rows sent
   * while the table reports no more rows than a batch holds, and add up to
   * them exactly when every successful batch reports all its rows.
   */
  lemma {:induction false} TallyAccounting<T>(bs: seq<seq<T>>, answers: nat -> InsertAnswer)
    ensures AnswersBounded(bs, answers, false) ==>
      var t := TallyOf(bs, answers); t.inserted + t.duplicates + t.failed <= |Flatten(bs)|
    ensures AnswersBounded(bs, answers, true) ==>
      var t := TallyOf(bs, answers); t.inserted + t.duplicates + t.failed == |Flatten(bs)|
    decreases |bs|
  {
    if |bs| > 0 {
      var n := |bs| - 1;
      TallyAccounting(bs[..n], answers);
      FlattenSnoc(bs[..n], bs[n]);
      assert bs[..n] + [bs[n]] == bs;
    }
  }

  /** Applied to the script's batches: the counters cover each linked professor at most once. */
  lemma {:induction false} PopulateCountsBounded(table: seq<ProfessorRow>, answers: nat -> InsertAnswer)
    requires AnswersBounded(Chunks(Links(table), BatchSize), answers, false)
    ensures var t := TallyOf(Chunks(Links(table), BatchSize), answers);
      t.inserted + t.duplicates <= |Links(table)|
  {
    ChunksAreBatches(Links(table), BatchSize);
    TallyAccounting(Chunks(Links(table), BatchSize), answers);
  }
}
