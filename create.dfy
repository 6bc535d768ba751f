/** cmd/create.go: the create command. It walks the rows of the input file,
    skips rows that already have an ID, creates the others one by one and
    writes each new ID back into its row. The rows are written out afterwards
    whether or not the batch failed, so the output can be fed back in to
    finish the job. */
module Create {
  import opened Base
  import opened Api
  import opened Batch
  import opened Activities

  /** The create request for a row. */
  function CreateCall(a: Activity): Call {
    CreateActivity(a.name, a.activityType, a.start, a.duration,
      CreateActivityOptions(a.description, a.distance, a.trainer, a.commute))
  }

  /** createOne: check the row, then (outside a dry run) create it and record
      the ID the service returns. */
  function CreateOne(remote: Remote, history: seq<Call>, a: Activity, dryRun: bool): (s: Step<Activity>)
    ensures s.Done? || s.Failed?
    ensures VerifyForCreate(a).Fail? ==> s == Failed(VerifyForCreate(a).error, [])
    ensures VerifyForCreate(a).Pass? && dryRun ==> s == Done(a, [])
    ensures VerifyForCreate(a).Pass? && !dryRun ==>
      && s.Calls() == [CreateCall(a)]
      && (s.Done? <==> remote.activities(history + [CreateCall(a)]).Success?)
      && (s.Done? ==> s.row == a.(id := remote.activities(history + [CreateCall(a)]).value))
      && (s.Failed? ==> s.error == RemoteFailed(remote.activities(history + [CreateCall(a)]).message))
  {
    match VerifyForCreate(a)
    case Fail(e) => Failed(e, [])
    case Pass =>
      if dryRun then Done(a, [])
      else
        var call := CreateCall(a);
        match remote.activities(history + [call])
        case Failure(msg) => Failed(RemoteFailed(msg), [call])
        case Success(id) => Done(a.(id := id), [call])
  }

  /** The body of doCreate's loop: rows with an ID were uploaded before. */
  function CreateStep(dryRun: bool, remote: Remote): (seq<Call>, Activity) -> Step<Activity> {
    (h: seq<Call>, a: Activity) => if a.id != 0 then Skip else CreateOne(remote, h, a, dryRun)
  }

  /** What doCreate does with the rows of the input file. */
  function CreateRun(rows: seq<Activity>, dryRun: bool, remote: Remote): Run<Activity> {
    Drive(CreateStep(dryRun, remote), rows, 0, 0, [], rows)
  }

  /** doCreate, on the rows as loaded; afterwards `rows` holds what is
      written to the output file. The verdict carries the number of creates
      on success. */
  method DoCreate(rows: array<Activity>, dryRun: bool, remote: Remote) returns (verdict: Verdict, calls: seq<Call>)
    modifies rows
    ensures Run(verdict, rows[..], calls) == CreateRun(old(rows[..]), dryRun, remote)
  {
    ghost var input := rows[..];
    ghost var step := CreateStep(dryRun, remote);
    ghost var goal := CreateRun(input, dryRun, remote);
    var nCreates := 0;
    calls := [];
    var i := 0;
    while i < rows.Length
      invariant 0 <= i <= rows.Length
      invariant forall j :: i <= j < rows.Length ==> rows[j] == input[j]
      invariant goal == Drive(step, input, i, nCreates, calls, rows[..])
    {
      var a := rows[i];
      if a.id != 0 {
        i := i + 1;
        continue;
      }
      var s := CreateOne(remote, calls, a, dryRun);
      if s.Failed? {
        return FailedAt(i + 1, s.error), calls + s.calls;
      }
      rows[i] := s.row;
      calls := calls + s.calls;
      nCreates := nCreates + 1;
      i := i + 1;
    }
    verdict := Completed(nCreates);
  }

  // ---------------------------------------------------------------------
  // Properties of the create command.

  /** Every step of the loop, whichever history it sees. */
  lemma StepCases(dryRun: bool, remote: Remote, h: seq<Call>, a: Activity)
    ensures var s := CreateStep(dryRun, remote)(h, a);
      && (s.Skip? <==> a.id != 0)
      && !s.Abort?
      && (s.Done? ==> s.row == a.(id := s.row.id))
      && (s.Done? && dryRun ==> s.row == a)
      && (s.Calls() == [] || (!dryRun && s.Calls() == [CreateCall(a)]))
  {
  }

  /** A row that fails had no ID, and either failed the check or was
      refused by the service. */
  lemma FailedStep(dryRun: bool, remote: Remote, h: seq<Call>, a: Activity)
    ensures var s := CreateStep(dryRun, remote)(h, a);
      s.Failed? ==> a.id == 0 && (VerifyForCreate(a) == Fail(s.error) || (!dryRun && s.error.RemoteFailed?))
  {
  }

  /** A created row gets the ID the service returned and nothing else changes. */
  predicate GotID(before: Activity, after: Activity) {
    after == before.(id := after.id)
  }

  /** Rows that already have an ID are skipped: a batch that completes counts
      exactly the rows that had none. */
  lemma CompletedCountsNewRows(rows: seq<Activity>, dryRun: bool, remote: Remote)
    ensures var r := CreateRun(rows, dryRun, remote);
      r.verdict.Completed? ==> r.verdict.count == Count(rows, (a: Activity) => a.id == 0)
  {
    var step := CreateStep(dryRun, remote);
    var isNew := (a: Activity) => a.id == 0;
    forall j, h | 0 <= j < |rows| ensures step(h, rows[j]).Skip? <==> !isNew(rows[j]) {
      StepCases(dryRun, remote, h, rows[j]);
    }
    CompletedCountsHandledRows(step, isNew, rows, 0, 0, [], rows);
    assert rows[0..] == rows;
  }

  /** A dry run never calls the service and leaves every row as it was. */
  lemma DryRunChangesNothing(rows: seq<Activity>, remote: Remote)
    ensures CreateRun(rows, true, remote).calls == []
    ensures CreateRun(rows, true, remote).rows == rows
  {
    var step := CreateStep(true, remote);
    forall j, h | 0 <= j < |rows| ensures step(h, rows[j]).Calls() == [] {
      StepCases(true, remote, h, rows[j]);
    }
    QuietStepsMakeNoCalls(step, rows, 0, 0, [], rows);
    var same := (a: Activity, b: Activity) => a == b;
    forall j, h | 0 <= j < |rows| && step(h, rows[j]).Done? ensures same(rows[j], step(h, rows[j]).row) {
      StepCases(true, remote, h, rows[j]);
    }
    RowsChangeOnlyWhenHandled(step, same, rows, 0, 0, [], rows);
  }

  /** The rows written out differ from the input only in IDs filled in for
      rows that had none; on a failure, the failing row and every row after
      it are written out exactly as they were read. */
  lemma OutputOnlyFillsIDs(rows: seq<Activity>, dryRun: bool, remote: Remote)
    ensures var r := CreateRun(rows, dryRun, remote);
      && (forall j :: 0 <= j < |rows| ==> r.rows[j] == rows[j] || (rows[j].id == 0 && GotID(rows[j], r.rows[j])))
      && (r.verdict.FailedAt? ==> forall j :: r.verdict.line - 1 <= j < |rows| ==> r.rows[j] == rows[j])
  {
    var step := CreateStep(dryRun, remote);
    var filled := (a: Activity, b: Activity) => a.id == 0 && GotID(a, b);
    forall j, h | 0 <= j < |rows| && step(h, rows[j]).Done? ensures filled(rows[j], step(h, rows[j]).row) {
      StepCases(dryRun, remote, h, rows[j]);
    }
    RowsChangeOnlyWhenHandled(step, filled, rows, 0, 0, [], rows);
    FailureNamesItsLine(step, rows, 0, 0, [], rows);
  }

  /** A failure reports the 1-based line of a row that had no ID, and the
      error is that row's validation error or the service's answer. */
  lemma FailureNamesANewRow(rows: seq<Activity>, dryRun: bool, remote: Remote)
    ensures var r := CreateRun(rows, dryRun, remote);
      r.verdict.FailedAt? ==>
        var a := rows[r.verdict.line - 1];
        && a.id == 0
        && (VerifyForCreate(a) == Fail(r.verdict.error) || (!dryRun && r.verdict.error.RemoteFailed?))
  {
    var step := CreateStep(dryRun, remote);
    var r := CreateRun(rows, dryRun, remote);
    FailureNamesItsLine(step, rows, 0, 0, [], rows);
    if r.verdict.FailedAt? {
      var a := rows[r.verdict.line - 1];
      var h :| step(h, a).Failed? && step(h, a).error == r.verdict.error;
      FailedStep(dryRun, remote, h, a);
    }
  }

  /** The first failure stops the batch: no later row is looked at. */
  lemma FailureStopsTheBatch(rows: seq<Activity>, rows': seq<Activity>, dryRun: bool, remote: Remote)
    requires CreateRun(rows, dryRun, remote).verdict.FailedAt?
    requires var line := CreateRun(rows, dryRun, remote).verdict.line;
      line <= |rows'| && rows'[..line] == rows[..line]
    ensures CreateRun(rows', dryRun, remote).verdict == CreateRun(rows, dryRun, remote).verdict
    ensures CreateRun(rows', dryRun, remote).calls == CreateRun(rows, dryRun, remote).calls
  {
    var line := CreateRun(rows, dryRun, remote).verdict.line;
    FailureIgnoresLaterRows(CreateStep(dryRun, remote), rows, rows', 0, 0, [], rows, rows', line);
  }

  /** The service never hands out ID 0 for an activity it created. */
  ghost predicate GivesRealIDs(remote: Remote) {
    forall h :: remote.activities(h).Success? ==> remote.activities(h).value != 0
  }

  /** After a live run, every row before the failing line (every row, when
      the batch completed) has an ID. */
  lemma {:induction false} PassedRowsHaveIDs(rows: seq<Activity>, remote: Remote)
    requires GivesRealIDs(remote)
    ensures var r := CreateRun(rows, false, remote);
      var done := if r.verdict.FailedAt? then r.verdict.line - 1 else if r.verdict.Completed? then |rows| else 0;
      forall j :: 0 <= j < done ==> r.rows[j].id != 0
  {
    var step := CreateStep(false, remote);
    var r := CreateRun(rows, false, remote);
    var hasID := (a: Activity) => a.id != 0;
    forall j, h | 0 <= j < |rows| && step(h, rows[j]).Done? ensures hasID(step(h, rows[j]).row) {
      assert step(h, rows[j]) == CreateOne(remote, h, rows[j], false);
    }
    var done := if r.verdict.FailedAt? then r.verdict.line - 1 else if r.verdict.Completed? then |rows| else 0;
    PassedRowsAreSettled(step, hasID, rows, 0, 0, [], rows, done);
  }

  /** Feeding the output of a live run back in resumes the work: the rows
      created or skipped the first time are all skipped ("already been
      uploaded"), so the second run behaves as if it started at the line that
      failed, and a second run after a complete one does nothing at all. */
  lemma RerunResumesAtFailure(rows: seq<Activity>, remote: Remote, remote': Remote, dryRun': bool)
    requires GivesRealIDs(remote)
    ensures var r := CreateRun(rows, false, remote);
      var out := r.rows;
      && (r.verdict.FailedAt? ==>
            CreateRun(out, dryRun', remote') == Drive(CreateStep(dryRun', remote'), out, r.verdict.line - 1, 0, [], out))
      && (r.verdict.Completed? ==> CreateRun(out, dryRun', remote') == Run(Completed(0), out, []))
  {
    var r := CreateRun(rows, false, remote);
    var out := r.rows;
    var step := CreateStep(dryRun', remote');
    PassedRowsHaveIDs(rows, remote);
    var done := if r.verdict.FailedAt? then r.verdict.line - 1 else if r.verdict.Completed? then |rows| else 0;
    forall j, h | 0 <= j < done ensures step(h, out[j]) == Skip {
      StepCases(dryRun', remote', h, out[j]);
    }
    SkippedRowsAreInert(step, out, 0, done, 0, [], out);
  }

  /** A dry run announces the same result as a live run against a service
      that accepts every create. */
  lemma DryRunPredictsLiveRun(rows: seq<Activity>, remote: Remote)
    requires forall h :: remote.activities(h).Success?
    ensures CreateRun(rows, true, remote).verdict == CreateRun(rows, false, remote).verdict
  {
    var dry, live := CreateStep(true, remote), CreateStep(false, remote);
    forall j, h, h' | 0 <= j < |rows| ensures SameDecision(dry(h, rows[j]), live(h', rows[j])) {
      assert live(h', rows[j]) == (if rows[j].id != 0 then Skip else CreateOne(remote, h', rows[j], false));
    }
    SameDecisionsSameVerdict(dry, live, rows, 0, 0, [], [], rows, rows);
  }
}
