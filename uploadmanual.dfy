/** cmd/uploadmanual.go: the uploadmanual command. Each row of the input file
    describes a manually entered activity; rows are checked and created one
    at a time. Unlike the create command, the new IDs are not kept. */
module UploadManual {
  import opened Base
  import opened Api
  import opened Batch

  /** One row of the uploadmanual CSV file. */
  datatype ManualActivity = ManualActivity(
    start: Time,
    activityType: string,
    name: string,
    description: string,
    duration: int,
    distance: real,
    commute: bool,
    trainer: bool)

  /** Checks that a row looks like it can be created: it needs a start time
      and a name, and nothing else is checked. */
  function Verify(a: ManualActivity): (r: Outcome)
    ensures r == Pass <==> !a.start.IsZero() && a.name != ""
    ensures a.start.IsZero() ==> r == Fail(MissingStart)
    ensures !a.start.IsZero() && a.name == "" ==> r == Fail(MissingName)
  {
    if a.start.IsZero() then Fail(MissingStart)
    else if a.name == "" then Fail(MissingName)
    else Pass
  }

  /** The check looks at the start time and the name only: the type, the
      description and the numbers are passed to the service unchecked. */
  lemma CheckLooksAtStartAndName(a: ManualActivity, b: ManualActivity)
    requires a.start == b.start && a.name == b.name
    ensures Verify(a) == Verify(b)
  {
  }

  /** The create request for a row. */
  function ManualCall(a: ManualActivity): Call {
    CreateActivity(a.name, a.activityType, a.start, a.duration,
      CreateActivityOptions(a.description, a.distance, a.trainer, a.commute))
  }

  /** uploadManualOne: check the row, then (outside a dry run) create it. The
      ID the service returns is only shown to the user. */
  function ManualOne(remote: Remote, history: seq<Call>, a: ManualActivity, dryRun: bool): (s: Step<ManualActivity>)
    ensures s.Done? || s.Failed?
    ensures s.Done? ==> s.row == a
    ensures Verify(a).Fail? ==> s == Failed(Verify(a).error, [])
    ensures Verify(a).Pass? && dryRun ==> s == Done(a, [])
    ensures Verify(a).Pass? && !dryRun ==>
      && s.Calls() == [ManualCall(a)]
      && (s.Done? <==> remote.activities(history + [ManualCall(a)]).Success?)
      && (s.Failed? ==> s.error == RemoteFailed(remote.activities(history + [ManualCall(a)]).message))
  {
    match Verify(a)
    case Fail(e) => Failed(e, [])
    case Pass =>
      if dryRun then Done(a, [])
      else
        var call := ManualCall(a);
        match remote.activities(history + [call])
        case Failure(msg) => Failed(RemoteFailed(msg), [call])
        case Success(_) => Done(a, [call])
  }

  /** The body of doUploadManual's loop: every row is created. */
  function ManualStep(dryRun: bool, remote: Remote): (seq<Call>, ManualActivity) -> Step<ManualActivity> {
    (h: seq<Call>, a: ManualActivity) => ManualOne(remote, h, a, dryRun)
  }

  /** What doUploadManual does with the rows of the input file. */
  function ManualRun(rows: seq<ManualActivity>, dryRun: bool, remote: Remote): Run<ManualActivity> {
    Drive(ManualStep(dryRun, remote), rows, 0, 0, [], rows)
  }

  /** doUploadManual, on the rows as loaded. */
  method DoUploadManual(rows: seq<ManualActivity>, dryRun: bool, remote: Remote) returns (verdict: Verdict, calls: seq<Call>)
    ensures Run(verdict, rows, calls) == ManualRun(rows, dryRun, remote)
  {
    ghost var step := ManualStep(dryRun, remote);
    ghost var goal := ManualRun(rows, dryRun, remote);
    var nCreates := 0;
    calls := [];
    var i := 0;
    while i < |rows|
      invariant 0 <= i <= |rows|
      invariant goal == Drive(step, rows, i, nCreates, calls, rows)
    {
      var s := ManualOne(remote, calls, rows[i], dryRun);
      assert step(calls, rows[i]) == s;
      DriveStep(step, rows, i, nCreates, calls, rows);
      if s.Failed? {
        return FailedAt(i + 1, s.error), calls + s.calls;
      }
      assert rows[i := s.row] == rows;
      calls := calls + s.calls;
      nCreates := nCreates + 1;
      i := i + 1;
    }
    verdict := Completed(nCreates);
  }

  // ---------------------------------------------------------------------
  // Properties of the uploadmanual command.

  /** The create requests for a sequence of rows, in order. */
  function Requests(rows: seq<ManualActivity>): (c: seq<Call>)
    ensures |c| == |rows|
  {
    if rows == [] then [] else [ManualCall(rows[0])] + Requests(rows[1..])
  }

  /** The k-th request is the one for the k-th row. */
  lemma {:induction false} RequestsAreTheRows(rows: seq<ManualActivity>, k: nat)
    requires k < |rows|
    ensures Requests(rows)[k] == ManualCall(rows[k])
  {
    if k > 0 {
      RequestsAreTheRows(rows[1..], k - 1);
    }
  }

  /** The requests for the rows from i on are the one for row i, then the rest. */
  lemma RequestsFrom(rows: seq<ManualActivity>, i: nat, k: nat)
    requires i < k <= |rows|
    ensures Requests(rows[i..k]) == [ManualCall(rows[i])] + Requests(rows[i + 1..k])
  {
    assert rows[i..k][1..] == rows[i + 1..k];
  }

  lemma PrependRequest(calls: seq<Call>, rows: seq<ManualActivity>, i: nat, k: nat)
    requires i < k <= |rows|
    ensures calls + [ManualCall(rows[i])] + Requests(rows[i + 1..k]) == calls + Requests(rows[i..k])
  {
    RequestsFrom(rows, i, k);
  }

  /** A live batch that completes creates the rows in file order, one
      request each. */
  lemma {:induction false} LiveCallsFollowTheRows(remote: Remote, rows: seq<ManualActivity>, i: nat, n: nat, calls: seq<Call>, out: seq<ManualActivity>)
    requires i <= |rows| == |out|
    ensures var r := Drive(ManualStep(false, remote), rows, i, n, calls, out);
      r.verdict.Completed? ==> r.calls == calls + Requests(rows[i..|rows|])
    decreases |rows| - i
  {
    if i < |rows| {
      var s := ManualOne(remote, calls, rows[i], false);
      assert ManualStep(false, remote)(calls, rows[i]) == s;
      DriveStep(ManualStep(false, remote), rows, i, n, calls, out);
      if s.Done? {
        LiveCallsFollowTheRows(remote, rows, i + 1, n + 1, calls + s.calls, out[i := s.row]);
        RequestsFrom(rows, i, |rows|);
        assert s.calls == [ManualCall(rows[i])];
        assert calls + s.calls + Requests(rows[i + 1..|rows|]) == calls + Requests(rows[i..|rows|]);
      }
    }
  }

  /** A live batch that fails has created the rows before the failing line
      in file order, one request each, and sent the failing row too exactly
      when it passed the check (the service then refused it). */
  lemma {:induction false} LiveCallsStopAtFailure(remote: Remote, rows: seq<ManualActivity>, i: nat, n: nat, calls: seq<Call>, out: seq<ManualActivity>)
    requires i <= |rows| == |out|
    ensures var r := Drive(ManualStep(false, remote), rows, i, n, calls, out);
      r.verdict.FailedAt? ==>
        var k := r.verdict.line - 1;
        r.calls == calls + Requests(rows[i..k]) + (if Verify(rows[k]).Pass? then [ManualCall(rows[k])] else [])
    decreases |rows| - i
  {
    if i < |rows| {
      var s := ManualOne(remote, calls, rows[i], false);
      assert ManualStep(false, remote)(calls, rows[i]) == s;
      DriveStep(ManualStep(false, remote), rows, i, n, calls, out);
      if s.Done? {
        LiveCallsStopAtFailure(remote, rows, i + 1, n + 1, calls + s.calls, out[i := s.row]);
        var r := Drive(ManualStep(false, remote), rows, i + 1, n + 1, calls + s.calls, out[i := s.row]);
        if r.verdict.FailedAt? {
          var k := r.verdict.line - 1;
          assert s.calls == [ManualCall(rows[i])];
          PrependRequest(calls, rows, i, k);
        }
      } else {
        FailedRowCalls(remote, calls, rows[i]);
        assert rows[i..i] == [];
        assert calls + Requests([]) == calls;
      }
    }
  }

  /** A live row that fails has sent its create request exactly when it
      passed the check. */
  lemma FailedRowCalls(remote: Remote, calls: seq<Call>, a: ManualActivity)
    ensures var s := ManualOne(remote, calls, a, false);
      s.Failed? ==> s.calls == if Verify(a).Pass? then [ManualCall(a)] else []
  {
  }

  /** A batch either creates every row or stops at a failing row; one that
      completes has created every row, and every row passed the check. */
  lemma ManualVerdict(rows: seq<ManualActivity>, dryRun: bool, remote: Remote)
    ensures var v := ManualRun(rows, dryRun, remote).verdict;
      && !v.Aborted?
      && (v.Completed? ==> v.count == |rows| && forall j :: 0 <= j < |rows| ==> Verify(rows[j]) == Pass)
  {
    var step := ManualStep(dryRun, remote);
    NoAbortNoAborted(step, rows, 0, 0, [], rows);
    var always := (a: ManualActivity) => true;
    CompletedCountsHandledRows(step, always, rows, 0, 0, [], rows);
    CountAll(rows[0..], always);
    CompletedMeansAllPass(dryRun, remote, rows, 0, 0, [], rows);
  }

  /** A batch that fails stops at the first row that fails: the rows before
      it passed the check, and in a dry run the failing row is the first
      row that does not. */
  lemma ManualFailure(rows: seq<ManualActivity>, dryRun: bool, remote: Remote)
    ensures var v := ManualRun(rows, dryRun, remote).verdict;
      v.FailedAt? ==>
        && (forall j :: 0 <= j < v.line - 1 ==> Verify(rows[j]) == Pass)
        && (dryRun ==> Verify(rows[v.line - 1]) == Fail(v.error))
  {
    var step := ManualStep(dryRun, remote);
    var r := ManualRun(rows, dryRun, remote);
    RowsBeforeFailurePassed(step, rows, 0, 0, [], rows);
    FailureNamesItsLine(step, rows, 0, 0, [], rows);
    forall j | 0 <= j < |rows| && CanPass(step, rows[j]) ensures Verify(rows[j]) == Pass {
      var h :| step(h, rows[j]).Skip? || step(h, rows[j]).Done?;
    }
    if r.verdict.FailedAt? && dryRun {
      var h :| step(h, rows[r.verdict.line - 1]).Failed? && step(h, rows[r.verdict.line - 1]).error == r.verdict.error;
    }
  }

  /** Helper for ManualVerdict: a completed batch got past every row. */
  lemma {:induction false} CompletedMeansAllPass(dryRun: bool, remote: Remote, rows: seq<ManualActivity>, i: nat, n: nat, calls: seq<Call>, out: seq<ManualActivity>)
    requires i <= |rows| == |out|
    ensures Drive(ManualStep(dryRun, remote), rows, i, n, calls, out).verdict.Completed? ==>
      forall j :: i <= j < |rows| ==> Verify(rows[j]) == Pass
    decreases |rows| - i
  {
    if i < |rows| {
      var s := ManualStep(dryRun, remote)(calls, rows[i]);
      match s
      case Done(row, c) =>
        CompletedMeansAllPass(dryRun, remote, rows, i + 1, n + 1, calls + c, out[i := row]);
      case Failed(_, _) =>
    }
  }

  /** A dry run never calls the service and completes exactly when every row
      passes the check. */
  lemma DryRunChecksEveryRow(rows: seq<ManualActivity>, remote: Remote)
    ensures ManualRun(rows, true, remote).calls == []
    ensures ManualRun(rows, true, remote).verdict == Completed(|rows|) <==>
      forall j :: 0 <= j < |rows| ==> Verify(rows[j]) == Pass
  {
    QuietStepsMakeNoCalls(ManualStep(true, remote), rows, 0, 0, [], rows);
    ManualVerdict(rows, true, remote);
    ManualFailure(rows, true, remote);
  }

  /** A dry run announces the result of a live run against a service that
      accepts every create. */
  lemma DryRunPredictsLiveRun(rows: seq<ManualActivity>, remote: Remote)
    requires forall h :: remote.activities(h).Success?
    ensures ManualRun(rows, true, remote).verdict == ManualRun(rows, false, remote).verdict
  {
    var dry, live := ManualStep(true, remote), ManualStep(false, remote);
    forall j, h, h' | 0 <= j < |rows| ensures SameDecision(dry(h, rows[j]), live(h', rows[j])) {
      assert live(h', rows[j]) == ManualOne(remote, h', rows[j], false);
    }
    SameDecisionsSameVerdict(dry, live, rows, 0, 0, [], [], rows, rows);
  }
}
