/** cmd/update.go: the update command. It indexes the rows of the original
    download by ID, checks that the edited file has as many rows as the index
    has IDs, and sends an update for every edited row that differs from its
    original, stopping at the first failure. */
module Update {
  import opened Base
  import opened Api
  import opened Batch

  /** A row of the update CSV file. The fields the update command reads are
      named; `rest` stands for the remaining columns, which take part only in
      the whole-row comparison. */
  datatype UpdatableActivity = UpdatableActivity(
    id: int,
    name: string,
    activityType: string,
    commute: bool,
    trainer: bool,
    rest: seq<string>)

  /** The row check `a.Verify(prev)`, whose definition is not part of this model. */
  type Verifier = (UpdatableActivity, UpdatableActivity) -> Outcome

  /** The original rows by ID; a later row with an ID already seen replaces
      the earlier one. */
  function Index(rows: seq<UpdatableActivity>): (m: map<int, UpdatableActivity>)
    ensures m.Keys == set j | 0 <= j < |rows| :: rows[j].id
  {
    if rows == [] then map[]
    else
      var last := rows[|rows| - 1];
      var m := Index(rows[..|rows| - 1]);
      assert forall j :: 0 <= j < |rows| - 1 ==> rows[..|rows| - 1][j] == rows[j];
      assert (set j | 0 <= j < |rows| :: rows[j].id) == (set j | 0 <= j < |rows| - 1 :: rows[j].id) + {last.id};
      m[last.id := last]
  }

  /** Each ID maps to the last row that carries it. */
  lemma {:induction false} IndexKeepsLastRow(rows: seq<UpdatableActivity>, j: nat)
    requires j < |rows|
    requires forall k :: j < k < |rows| ==> rows[k].id != rows[j].id
    ensures rows[j].id in Index(rows) && Index(rows)[rows[j].id] == rows[j]
  {
    if j < |rows| - 1 {
      var init := rows[..|rows| - 1];
      assert forall k :: j < k < |init| ==> init[k] == rows[k];
      IndexKeepsLastRow(init, j);
    }
  }

  /** The index never has more IDs than the file has rows. */
  lemma {:induction false} IndexNoLarger(rows: seq<UpdatableActivity>)
    ensures |Index(rows)| <= |rows|
  {
    if rows != [] {
      IndexNoLarger(rows[..|rows| - 1]);
    }
  }

  /** A duplicated ID keeps only one original, so the index has fewer IDs
      than the file has rows. */
  lemma {:induction false} DuplicateShrinksIndex(rows: seq<UpdatableActivity>, j: nat, k: nat)
    requires j < k < |rows| && rows[j].id == rows[k].id
    ensures |Index(rows)| < |rows|
  {
    var init := rows[..|rows| - 1];
    if k == |rows| - 1 {
      assert init[j] == rows[j];
      IndexNoLarger(init);
    } else {
      assert init[j] == rows[j] && init[k] == rows[k];
      DuplicateShrinksIndex(init, j, k);
    }
  }

  /** The loop `for _, a := range activities { orig[a.ID] = a }`. */
  method BuildIndex(rows: seq<UpdatableActivity>) returns (orig: map<int, UpdatableActivity>)
    ensures orig == Index(rows)
  {
    orig := map[];
    var i := 0;
    while i < |rows|
      invariant 0 <= i <= |rows|
      invariant orig == Index(rows[..i])
    {
      assert rows[..i + 1][..i] == rows[..i];
      orig := orig[rows[i].id := rows[i]];
      i := i + 1;
    }
    assert rows[..|rows|] == rows;
  }

  /** The update request for a row: Commute, Trainer, Name and Type, nothing else. */
  function Body(a: UpdatableActivity): UpdatableActivityBody {
    UpdatableActivityBody(a.commute, a.trainer, a.name, a.activityType)
  }

  /** updateOne: check the row against its original, then (outside a dry run)
      send its editable fields. */
  function UpdateOne(remote: Remote, history: seq<Call>, a: UpdatableActivity, prev: UpdatableActivity, verify: Verifier, dryRun: bool): (s: Step<UpdatableActivity>)
    ensures s.Done? || s.Failed?
    ensures s.Done? ==> s.row == a
    ensures verify(a, prev).Fail? ==> s == Failed(verify(a, prev).error, [])
    ensures verify(a, prev).Pass? && dryRun ==> s == Done(a, [])
    ensures verify(a, prev).Pass? && !dryRun ==>
      && s.Calls() == [UpdateActivityById(a.id, Body(a))]
      && (s.Done? <==> remote.activities(history + s.Calls()).Success?)
      && (s.Failed? ==> s.error == RemoteFailed(remote.activities(history + s.Calls()).message))
  {
    match verify(a, prev)
    case Fail(e) => Failed(e, [])
    case Pass =>
      if dryRun then Done(a, [])
      else
        var call := UpdateActivityById(a.id, Body(a));
        match remote.activities(history + [call])
        case Failure(msg) => Failed(RemoteFailed(msg), [call])
        case Success(_) => Done(a, [call])
  }

  /** The body of the loop over the edited rows. */
  function UpdateStep(orig: map<int, UpdatableActivity>, verify: Verifier, dryRun: bool, remote: Remote): (seq<Call>, UpdatableActivity) -> Step<UpdatableActivity> {
    (h: seq<Call>, a: UpdatableActivity) =>
      if a.id !in orig then Abort(IDNotFound(a.id))
      else if orig[a.id] == a then Skip
      else UpdateOne(remote, h, a, orig[a.id], verify, dryRun)
  }

  /** What doUpdate does with the original and the edited rows. */
  function UpdateRun(origRows: seq<UpdatableActivity>, updated: seq<UpdatableActivity>, verify: Verifier, dryRun: bool, remote: Remote): Run<UpdatableActivity> {
    var orig := Index(origRows);
    if |updated| != |orig| then Run(Aborted(CountMismatch(|orig|, |updated|)), updated, [])
    else Drive(UpdateStep(orig, verify, dryRun, remote), updated, 0, 0, [], updated)
  }

  /** doUpdate. The verdict carries the number of updates on success. */
  method DoUpdate(origRows: seq<UpdatableActivity>, updated: seq<UpdatableActivity>, verify: Verifier, dryRun: bool, remote: Remote)
    returns (verdict: Verdict, calls: seq<Call>)
    ensures Run(verdict, updated, calls) == UpdateRun(origRows, updated, verify, dryRun, remote)
  {
    var orig := BuildIndex(origRows);
    if |updated| != |orig| {
      return Aborted(CountMismatch(|orig|, |updated|)), [];
    }
    ghost var step := UpdateStep(orig, verify, dryRun, remote);
    ghost var goal := UpdateRun(origRows, updated, verify, dryRun, remote);
    var nUpdates := 0;
    calls := [];
    var i := 0;
    while i < |updated|
      invariant 0 <= i <= |updated|
      invariant goal == Drive(step, updated, i, nUpdates, calls, updated)
    {
      var a := updated[i];
      if a.id !in orig {
        return Aborted(IDNotFound(a.id)), calls;
      }
      var prev := orig[a.id];
      if prev == a {
        i := i + 1;
        continue;
      }
      var s := UpdateOne(remote, calls, a, prev, verify, dryRun);
      if s.Failed? {
        return FailedAt(i + 1, s.error), calls + s.calls;
      }
      assert s == Done(a, s.calls) && updated[i := a] == updated;
      calls := calls + s.calls;
      nUpdates := nUpdates + 1;
      i := i + 1;
    }
    verdict := Completed(nUpdates);
  }

  // ---------------------------------------------------------------------
  // Properties of the update command.

  /** Paired files of different sizes fail at once, before any call. */
  lemma CountMismatchMakesNoCalls(origRows: seq<UpdatableActivity>, updated: seq<UpdatableActivity>, verify: Verifier, dryRun: bool, remote: Remote)
    requires |updated| != |Index(origRows)|
    ensures UpdateRun(origRows, updated, verify, dryRun, remote) ==
      Run(Aborted(CountMismatch(|Index(origRows)|, |updated|)), updated, [])
  {
  }

  /** Every step of the loop, whichever history it sees. */
  lemma StepCases(orig: map<int, UpdatableActivity>, verify: Verifier, dryRun: bool, remote: Remote, h: seq<Call>, a: UpdatableActivity)
    ensures var s := UpdateStep(orig, verify, dryRun, remote)(h, a);
      && (s == Abort(IDNotFound(a.id)) <==> a.id !in orig)
      && (s == Skip <==> a.id in orig && orig[a.id] == a)
      && (s.Failed? ==>
            a.id in orig &&
            ((verify(a, orig[a.id]).Fail? && s.error == verify(a, orig[a.id]).error) || (!dryRun && s.error.RemoteFailed?)))
      && (s.Calls() == [] || (!dryRun && s.Calls() == [UpdateActivityById(a.id, Body(a))]))
  {
  }

  /** The row reached first whose ID is not among the originals ends the batch
      with a not-found error. */
  lemma {:induction false} UnknownIDAborts(origRows: seq<UpdatableActivity>, updated: seq<UpdatableActivity>, verify: Verifier, dryRun: bool, remote: Remote, k: nat)
    requires |updated| == |Index(origRows)|
    requires k < |updated| && updated[k].id !in Index(origRows)
    requires forall j :: 0 <= j < k ==> updated[j].id in Index(origRows) && Index(origRows)[updated[j].id] == updated[j]
    ensures UpdateRun(origRows, updated, verify, dryRun, remote) == Run(Aborted(IDNotFound(updated[k].id)), updated, [])
  {
    var orig := Index(origRows);
    var step := UpdateStep(orig, verify, dryRun, remote);
    forall j, h | 0 <= j < k ensures step(h, updated[j]) == Skip {
      StepCases(orig, verify, dryRun, remote, h, updated[j]);
    }
    SkippedRowsAreInert(step, updated, 0, k, 0, [], updated);
  }

  /** Unchanged rows are skipped: a batch that completes counts exactly the
      rows that differ from their original. */
  lemma CompletedCountsChangedRows(origRows: seq<UpdatableActivity>, updated: seq<UpdatableActivity>, verify: Verifier, dryRun: bool, remote: Remote)
    ensures var r := UpdateRun(origRows, updated, verify, dryRun, remote);
      r.verdict.Completed? ==>
        r.verdict.count == Count(updated, (a: UpdatableActivity) => !(a.id in Index(origRows) && Index(origRows)[a.id] == a))
  {
    var orig := Index(origRows);
    var step := UpdateStep(orig, verify, dryRun, remote);
    var changed := (a: UpdatableActivity) => !(a.id in orig && orig[a.id] == a);
    if |updated| == |orig| {
      forall j, h | 0 <= j < |updated| ensures step(h, updated[j]).Skip? <==> !changed(updated[j]) {
        StepCases(orig, verify, dryRun, remote, h, updated[j]);
      }
      CompletedCountsHandledRows(step, changed, updated, 0, 0, [], updated);
      assert updated[0..] == updated;
    }
  }

  /** Editing nothing sends nothing: when every edited row equals its
      original, the batch completes with no update and no call. */
  lemma UnchangedFilesAreQuiet(origRows: seq<UpdatableActivity>, updated: seq<UpdatableActivity>, verify: Verifier, dryRun: bool, remote: Remote)
    requires |updated| == |Index(origRows)|
    requires forall j :: 0 <= j < |updated| ==> updated[j].id in Index(origRows) && Index(origRows)[updated[j].id] == updated[j]
    ensures UpdateRun(origRows, updated, verify, dryRun, remote) == Run(Completed(0), updated, [])
  {
    var orig := Index(origRows);
    var step := UpdateStep(orig, verify, dryRun, remote);
    forall j, h | 0 <= j < |updated| ensures step(h, updated[j]) == Skip {
      StepCases(orig, verify, dryRun, remote, h, updated[j]);
    }
    SkippedRowsAreInert(step, updated, 0, |updated|, 0, [], updated);
  }

  /** A dry run never calls the service. */
  lemma DryRunMakesNoCalls(origRows: seq<UpdatableActivity>, updated: seq<UpdatableActivity>, verify: Verifier, remote: Remote)
    ensures UpdateRun(origRows, updated, verify, true, remote).calls == []
  {
    var orig := Index(origRows);
    var step := UpdateStep(orig, verify, true, remote);
    if |updated| == |orig| {
      forall j, h | 0 <= j < |updated| ensures step(h, updated[j]).Calls() == [] {
        StepCases(orig, verify, true, remote, h, updated[j]);
      }
      QuietStepsMakeNoCalls(step, updated, 0, 0, [], updated);
    }
  }

  /** Every call the batch makes is an update of one of the edited rows,
      carrying only that row's ID and editable fields. */
  lemma CallsCarryEditableFields(origRows: seq<UpdatableActivity>, updated: seq<UpdatableActivity>, verify: Verifier, dryRun: bool, remote: Remote)
    ensures forall c :: c in UpdateRun(origRows, updated, verify, dryRun, remote).calls ==>
      exists j :: 0 <= j < |updated| && c == UpdateActivityById(updated[j].id, Body(updated[j]))
  {
    var orig := Index(origRows);
    var step := UpdateStep(orig, verify, dryRun, remote);
    if |updated| == |orig| {
      CallsComeFromRows(orig, verify, dryRun, remote, updated, 0, 0, []);
    }
  }

  lemma {:induction false} CallsComeFromRows(orig: map<int, UpdatableActivity>, verify: Verifier, dryRun: bool, remote: Remote, updated: seq<UpdatableActivity>, i: nat, n: nat, calls: seq<Call>)
    requires i <= |updated|
    requires forall c :: c in calls ==> exists j :: 0 <= j < |updated| && c == UpdateActivityById(updated[j].id, Body(updated[j]))
    ensures forall c :: c in Drive(UpdateStep(orig, verify, dryRun, remote), updated, i, n, calls, updated).calls ==>
      exists j :: 0 <= j < |updated| && c == UpdateActivityById(updated[j].id, Body(updated[j]))
    decreases |updated| - i
  {
    if i < |updated| {
      var step := UpdateStep(orig, verify, dryRun, remote);
      var s := step(calls, updated[i]);
      StepCases(orig, verify, dryRun, remote, calls, updated[i]);
      var calls' := calls + s.Calls();
      forall c | c in calls' ensures exists j :: 0 <= j < |updated| && c == UpdateActivityById(updated[j].id, Body(updated[j])) {
        if c !in calls {
          assert c == UpdateActivityById(updated[i].id, Body(updated[i]));
        }
      }
      match s
      case Skip =>
        CallsComeFromRows(orig, verify, dryRun, remote, updated, i + 1, n, calls);
      case Done(row, c) =>
        assert updated[i := row] == updated;
        CallsComeFromRows(orig, verify, dryRun, remote, updated, i + 1, n + 1, calls');
      case Failed(_, _) =>
      case Abort(_) =>
    }
  }

  /** A failure names the 1-based line of a row whose ID is in the original
      file and which differs from its original row; its error is that row's
      verify error or, in a live run, the service's refusal. */
  lemma FailureNamesAChangedRow(origRows: seq<UpdatableActivity>, updated: seq<UpdatableActivity>, verify: Verifier, dryRun: bool, remote: Remote)
    ensures var r := UpdateRun(origRows, updated, verify, dryRun, remote);
      r.verdict.FailedAt? ==>
        1 <= r.verdict.line <= |updated| &&
        var a := updated[r.verdict.line - 1];
        && a.id in Index(origRows)
        && Index(origRows)[a.id] != a
        && (verify(a, Index(origRows)[a.id]) == Fail(r.verdict.error) || (!dryRun && r.verdict.error.RemoteFailed?))
    ensures var r := UpdateRun(origRows, updated, verify, dryRun, remote);
      r.verdict.FailedAt? ==>
        forall j :: 0 <= j < r.verdict.line - 1 ==>
          && updated[j].id in Index(origRows)
          && (Index(origRows)[updated[j].id] == updated[j] || verify(updated[j], Index(origRows)[updated[j].id]) == Pass)
  {
    var orig := Index(origRows);
    var step := UpdateStep(orig, verify, dryRun, remote);
    var r := UpdateRun(origRows, updated, verify, dryRun, remote);
    if r.verdict.FailedAt? {
      FailureNamesItsLine(step, updated, 0, 0, [], updated);
      var a := updated[r.verdict.line - 1];
      var h :| step(h, a).Failed? && step(h, a).error == r.verdict.error;
      StepCases(orig, verify, dryRun, remote, h, a);
      RowsBeforeFailurePassed(step, updated, 0, 0, [], updated);
      forall j | 0 <= j < r.verdict.line - 1
        ensures updated[j].id in orig && (orig[updated[j].id] == updated[j] || verify(updated[j], orig[updated[j].id]) == Pass)
      {
        assert CanPass(step, updated[j]);
        var h' :| step(h', updated[j]).Skip? || step(h', updated[j]).Done?;
        StepCases(orig, verify, dryRun, remote, h', updated[j]);
      }
    }
  }

  /** Against a service that accepts every update, a dry run reports the
      verdict a live run would: the same count, or the same failing line and
      check error. */
  lemma DryRunPredictsLiveRun(origRows: seq<UpdatableActivity>, updated: seq<UpdatableActivity>, verify: Verifier, remote: Remote)
    requires forall h :: remote.activities(h).Success?
    ensures UpdateRun(origRows, updated, verify, true, remote).verdict == UpdateRun(origRows, updated, verify, false, remote).verdict
  {
    var orig := Index(origRows);
    var dry, live := UpdateStep(orig, verify, true, remote), UpdateStep(orig, verify, false, remote);
    forall j, h, h' | 0 <= j < |updated| ensures SameDecision(dry(h, updated[j]), live(h', updated[j])) {
      StepCases(orig, verify, false, remote, h', updated[j]);
    }
    SameDecisionsSameVerdict(dry, live, updated, 0, 0, [], [], updated, updated);
  }

  /** The first failing row stops the batch: its line is reported, it failed
      in its check or at the service, and no later row is looked at. */
  lemma FailureStopsTheBatch(origRows: seq<UpdatableActivity>, updated: seq<UpdatableActivity>, updated': seq<UpdatableActivity>, verify: Verifier, dryRun: bool, remote: Remote)
    requires UpdateRun(origRows, updated, verify, dryRun, remote).verdict.FailedAt?
    requires |updated'| == |updated|
    requires var line := UpdateRun(origRows, updated, verify, dryRun, remote).verdict.line;
      line <= |updated| && updated'[..line] == updated[..line]
    ensures var r := UpdateRun(origRows, updated, verify, dryRun, remote);
      && 1 <= r.verdict.line <= |updated|
      && UpdateRun(origRows, updated', verify, dryRun, remote).verdict == r.verdict
      && UpdateRun(origRows, updated', verify, dryRun, remote).calls == r.calls
  {
    var orig := Index(origRows);
    var step := UpdateStep(orig, verify, dryRun, remote);
    var line := UpdateRun(origRows, updated, verify, dryRun, remote).verdict.line;
    FailureIgnoresLaterRows(step, updated, updated', 0, 0, [], updated, updated', line);
  }
}
