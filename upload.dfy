/** cmd/upload.go: the upload command. Each row of the input file names an
    activity file (FIT, TCX or GPX) to send to the service; rows are checked,
    uploaded one at a time, and each upload is polled until the service has
    turned it into an activity or rejected it. */
module Upload {
  import opened Base
  import opened Api
  import opened Batch

  /** One row of the upload CSV file. */
  datatype UploadActivity = UploadActivity(
    externalId: string,
    activityType: string,
    name: string,
    description: string,
    commute: bool,
    trainer: bool,
    fileType: string,
    filename: string)

  /** The activity types the upload command accepts. */
  const ValidActivityTypes: set<string> := {
    "AlpineSki", "BackcountrySki", "Canoeing", "Crossfit", "EBikeRide",
    "Elliptical", "Golf", "Handcycle", "Hike", "IceSkate", "InlineSkate",
    "Kayaking", "Kitesurf", "NordicSki", "Ride", "RockClimbing", "RollerSki",
    "Rowing", "Run", "Sail", "Skateboard", "Snowboard", "Snowshoe", "Soccer",
    "StairStepper", "StandUpPaddling", "Surfing", "Swim", "Velomobile",
    "VirtualRide", "VirtualRun", "Walk", "WeightTraining", "Wheelchair",
    "Windsurf", "Workout", "Yoga"
  }

  predicate ValidActivityType(t: string) { t in ValidActivityTypes }

  /** The file types the upload command accepts, optionally gzipped. */
  const ValidFileTypes: set<string> := {"fit", "fit.gz", "tcx", "tcx.gz", "gpx", "gpx.gz"}

  /** Checks that a row looks like it can be uploaded; `fs.missing` is the
      file system's "does not exist" answer for a path. */
  function Verify(a: UploadActivity, fs: FileSystem): (r: Outcome)
    ensures r == Pass <==>
      && ValidActivityType(a.activityType) && a.name != ""
      && a.fileType in ValidFileTypes && a.filename != "" && !fs.missing(a.filename)
    ensures r == Fail(MissingActivityType) <==> a.activityType == ""
    ensures a.activityType != "" && !ValidActivityType(a.activityType) ==>
      r == Fail(InvalidActivityType(a.activityType))
    ensures ValidActivityType(a.activityType) && a.name == "" ==> r == Fail(MissingName)
    ensures r == Fail(MissingFileType) <==> ValidActivityType(a.activityType) && a.name != "" && a.fileType == ""
    ensures ValidActivityType(a.activityType) && a.name != "" && a.fileType != "" && a.fileType !in ValidFileTypes ==>
      r == Fail(InvalidFileType(a.fileType))
    ensures ValidActivityType(a.activityType) && a.name != "" && a.fileType in ValidFileTypes && a.filename == "" ==>
      r == Fail(MissingFilename)
    ensures r.Fail? && a.filename != "" && ValidActivityType(a.activityType) && a.name != "" && a.fileType in ValidFileTypes ==>
      r == Fail(FilenameNotFound(a.filename))
  {
    if a.activityType == "" then Fail(MissingActivityType)
    else if !ValidActivityType(a.activityType) then Fail(InvalidActivityType(a.activityType))
    else if a.name == "" then Fail(MissingName)
    else if a.fileType == "" then Fail(MissingFileType)
    else if a.fileType !in ValidFileTypes then Fail(InvalidFileType(a.fileType))
    else if a.filename == "" then Fail(MissingFilename)
    else if fs.missing(a.filename) then Fail(FilenameNotFound(a.filename))
    else Pass
  }

  /** A row is ready when it passes the check and its file can be opened. */
  predicate Ready(a: UploadActivity, fs: FileSystem) {
    Verify(a, fs).Pass? && fs.opens(a.filename)
  }

  /** The arguments of the upload request: name, type, file type and file
      always; the external ID and description only when non-empty; the
      trainer and commute flags (as 1) only when set. */
  function UploadOptions(a: UploadActivity): (o: CreateUploadOpts)
    ensures o.name == a.name && o.activityType == a.activityType
    ensures o.dataType == a.fileType && o.file == a.filename
    ensures o.externalId == (if a.externalId != "" then Some(a.externalId) else None)
    ensures o.description == (if a.description != "" then Some(a.description) else None)
    ensures o.trainer == (if a.trainer then Some(1) else None)
    ensures o.commute == (if a.commute then Some(1) else None)
  {
    var o := CreateUploadOpts(a.name, a.activityType, a.fileType, a.filename, None, None, None, None);
    var o := if a.externalId != "" then o.(externalId := Some(a.externalId)) else o;
    var o := if a.description != "" then o.(description := Some(a.description)) else o;
    var o := if a.trainer then o.(trainer := Some(1)) else o;
    if a.commute then o.(commute := Some(1)) else o
  }

  /** What one status reply means. */
  datatype Poll = Pending(uploadId: int) | Finished(activityId: int) | Broken(error: Error)

  /** A failed call is reported first, then an error the service recorded
      for the upload; only then does an activity ID mean success, and a
      reply with neither is still being processed. */
  function PollStep(reply: Response<Upload>): (p: Poll)
    ensures p.Broken? <==> reply.Failure? || reply.value.error != ""
    ensures reply.Failure? ==> p == Broken(RemoteFailed(reply.message))
    ensures reply.Success? && reply.value.error != "" ==> p == Broken(UploadFailed(reply.value.error))
    ensures p.Finished? <==> reply.Success? && reply.value.error == "" && reply.value.activityId != 0
    ensures p.Finished? ==> p.activityId == reply.value.activityId
    ensures p.Pending? ==> p.uploadId == reply.value.id
  {
    match reply
    case Failure(msg) => Broken(RemoteFailed(msg))
    case Success(u) =>
      if u.error != "" then Broken(UploadFailed(u.error))
      else if u.activityId != 0 then Finished(u.activityId)
      else Pending(u.id)
  }

  /** The end of a polling loop, and the status requests it made. */
  datatype Polled = Polled(outcome: Outcome, calls: seq<Call>)

  /** The polling loop after `reply`, with at most `polls` further status
      requests; the service's own loop has no bound, and a run out of polls
      is reported as StillProcessing. */
  function Await(remote: Remote, history: seq<Call>, reply: Response<Upload>, polls: nat): (p: Polled)
    ensures |p.calls| <= polls
    ensures forall k :: 0 <= k < |p.calls| ==> p.calls[k].GetUploadById?
    ensures p.outcome == Pass || p.outcome.error.RemoteFailed? || p.outcome.error.UploadFailed? ||
      p.outcome.error == StillProcessing
    ensures p.outcome == Fail(StillProcessing) ==> |p.calls| == polls
    ensures !PollStep(reply).Pending? ==> p.calls == []
    ensures PollStep(reply).Finished? ==> p.outcome == Pass
    ensures PollStep(reply).Broken? ==> p.outcome == Fail(PollStep(reply).error)
    ensures PollStep(reply).Pending? && polls > 0 ==> |p.calls| > 0 && p.calls[0] == GetUploadById(reply.value.id)
    decreases polls
  {
    match PollStep(reply)
    case Broken(e) => Polled(Fail(e), [])
    case Finished(_) => Polled(Pass, [])
    case Pending(id) =>
      if polls == 0 then Polled(Fail(StillProcessing), [])
      else
        var call := GetUploadById(id);
        var rest := Await(remote, history + [call], remote.uploads(history + [call]), polls - 1);
        Polled(rest.outcome, [call] + rest.calls)
  }

  /** More polls never change an answer the loop already reached: the bound
      only cuts off uploads the service is still working on. */
  lemma {:induction false} MorePollsSameAnswer(remote: Remote, history: seq<Call>, reply: Response<Upload>, polls: nat, polls': nat)
    requires polls <= polls'
    requires Await(remote, history, reply, polls).outcome != Fail(StillProcessing)
    ensures Await(remote, history, reply, polls') == Await(remote, history, reply, polls)
    decreases polls
  {
    match PollStep(reply)
    case Broken(_) =>
    case Finished(_) =>
    case Pending(id) =>
      var call := GetUploadById(id);
      MorePollsSameAnswer(remote, history + [call], remote.uploads(history + [call]), polls - 1, polls' - 1);
  }

  /** The loop's answer is what the last reply it read says: the first reply
      when it sent no request, otherwise the answer to its last request. */
  lemma {:induction false} AwaitFollowsLastReply(remote: Remote, history: seq<Call>, reply: Response<Upload>, polls: nat)
    ensures var p := Await(remote, history, reply, polls);
      var last := if p.calls == [] then reply else remote.uploads(history + p.calls);
      && (p.outcome == Pass <==> PollStep(last).Finished?)
      && (p.outcome == Fail(StillProcessing) <==> PollStep(last).Pending?)
      && (PollStep(last).Broken? ==> p.outcome == Fail(PollStep(last).error))
    decreases polls
  {
    match PollStep(reply)
    case Broken(_) =>
    case Finished(_) =>
    case Pending(id) =>
      if polls > 0 {
        var call := GetUploadById(id);
        var rest := Await(remote, history + [call], remote.uploads(history + [call]), polls - 1);
        AwaitFollowsLastReply(remote, history + [call], remote.uploads(history + [call]), polls - 1);
        assert rest.calls == [] ==> [call] + rest.calls == [call];
        assert (history + [call]) + rest.calls == history + ([call] + rest.calls);
      }
  }

  /** Moving the first call of a run onto the history shifts its prefixes by one. */
  lemma ShiftPrefix(history: seq<Call>, call: Call, rest: seq<Call>, k: nat)
    requires 0 < k <= |rest|
    ensures history + ([call] + rest)[..k] == (history + [call]) + rest[..k - 1]
    ensures ([call] + rest)[k] == rest[k - 1]
  {
    assert ([call] + rest)[..k] == [call] + rest[..k - 1];
  }

  /** Each status request asks about the upload the reply before it named. */
  lemma {:induction false} PollsFollowTheUpload(remote: Remote, history: seq<Call>, reply: Response<Upload>, polls: nat)
    ensures var p := Await(remote, history, reply, polls);
      && (|p.calls| > 0 ==> reply.Success? && p.calls[0] == GetUploadById(reply.value.id))
      && forall k :: 0 < k < |p.calls| ==>
           var before := remote.uploads(history + p.calls[..k]);
           before.Success? && p.calls[k] == GetUploadById(before.value.id)
    decreases polls
  {
    match PollStep(reply)
    case Broken(_) =>
    case Finished(_) =>
    case Pending(id) =>
      if polls > 0 {
        var call := GetUploadById(id);
        var h' := history + [call];
        var rest := Await(remote, h', remote.uploads(h'), polls - 1);
        PollsFollowTheUpload(remote, h', remote.uploads(h'), polls - 1);
        var p := Await(remote, history, reply, polls);
        assert p.calls == [call] + rest.calls;
        forall k | 0 < k < |p.calls|
          ensures var before := remote.uploads(history + p.calls[..k]);
            before.Success? && p.calls[k] == GetUploadById(before.value.id)
        {
          ShiftPrefix(history, call, rest.calls, k);
        }
      }
  }

  /** uploadOne, as a function: check the row, open its file (a file that
      cannot be opened fails even in a dry run), then upload it and poll. */
  function Attempt(remote: Remote, history: seq<Call>, a: UploadActivity, fs: FileSystem, dryRun: bool, polls: nat): (s: Step<UploadActivity>)
    ensures s.Done? || s.Failed?
    ensures s.Done? ==> s.row == a && Ready(a, fs)
    ensures Verify(a, fs).Fail? ==> s == Failed(Verify(a, fs).error, [])
    ensures Verify(a, fs).Pass? && !fs.opens(a.filename) ==> s == Failed(OpenFailed(a.filename), [])
    ensures Ready(a, fs) && dryRun ==> s == Done(a, [])
    ensures Ready(a, fs) && !dryRun ==>
      var call := CreateUpload(UploadOptions(a));
      var p := Await(remote, history + [call], remote.uploads(history + [call]), polls);
      && s.Calls() == [call] + p.calls
      && (s.Done? <==> p.outcome == Pass)
      && (s.Failed? ==> s.error == p.outcome.error)
  {
    match Verify(a, fs)
    case Fail(e) => Failed(e, [])
    case Pass =>
      if !fs.opens(a.filename) then Failed(OpenFailed(a.filename), [])
      else if dryRun then Done(a, [])
      else
        var call := CreateUpload(UploadOptions(a));
        var p := Await(remote, history + [call], remote.uploads(history + [call]), polls);
        match p.outcome
        case Pass => Done(a, [call] + p.calls)
        case Fail(e) => Failed(e, [call] + p.calls)
  }

  /** The status loop of uploadOne after the reply to the upload request,
      with at most `polls` status requests (the sleep between requests is
      not modelled). */
  method AwaitUpload(remote: Remote, history: seq<Call>, reply0: Response<Upload>, polls: nat) returns (p: Polled)
    ensures p == Await(remote, history, reply0, polls)
  {
    ghost var goal := Await(remote, history, reply0, polls);
    var hist := history;
    var reply := reply0;
    var calls := [];
    var n := 0;
    while true
      invariant n <= polls && hist == history + calls
      invariant goal == After(calls, Await(remote, hist, reply, polls - n))
      decreases polls - n
    {
      var step := PollStep(reply);
      if step.Broken? {
        return Polled(Fail(step.error), calls);
      }
      if step.Finished? {
        return Polled(Pass, calls);
      }
      if n == polls {
        return Polled(Fail(StillProcessing), calls);
      }
      var c := GetUploadById(step.uploadId);
      AfterOnePoll(calls, c, Await(remote, hist + [c], remote.uploads(hist + [c]), polls - n - 1));
      calls := calls + [c];
      hist := hist + [c];
      reply := remote.uploads(hist);
      n := n + 1;
    }
  }

  /** The rest p of the polling loop, after the status requests `calls`. */
  function After(calls: seq<Call>, p: Polled): Polled {
    Polled(p.outcome, calls + p.calls)
  }

  lemma AfterOnePoll(calls: seq<Call>, c: Call, rest: Polled)
    ensures After(calls, Polled(rest.outcome, [c] + rest.calls)) == After(calls + [c], rest)
  {
    assert calls + ([c] + rest.calls) == calls + [c] + rest.calls;
  }

  /** uploadOne: the checks, the upload request, then the status loop. */
  method UploadOne(remote: Remote, history: seq<Call>, a: UploadActivity, fs: FileSystem, dryRun: bool, polls: nat) returns (s: Step<UploadActivity>)
    ensures s == Attempt(remote, history, a, fs, dryRun, polls)
  {
    var v := Verify(a, fs);
    if v.Fail? {
      return Failed(v.error, []);
    }
    if !fs.opens(a.filename) {
      return Failed(OpenFailed(a.filename), []);
    }
    if dryRun {
      return Done(a, []);
    }
    var call := CreateUpload(UploadOptions(a));
    var hist := history + [call];
    var p := AwaitUpload(remote, hist, remote.uploads(hist), polls);
    if p.outcome.Pass? {
      s := Done(a, [call] + p.calls);
    } else {
      s := Failed(p.outcome.error, [call] + p.calls);
    }
  }

  /** The body of doUpload's loop: every row is uploaded. */
  function UploadStep(fs: FileSystem, dryRun: bool, polls: nat, remote: Remote): (seq<Call>, UploadActivity) -> Step<UploadActivity> {
    (h: seq<Call>, a: UploadActivity) => Attempt(remote, h, a, fs, dryRun, polls)
  }

  /** What doUpload does with the rows of the input file. */
  function UploadRun(rows: seq<UploadActivity>, fs: FileSystem, dryRun: bool, polls: nat, remote: Remote): Run<UploadActivity> {
    Drive(UploadStep(fs, dryRun, polls, remote), rows, 0, 0, [], rows)
  }

  /** doUpload, on the rows as loaded. */
  method DoUpload(rows: seq<UploadActivity>, fs: FileSystem, dryRun: bool, polls: nat, remote: Remote) returns (verdict: Verdict, calls: seq<Call>)
    ensures Run(verdict, rows, calls) == UploadRun(rows, fs, dryRun, polls, remote)
  {
    ghost var step := UploadStep(fs, dryRun, polls, remote);
    ghost var goal := UploadRun(rows, fs, dryRun, polls, remote);
    var nUploads := 0;
    calls := [];
    var i := 0;
    while i < |rows|
      invariant 0 <= i <= |rows|
      invariant goal == Drive(step, rows, i, nUploads, calls, rows)
    {
      var s := UploadOne(remote, calls, rows[i], fs, dryRun, polls);
      assert step(calls, rows[i]) == s;
      DriveStep(step, rows, i, nUploads, calls, rows);
      if s.Failed? {
        return FailedAt(i + 1, s.error), calls + s.calls;
      }
      assert rows[i := s.row] == rows;
      calls := calls + s.calls;
      nUploads := nUploads + 1;
      i := i + 1;
    }
    verdict := Completed(nUploads);
  }

  // ---------------------------------------------------------------------
  // Properties of the upload command.

  /** A batch either uploads every row or stops at a failing row; one that
      completes has uploaded every row, and every row was ready. */
  lemma UploadVerdict(rows: seq<UploadActivity>, fs: FileSystem, dryRun: bool, polls: nat, remote: Remote)
    ensures var v := UploadRun(rows, fs, dryRun, polls, remote).verdict;
      && !v.Aborted?
      && (v.Completed? ==> v.count == |rows| && forall j :: 0 <= j < |rows| ==> Ready(rows[j], fs))
  {
    var step := UploadStep(fs, dryRun, polls, remote);
    NoAbortNoAborted(step, rows, 0, 0, [], rows);
    var always := (a: UploadActivity) => true;
    CompletedCountsHandledRows(step, always, rows, 0, 0, [], rows);
    CountAll(rows[0..], always);
    CompletedMeansAllReady(step, fs, dryRun, polls, remote, rows, 0, 0, [], rows);
  }

  /** A batch that fails stops at the first row that fails: the rows before
      it were ready, and the failing row was not ready or was rejected by
      the service (in a dry run: was not ready). */
  lemma UploadFailure(rows: seq<UploadActivity>, fs: FileSystem, dryRun: bool, polls: nat, remote: Remote)
    ensures var v := UploadRun(rows, fs, dryRun, polls, remote).verdict;
      v.FailedAt? ==>
        && (forall j :: 0 <= j < v.line - 1 ==> Ready(rows[j], fs))
        && (dryRun ==> !Ready(rows[v.line - 1], fs))
  {
    var step := UploadStep(fs, dryRun, polls, remote);
    var r := UploadRun(rows, fs, dryRun, polls, remote);
    RowsBeforeFailurePassed(step, rows, 0, 0, [], rows);
    FailureNamesItsLine(step, rows, 0, 0, [], rows);
    forall j | 0 <= j < |rows| && CanPass(step, rows[j]) ensures Ready(rows[j], fs) {
      var h :| step(h, rows[j]).Skip? || step(h, rows[j]).Done?;
    }
    if r.verdict.FailedAt? && dryRun {
      var e := r.verdict.error;
      var h :| step(h, rows[r.verdict.line - 1]).Failed? && step(h, rows[r.verdict.line - 1]).error == e;
    }
  }

  /** Helper for UploadVerdict: a completed batch got past every row. */
  lemma {:induction false} CompletedMeansAllReady(step: (seq<Call>, UploadActivity) -> Step<UploadActivity>, fs: FileSystem, dryRun: bool, polls: nat, remote: Remote,
                                                  rows: seq<UploadActivity>, i: nat, n: nat, calls: seq<Call>, out: seq<UploadActivity>)
    requires step == UploadStep(fs, dryRun, polls, remote)
    requires i <= |rows| == |out|
    ensures Drive(step, rows, i, n, calls, out).verdict.Completed? ==> forall j :: i <= j < |rows| ==> Ready(rows[j], fs)
    decreases |rows| - i
  {
    if i < |rows| {
      var s := step(calls, rows[i]);
      match s
      case Done(row, c) =>
        CompletedMeansAllReady(step, fs, dryRun, polls, remote, rows, i + 1, n + 1, calls + c, out[i := row]);
      case Failed(_, _) =>
    }
  }

  /** A dry run opens the files but never calls the service, and it
      completes exactly when every row is ready. */
  lemma DryRunChecksEveryRow(rows: seq<UploadActivity>, fs: FileSystem, polls: nat, remote: Remote)
    ensures UploadRun(rows, fs, true, polls, remote).calls == []
    ensures UploadRun(rows, fs, true, polls, remote).verdict == Completed(|rows|) <==>
      forall j :: 0 <= j < |rows| ==> Ready(rows[j], fs)
  {
    var step := UploadStep(fs, true, polls, remote);
    QuietStepsMakeNoCalls(step, rows, 0, 0, [], rows);
    UploadVerdict(rows, fs, true, polls, remote);
    UploadFailure(rows, fs, true, polls, remote);
    var v := UploadRun(rows, fs, true, polls, remote).verdict;
  }

  /** A dry run announces the result of a live run against a service that
      turns every upload into an activity at once. */
  lemma DryRunPredictsLiveRun(rows: seq<UploadActivity>, fs: FileSystem, polls: nat, remote: Remote)
    requires forall h :: remote.uploads(h).Success? && remote.uploads(h).value.error == "" && remote.uploads(h).value.activityId != 0
    ensures UploadRun(rows, fs, true, polls, remote).verdict == UploadRun(rows, fs, false, polls, remote).verdict
  {
    var dry, live := UploadStep(fs, true, polls, remote), UploadStep(fs, false, polls, remote);
    forall j, h, h' | 0 <= j < |rows| ensures SameDecision(dry(h, rows[j]), live(h', rows[j])) {
      var call := CreateUpload(UploadOptions(rows[j]));
      assert PollStep(remote.uploads(h' + [call])).Finished?;
    }
    SameDecisionsSameVerdict(dry, live, rows, 0, 0, [], [], rows, rows);
  }

  /** The upload requests the rows of a batch give rise to. */
  function Requests(rows: seq<UploadActivity>): set<Call> {
    set j | 0 <= j < |rows| :: CreateUpload(UploadOptions(rows[j]))
  }

  /** Each call is a status request or the upload request of one of the rows. */
  predicate FromRows(calls: seq<Call>, rows: seq<UploadActivity>) {
    forall k :: 0 <= k < |calls| ==> calls[k].GetUploadById? || calls[k] in Requests(rows)
  }

  /** A live batch sends nothing but the upload requests of its own rows and
      status requests. */
  lemma {:induction false} UploadsCarryTheirRows(fs: FileSystem, polls: nat, remote: Remote,
                                                 rows: seq<UploadActivity>, i: nat, n: nat, calls: seq<Call>, out: seq<UploadActivity>)
    requires i <= |rows| == |out|
    requires FromRows(calls, rows)
    ensures FromRows(Drive(UploadStep(fs, false, polls, remote), rows, i, n, calls, out).calls, rows)
    decreases |rows| - i
  {
    if i < |rows| {
      var step := UploadStep(fs, false, polls, remote);
      var s := step(calls, rows[i]);
      var c := s.Calls();
      assert CreateUpload(UploadOptions(rows[i])) in Requests(rows);
      assert FromRows(c, rows);
      var calls' := calls + c;
      assert FromRows(calls', rows) by {
        forall k | |calls| <= k < |calls'| ensures calls'[k].GetUploadById? || calls'[k] in Requests(rows) {
          assert calls'[k] == c[k - |calls|];
        }
      }
      match s
      case Done(row, _) =>
        UploadsCarryTheirRows(fs, polls, remote, rows, i + 1, n + 1, calls', out[i := row]);
      case Failed(_, _) =>
    }
  }
}
