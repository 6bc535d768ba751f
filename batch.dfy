/** The row loop that create.go, update.go, upload.go and uploadmanual.go each
    write out: walk the rows in file order, let each row be skipped, handled
    or fail, stop at the first failure reporting its 1-based line, and count
    the rows handled. `Drive` is that loop as a tail-recursive function; each
    command's `while` loop is proved equal to it. */
module Batch {
  import opened Base
  import opened Api

  /** What handling one row did: nothing (the row is skipped), the row was
      handled (possibly rewritten) after the given calls, the row failed with
      an error after the given calls, or the whole batch stops with an error
      that is not tied to a line. */
  datatype Step<R> =
    | Skip
    | Done(row: R, calls: seq<Call>)
    | Failed(error: Error, calls: seq<Call>)
    | Abort(error: Error)
  {
    function Calls(): seq<Call> {
      match this
      case Done(_, c) => c
      case Failed(_, c) => c
      case _ => []
    }
  }

  /** How a batch ends: all rows walked with `count` rows handled, the row on
      1-based `line` failed, or the batch stopped before it got that far. */
  datatype Verdict = Completed(count: nat) | FailedAt(line: nat, error: Error) | Aborted(error: Error)

  /** A finished batch: its verdict, the rows as they stand afterwards, and
      every call made to the service, in order. */
  datatype Run<R> = Run(verdict: Verdict, rows: seq<R>, calls: seq<Call>)

  /** The loop from row i on, after n rows were handled, with `calls` made so
      far and `out` the rows as they stand now. */
  function Drive<R>(step: (seq<Call>, R) -> Step<R>, rows: seq<R>, i: nat, n: nat, calls: seq<Call>, out: seq<R>): (r: Run<R>)
    requires i <= |rows| == |out|
    ensures |r.rows| == |rows|
    ensures r.verdict.FailedAt? ==> i < r.verdict.line <= |rows|
    decreases |rows| - i
  {
    if i == |rows| then Run(Completed(n), out, calls)
    else
      match step(calls, rows[i])
      case Skip => Drive(step, rows, i + 1, n, calls, out)
      case Done(row, c) => Drive(step, rows, i + 1, n + 1, calls + c, out[i := row])
      case Failed(e, c) => Run(FailedAt(i + 1, e), out, calls + c)
      case Abort(e) => Run(Aborted(e), out, calls)
  }

  /** One step of the loop, case by case. */
  lemma DriveStep<R>(step: (seq<Call>, R) -> Step<R>, rows: seq<R>, i: nat, n: nat, calls: seq<Call>, out: seq<R>)
    requires i < |rows| == |out|
    ensures var s := step(calls, rows[i]);
      var r := Drive(step, rows, i, n, calls, out);
      && (s.Skip? ==> r == Drive(step, rows, i + 1, n, calls, out))
      && (s.Done? ==> r == Drive(step, rows, i + 1, n + 1, calls + s.calls, out[i := s.row]))
      && (s.Failed? ==> r == Run(FailedAt(i + 1, s.error), out, calls + s.calls))
      && (s.Abort? ==> r == Run(Aborted(s.error), out, calls))
  {
  }

  /** The number of elements of s that satisfy p. */
  function Count<R>(s: seq<R>, p: R -> bool): (c: nat)
    ensures c <= |s|
  {
    if s == [] then 0 else (if p(s[0]) then 1 else 0) + Count(s[1..], p)
  }

  /** Rows that every history skips cost nothing: the loop carries on after
      them exactly as if it started behind them. */
  lemma {:induction false} SkippedRowsAreInert<R>(step: (seq<Call>, R) -> Step<R>, rows: seq<R>, i: nat, m: nat, n: nat, calls: seq<Call>, out: seq<R>)
    requires i <= m <= |rows| == |out|
    requires forall j, h :: i <= j < m ==> step(h, rows[j]) == Skip
    ensures Drive(step, rows, i, n, calls, out) == Drive(step, rows, m, n, calls, out)
    decreases m - i
  {
    if i < m {
      assert step(calls, rows[i]) == Skip;
      SkippedRowsAreInert(step, rows, i + 1, m, n, calls, out);
    }
  }

  /** A batch that completes has handled exactly the rows its step does not skip. */
  lemma {:induction false} CompletedCountsHandledRows<R>(step: (seq<Call>, R) -> Step<R>, handled: R -> bool, rows: seq<R>, i: nat, n: nat, calls: seq<Call>, out: seq<R>)
    requires i <= |rows| == |out|
    requires forall j, h :: i <= j < |rows| ==> (step(h, rows[j]).Skip? <==> !handled(rows[j]))
    ensures var r := Drive(step, rows, i, n, calls, out);
      r.verdict.Completed? ==> r.verdict.count == n + Count(rows[i..], handled)
    decreases |rows| - i
  {
    if i < |rows| {
      assert rows[i..][1..] == rows[i + 1..];
      var s := step(calls, rows[i]);
      match s
      case Skip =>
        CompletedCountsHandledRows(step, handled, rows, i + 1, n, calls, out);
      case Done(row, c) =>
        CompletedCountsHandledRows(step, handled, rows, i + 1, n + 1, calls + c, out[i := row]);
      case Failed(_, _) =>
      case Abort(_) =>
    }
  }

  /** When no row's step talks to the service, neither does the batch. */
  lemma {:induction false} QuietStepsMakeNoCalls<R>(step: (seq<Call>, R) -> Step<R>, rows: seq<R>, i: nat, n: nat, calls: seq<Call>, out: seq<R>)
    requires i <= |rows| == |out|
    requires forall j, h :: i <= j < |rows| ==> step(h, rows[j]).Calls() == []
    ensures Drive(step, rows, i, n, calls, out).calls == calls
    decreases |rows| - i
  {
    if i < |rows| {
      var s := step(calls, rows[i]);
      assert s.Calls() == [];
      match s
      case Skip =>
        QuietStepsMakeNoCalls(step, rows, i + 1, n, calls, out);
      case Done(row, c) =>
        assert calls + c == calls;
        QuietStepsMakeNoCalls(step, rows, i + 1, n + 1, calls + c, out[i := row]);
      case Failed(_, c) =>
        assert calls + c == calls;
      case Abort(_) =>
    }
  }

  /** Some history makes the step fail on this row with this error. */
  ghost predicate CanFail<R>(step: (seq<Call>, R) -> Step<R>, row: R, e: Error) {
    exists h :: step(h, row).Failed? && step(h, row).error == e
  }

  /** A failure names a line of the batch, that line's row really failed with
      the reported error, and no row from that line on was rewritten. */
  lemma {:induction false} FailureNamesItsLine<R>(step: (seq<Call>, R) -> Step<R>, rows: seq<R>, i: nat, n: nat, calls: seq<Call>, out: seq<R>)
    requires i <= |rows| == |out|
    ensures var r := Drive(step, rows, i, n, calls, out);
      r.verdict.FailedAt? ==>
        && CanFail(step, rows[r.verdict.line - 1], r.verdict.error)
        && (forall j :: r.verdict.line - 1 <= j < |rows| ==> r.rows[j] == out[j])
    decreases |rows| - i
  {
    if i < |rows| {
      var s := step(calls, rows[i]);
      match s
      case Skip =>
        FailureNamesItsLine(step, rows, i + 1, n, calls, out);
      case Done(row, c) =>
        FailureNamesItsLine(step, rows, i + 1, n + 1, calls + c, out[i := row]);
      case Failed(e, c) =>
        assert step(calls, rows[i]).Failed? && step(calls, rows[i]).error == e;
      case Abort(_) =>
    }
  }

  /** Rows after a failing line are never looked at: any batch that agrees
      with this one up to that line fails the same way with the same calls. */
  lemma {:induction false} FailureIgnoresLaterRows<R>(step: (seq<Call>, R) -> Step<R>, rows: seq<R>, rows': seq<R>, i: nat, n: nat, calls: seq<Call>, out: seq<R>, out': seq<R>, line: nat)
    requires i <= |rows| == |out| && i <= |rows'| == |out'|
    requires Drive(step, rows, i, n, calls, out).verdict.FailedAt?
    requires line == Drive(step, rows, i, n, calls, out).verdict.line
    requires line <= |rows'| && rows'[..line] == rows[..line]
    ensures Drive(step, rows', i, n, calls, out').verdict == Drive(step, rows, i, n, calls, out).verdict
    ensures Drive(step, rows', i, n, calls, out').calls == Drive(step, rows, i, n, calls, out).calls
    decreases |rows| - i
  {
    if i < |rows| {
      assert rows'[i] == rows'[..line][i];
      var s := step(calls, rows[i]);
      match s
      case Skip =>
        FailureIgnoresLaterRows(step, rows, rows', i + 1, n, calls, out, out', line);
      case Done(row, c) =>
        FailureIgnoresLaterRows(step, rows, rows', i + 1, n + 1, calls + c, out[i := row], out'[i := row], line);
      case Failed(_, _) =>
      case Abort(_) =>
    }
  }

  /** A row is only ever replaced by what its step produced, and only in the
      way `rewrite` allows; rows before i are left alone. */
  lemma {:induction false} RowsChangeOnlyWhenHandled<R>(step: (seq<Call>, R) -> Step<R>, rewrite: (R, R) -> bool, rows: seq<R>, i: nat, n: nat, calls: seq<Call>, out: seq<R>)
    requires i <= |rows| == |out|
    requires forall j, h :: i <= j < |rows| && step(h, rows[j]).Done? ==> rewrite(rows[j], step(h, rows[j]).row)
    ensures var r := Drive(step, rows, i, n, calls, out);
      && (forall j :: 0 <= j < i ==> r.rows[j] == out[j])
      && (forall j :: i <= j < |rows| ==> r.rows[j] == out[j] || rewrite(rows[j], r.rows[j]))
    decreases |rows| - i
  {
    if i < |rows| {
      var s := step(calls, rows[i]);
      match s
      case Skip =>
        RowsChangeOnlyWhenHandled(step, rewrite, rows, i + 1, n, calls, out);
      case Done(row, c) =>
        RowsChangeOnlyWhenHandled(step, rewrite, rows, i + 1, n + 1, calls + c, out[i := row]);
      case Failed(_, _) =>
      case Abort(_) =>
    }
  }

  /** If skipped rows and handled rows both end up satisfying `settled`, then
      every row the batch got past satisfies it afterwards: all rows when it
      completes, the rows before the failing line when it fails. */
  lemma {:induction false} PassedRowsAreSettled<R>(step: (seq<Call>, R) -> Step<R>, settled: R -> bool, rows: seq<R>, i: nat, n: nat, calls: seq<Call>, out: seq<R>, done: nat)
    requires i <= |rows| == |out|
    requires forall j :: i <= j < |rows| ==> out[j] == rows[j]
    requires forall j :: 0 <= j < i ==> settled(out[j])
    requires forall j, h :: i <= j < |rows| && step(h, rows[j]).Skip? ==> settled(rows[j])
    requires forall j, h :: i <= j < |rows| && step(h, rows[j]).Done? ==> settled(step(h, rows[j]).row)
    requires var v := Drive(step, rows, i, n, calls, out).verdict;
      done == (if v.FailedAt? then v.line - 1 else if v.Completed? then |rows| else 0)
    ensures forall j :: 0 <= j < done ==> settled(Drive(step, rows, i, n, calls, out).rows[j])
    decreases |rows| - i
  {
    if i < |rows| {
      var s := step(calls, rows[i]);
      match s
      case Skip =>
        PassedRowsAreSettled(step, settled, rows, i + 1, n, calls, out, done);
      case Done(row, c) =>
        PassedRowsAreSettled(step, settled, rows, i + 1, n + 1, calls + c, out[i := row], done);
      case Failed(_, _) =>
      case Abort(_) =>
    }
  }

  /** Two steps decide a row alike: both skip it, both handle it, both fail
      it with the same error, or both abort with the same error. */
  predicate SameDecision<R>(s: Step<R>, t: Step<R>) {
    match s
    case Skip => t.Skip?
    case Done(_, _) => t.Done?
    case Failed(e, _) => t.Failed? && t.error == e
    case Abort(e) => t == Abort(e)
  }

  /** Batches whose steps decide every row alike, whatever the histories they
      see, reach the same verdict: the calls and the rewritten rows may differ,
      the result reported to the user does not. */
  lemma {:induction false} SameDecisionsSameVerdict<R>(step: (seq<Call>, R) -> Step<R>, step': (seq<Call>, R) -> Step<R>, rows: seq<R>, i: nat, n: nat, calls: seq<Call>, calls': seq<Call>, out: seq<R>, out': seq<R>)
    requires i <= |rows| == |out| == |out'|
    requires forall j, h, h' :: i <= j < |rows| ==> SameDecision(step(h, rows[j]), step'(h', rows[j]))
    ensures Drive(step, rows, i, n, calls, out).verdict == Drive(step', rows, i, n, calls', out').verdict
    decreases |rows| - i
  {
    if i < |rows| {
      var s, t := step(calls, rows[i]), step'(calls', rows[i]);
      assert SameDecision(s, t);
      match s
      case Skip =>
        SameDecisionsSameVerdict(step, step', rows, i + 1, n, calls, calls', out, out');
      case Done(row, c) =>
        SameDecisionsSameVerdict(step, step', rows, i + 1, n + 1, calls + c, calls' + t.calls, out[i := row], out'[i := t.row]);
      case Failed(_, _) =>
      case Abort(_) =>
    }
  }

  /** Count of a predicate every element satisfies is the length. */
  lemma {:induction false} CountAll<R>(s: seq<R>, p: R -> bool)
    requires forall j :: 0 <= j < |s| ==> p(s[j])
    ensures Count(s, p) == |s|
  {
    if s != [] {
      assert p(s[0]);
      CountAll(s[1..], p);
    }
  }

  /** A batch whose steps never abort is never aborted. */
  lemma {:induction false} NoAbortNoAborted<R>(step: (seq<Call>, R) -> Step<R>, rows: seq<R>, i: nat, n: nat, calls: seq<Call>, out: seq<R>)
    requires i <= |rows| == |out|
    requires forall j, h :: i <= j < |rows| ==> !step(h, rows[j]).Abort?
    ensures !Drive(step, rows, i, n, calls, out).verdict.Aborted?
    decreases |rows| - i
  {
    if i < |rows| {
      var s := step(calls, rows[i]);
      assert !s.Abort?;
      match s
      case Skip =>
        NoAbortNoAborted(step, rows, i + 1, n, calls, out);
      case Done(row, c) =>
        NoAbortNoAborted(step, rows, i + 1, n + 1, calls + c, out[i := row]);
      case Failed(_, _) =>
    }
  }

  /** Some history lets the step get past this row (skip it or handle it). */
  ghost predicate CanPass<R>(step: (seq<Call>, R) -> Step<R>, row: R) {
    exists h :: step(h, row).Skip? || step(h, row).Done?
  }

  /** Every row before a failing line was got past. */
  lemma {:induction false} RowsBeforeFailurePassed<R>(step: (seq<Call>, R) -> Step<R>, rows: seq<R>, i: nat, n: nat, calls: seq<Call>, out: seq<R>)
    requires i <= |rows| == |out|
    ensures var r := Drive(step, rows, i, n, calls, out);
      r.verdict.FailedAt? ==> forall j :: i <= j < r.verdict.line - 1 ==> CanPass(step, rows[j])
    decreases |rows| - i
  {
    if i < |rows| {
      var s := step(calls, rows[i]);
      match s
      case Skip =>
        assert step(calls, rows[i]).Skip?;
        RowsBeforeFailurePassed(step, rows, i + 1, n, calls, out);
      case Done(row, c) =>
        assert step(calls, rows[i]).Done?;
        RowsBeforeFailurePassed(step, rows, i + 1, n + 1, calls + c, out[i := row]);
      case Failed(_, _) =>
      case Abort(_) =>
    }
  }
}
