/** main.go: the original program, kept as the repository's entry point. It
    walks the athlete's activities page by page and makes every private
    activity public, counting what it saw and what it changed. A limit
    `max` (-1 for none) is tested before each page is fetched; any failed
    call ends the process. */
module PrivateSweep {
  import opened Base
  import opened Api

  /** Activities asked for per listing call. */
  const PerPage: nat := 30

  /** The parts of a listed activity the program acts on; the start date and
      the name are only logged. */
  datatype Summary = Summary(id: int, private: bool)

  /** The answer to the listing call for page k + 1; pages past the end are empty. */
  function Answer(pages: seq<Response<seq<Summary>>>, k: nat): Response<seq<Summary>> {
    if k < |pages| then pages[k] else Success([])
  }

  /** How a page's inner loop ended: a failed update call or the end of the
      page, the update count and every call made so far. */
  datatype Visited = Visited(outcome: Outcome, nUpdates: nat, calls: seq<Call>)

  /** How the whole program ended, with its two counters and its calls. */
  datatype Tally = Tally(outcome: Outcome, nActivities: nat, nUpdates: nat, calls: seq<Call>)

  /** The inner loop over one page from activity j on: public activities are
      passed over; a private one is counted and, outside a dry run, made
      public. `cap` is -1 for the program as written; otherwise the loop
      stops before counting update number cap + 1. */
  function Visit(acts: seq<Summary>, j: nat, dryRun: bool, remote: Remote, cap: int, u: nat, calls: seq<Call>): (v: Visited)
    requires j <= |acts|
    ensures calls <= v.calls
    decreases |acts| - j
  {
    if j == |acts| then Visited(Pass, u, calls)
    else if !acts[j].private then Visit(acts, j + 1, dryRun, remote, cap, u, calls)
    else if cap != -1 && u >= cap then Visited(Pass, u, calls)
    else if dryRun then Visit(acts, j + 1, dryRun, remote, cap, u + 1, calls)
    else
      var calls' := calls + [UpdatePrivate(acts[j].id, false)];
      match remote.activities(calls')
      case Failure(msg) => Visited(Fail(RemoteFailed(msg)), u + 1, calls')
      case Success(_) => Visit(acts, j + 1, dryRun, remote, cap, u + 1, calls')
  }

  /** One pass of the outer loop's body at page k + 1, after the run so far
      has tallied t: the listing call, then the inner loop over the page
      with the given cap. `full` says whether the page was full, so that
      the loop goes on to the next one. */
  datatype PageStep = PageStep(tally: Tally, full: bool)

  function FetchPage(pages: seq<Response<seq<Summary>>>, dryRun: bool, remote: Remote, cap: int, k: nat, t: Tally): (s: PageStep)
    ensures s.full ==> k < |pages| && s.tally.outcome.Pass?
    ensures s.full ==> Answer(pages, k).Success? && |Answer(pages, k).value| >= PerPage
    ensures t.calls + [ListActivities(k + 1, PerPage)] <= s.tally.calls
  {
    var calls := t.calls + [ListActivities(k + 1, PerPage)];
    match Answer(pages, k)
    case Failure(msg) => PageStep(Tally(Fail(RemoteFailed(msg)), t.nActivities, t.nUpdates, calls), false)
    case Success(acts) =>
      var v := Visit(acts, 0, dryRun, remote, cap, t.nUpdates, calls);
      PageStep(Tally(v.outcome, t.nActivities + |acts|, v.nUpdates, v.calls), v.outcome.Pass? && |acts| >= PerPage)
  }

  /** The page loop as written, from page k + 1 on: it runs while there is no
      limit or the update count has not passed it, and stops after a failed
      call or a short page. */
  function SweepFrom(pages: seq<Response<seq<Summary>>>, max: int, dryRun: bool, remote: Remote, k: nat, t: Tally): Tally
    decreases |pages| + 1 - k
  {
    if !(max == -1 || t.nUpdates <= max) then t
    else
      var s := FetchPage(pages, dryRun, remote, -1, k, t);
      if s.full then SweepFrom(pages, max, dryRun, remote, k + 1, s.tally) else s.tally
  }

  /** What the program does, from the first page. */
  function Swept(pages: seq<Response<seq<Summary>>>, max: int, dryRun: bool, remote: Remote): Tally {
    SweepFrom(pages, max, dryRun, remote, 0, Tally(Pass, 0, 0, []))
  }

  /** The inner loop over one page. */
  method VisitPage(acts: seq<Summary>, dryRun: bool, remote: Remote, u0: nat, calls0: seq<Call>)
    returns (outcome: Outcome, nUpdates: nat, calls: seq<Call>)
    ensures Visited(outcome, nUpdates, calls) == Visit(acts, 0, dryRun, remote, -1, u0, calls0)
  {
    nUpdates, calls := u0, calls0;
    var j := 0;
    while j < |acts|
      invariant 0 <= j <= |acts|
      invariant Visit(acts, 0, dryRun, remote, -1, u0, calls0) == Visit(acts, j, dryRun, remote, -1, nUpdates, calls)
    {
      var a := acts[j];
      if a.private {
        nUpdates := nUpdates + 1;
        if !dryRun {
          calls := calls + [UpdatePrivate(a.id, false)];
          var reply := remote.activities(calls);
          if reply.Failure? {
            return Fail(RemoteFailed(reply.message)), nUpdates, calls;
          }
        }
      }
      j := j + 1;
    }
    outcome := Pass;
  }

  /** The body of main after the flags are read. */
  method SweepPrivate(pages: seq<Response<seq<Summary>>>, max: int, dryRun: bool, remote: Remote)
    returns (outcome: Outcome, nActivities: nat, nUpdates: nat, calls: seq<Call>)
    ensures Tally(outcome, nActivities, nUpdates, calls) == Swept(pages, max, dryRun, remote)
  {
    ghost var goal := Swept(pages, max, dryRun, remote);
    var page := 1;
    nActivities, nUpdates := 0, 0;
    calls := [];
    while max == -1 || nUpdates <= max
      invariant 1 <= page <= |pages| + 1
      invariant goal == SweepFrom(pages, max, dryRun, remote, page - 1, Tally(Pass, nActivities, nUpdates, calls))
      decreases |pages| + 1 - page
    {
      ghost var s := FetchPage(pages, dryRun, remote, -1, page - 1, Tally(Pass, nActivities, nUpdates, calls));
      calls := calls + [ListActivities(page, PerPage)];
      var answer := Answer(pages, page - 1);
      if answer.Failure? {
        return Fail(RemoteFailed(answer.message)), nActivities, nUpdates, calls;
      }
      var acts := answer.value;
      nActivities := nActivities + |acts|;
      var o;
      o, nUpdates, calls := VisitPage(acts, dryRun, remote, nUpdates, calls);
      assert s.tally == Tally(o, nActivities, nUpdates, calls);
      if o.Fail? {
        return o, nActivities, nUpdates, calls;
      }
      if |acts| < PerPage {
        break;
      }
      page := page + 1;
    }
    outcome := Pass;
  }

  // ---------------------------------------------------------------------
  // Reference definitions: what a run sees and what it should change.

  /** The number of private activities in s. */
  function Privates(s: seq<Summary>): (c: nat)
    ensures c <= |s|
  {
    if s == [] then 0 else (if s[0].private then 1 else 0) + Privates(s[1..])
  }

  /** The update calls that make the private activities of s public, in order. */
  function Touched(s: seq<Summary>): (c: seq<Call>)
    ensures |c| == Privates(s)
  {
    if s == [] then [] else (if s[0].private then [UpdatePrivate(s[0].id, false)] else []) + Touched(s[1..])
  }

  /** The activities of the pages a run without failed calls fetches from
      page k + 1 on, when u updates were counted before. */
  function Seen(pages: seq<Response<seq<Summary>>>, max: int, k: nat, u: nat): seq<Summary>
    decreases |pages| + 1 - k
  {
    if !(max == -1 || u <= max) then []
    else match Answer(pages, k)
      case Failure(_) => []
      case Success(acts) =>
        if |acts| < PerPage then acts else acts + Seen(pages, max, k + 1, u + Privates(acts))
  }

  /** The update calls among a run's calls, in order. */
  function Updates(calls: seq<Call>): (c: seq<Call>)
    ensures |c| <= |calls|
  {
    if calls == [] then []
    else (if calls[0].UpdatePrivate? then [calls[0]] else []) + Updates(calls[1..])
  }

  /** The listing calls among a run's calls, in order. */
  function Lists(calls: seq<Call>): (c: seq<Call>)
    ensures |c| <= |calls|
  {
    if calls == [] then []
    else (if calls[0].ListActivities? then [calls[0]] else []) + Lists(calls[1..])
  }

  /** The listing calls for `count` pages in a row, from page k + 1 on. */
  function PageCalls(k: nat, count: nat): (c: seq<Call>)
    ensures |c| == count
  {
    seq(count, m requires 0 <= m < count => ListActivities(k + m + 1, PerPage))
  }

  lemma {:induction false} PrivatesAppend(a: seq<Summary>, b: seq<Summary>)
    ensures Privates(a + b) == Privates(a) + Privates(b)
    decreases |a|
  {
    if a != [] {
      assert (a + b)[1..] == a[1..] + b;
      PrivatesAppend(a[1..], b);
    } else {
      assert a + b == b;
    }
  }

  lemma {:induction false} TouchedAppend(a: seq<Summary>, b: seq<Summary>)
    ensures Touched(a + b) == Touched(a) + Touched(b)
    decreases |a|
  {
    if a != [] {
      assert (a + b)[1..] == a[1..] + b;
      TouchedAppend(a[1..], b);
    } else {
      assert a + b == b;
    }
  }

  /** Filtering a run's calls distributes over appending calls. */
  lemma {:induction false} FiltersAppend(a: seq<Call>, b: seq<Call>)
    ensures Updates(a + b) == Updates(a) + Updates(b)
    ensures Lists(a + b) == Lists(a) + Lists(b)
    decreases |a|
  {
    if a != [] {
      assert (a + b)[1..] == a[1..] + b;
      FiltersAppend(a[1..], b);
    } else {
      assert a + b == b;
    }
  }

  lemma FiltersOfOne(c: Call)
    ensures Updates([c]) == (if c.UpdatePrivate? then [c] else [])
    ensures Lists([c]) == (if c.ListActivities? then [c] else [])
  {
    assert [c][1..] == [];
  }

  /** Walking the rest of a page, the loop makes no listing call. */
  lemma {:induction false} VisitListsNothing(acts: seq<Summary>, j: nat, dryRun: bool, remote: Remote, cap: int, u: nat, calls: seq<Call>)
    requires j <= |acts|
    ensures Lists(Visit(acts, j, dryRun, remote, cap, u, calls).calls) == Lists(calls)
    decreases |acts| - j
  {
    if j < |acts| && acts[j].private && !(cap != -1 && u >= cap) {
      if dryRun {
        VisitListsNothing(acts, j + 1, dryRun, remote, cap, u + 1, calls);
      } else {
        var c := UpdatePrivate(acts[j].id, false);
        FiltersAppend(calls, [c]);
        FiltersOfOne(c);
        assert Lists(calls + [c]) == Lists(calls) + [];
        VisitListsNothing(acts, j + 1, dryRun, remote, cap, u + 1, calls + [c]);
      }
    } else if j < |acts| && !acts[j].private {
      VisitListsNothing(acts, j + 1, dryRun, remote, cap, u, calls);
    }
  }

  /** In a dry run the loop gets through every page and calls nothing. */
  lemma {:induction false} DryVisitCallsNothing(acts: seq<Summary>, j: nat, remote: Remote, u: nat, calls: seq<Call>)
    requires j <= |acts|
    ensures var v := Visit(acts, j, true, remote, -1, u, calls);
      v.outcome == Pass && v.calls == calls
    decreases |acts| - j
  {
    if j < |acts| {
      DryVisitCallsNothing(acts, j + 1, remote, if acts[j].private then u + 1 else u, calls);
    }
  }

  /** Privates and Touched of a page's rest, one activity at a time. */
  lemma SuffixStep(acts: seq<Summary>, j: nat)
    requires j <= |acts|
    ensures j == |acts| ==> Privates(acts[j..]) == 0 && Touched(acts[j..]) == []
    ensures j < |acts| ==>
      && Privates(acts[j..]) == (if acts[j].private then 1 else 0) + Privates(acts[j + 1..])
      && Touched(acts[j..]) == (if acts[j].private then [UpdatePrivate(acts[j].id, false)] else []) + Touched(acts[j + 1..])
  {
    if j < |acts| {
      assert acts[j..][0] == acts[j] && acts[j..][1..] == acts[j + 1..];
    } else {
      assert acts[j..] == [];
    }
  }

  /** Walking the rest of a page from activity j without a failed call, the
      loop counts the private activities there. */
  lemma {:induction false} VisitCounts(acts: seq<Summary>, j: nat, dryRun: bool, remote: Remote, u: nat, calls: seq<Call>)
    requires j <= |acts|
    ensures var v := Visit(acts, j, dryRun, remote, -1, u, calls);
      v.outcome.Pass? ==> v.nUpdates == u + Privates(acts[j..])
    decreases |acts| - j
  {
    SuffixStep(acts, j);
    if j < |acts| {
      var a := acts[j];
      if !a.private {
        VisitCounts(acts, j + 1, dryRun, remote, u, calls);
      } else if dryRun {
        VisitCounts(acts, j + 1, dryRun, remote, u + 1, calls);
      } else {
        var c := UpdatePrivate(a.id, false);
        if remote.activities(calls + [c]).Success? {
          VisitCounts(acts, j + 1, dryRun, remote, u + 1, calls + [c]);
        }
      }
    }
  }

  /** Walking the rest of a page from activity j without a failed call,
      outside a dry run, the loop makes one update call per private activity
      there, making it public. */
  lemma {:induction false} VisitUpdates(acts: seq<Summary>, j: nat, remote: Remote, u: nat, calls: seq<Call>)
    requires j <= |acts|
    ensures var v := Visit(acts, j, false, remote, -1, u, calls);
      v.outcome.Pass? ==> Updates(v.calls) == Updates(calls) + Touched(acts[j..])
    decreases |acts| - j
  {
    SuffixStep(acts, j);
    if j < |acts| {
      var a := acts[j];
      var rest := Touched(acts[j + 1..]);
      if !a.private {
        VisitUpdates(acts, j + 1, remote, u, calls);
        assert [] + rest == rest;
      } else {
        var c := UpdatePrivate(a.id, false);
        if remote.activities(calls + [c]).Success? {
          FiltersAppend(calls, [c]);
          FiltersOfOne(c);
          VisitUpdates(acts, j + 1, remote, u + 1, calls + [c]);
          assert Updates(calls) + [c] + rest == Updates(calls) + ([c] + rest);
        }
      }
    } else {
      assert Updates(calls) + [] == Updates(calls);
    }
  }

  /** One page of the program as written makes one listing call, for page
      k + 1, and no other. */
  lemma FetchPageLists(pages: seq<Response<seq<Summary>>>, dryRun: bool, remote: Remote, k: nat, t: Tally)
    ensures Lists(FetchPage(pages, dryRun, remote, -1, k, t).tally.calls) == Lists(t.calls) + [ListActivities(k + 1, PerPage)]
  {
    var c := ListActivities(k + 1, PerPage);
    FiltersAppend(t.calls, [c]);
    FiltersOfOne(c);
    if Answer(pages, k).Success? {
      VisitListsNothing(Answer(pages, k).value, 0, dryRun, remote, -1, t.nUpdates, t.calls + [c]);
    }
  }

  /** In a dry run, a page sends no update and fails only when its listing
      call does. */
  lemma FetchPageDry(pages: seq<Response<seq<Summary>>>, remote: Remote, k: nat, t: Tally)
    ensures var s := FetchPage(pages, true, remote, -1, k, t);
      && Updates(s.tally.calls) == Updates(t.calls)
      && (s.tally.outcome.Fail? ==> Answer(pages, k).Failure?)
  {
    var c := ListActivities(k + 1, PerPage);
    FiltersAppend(t.calls, [c]);
    FiltersOfOne(c);
    assert Updates(t.calls) + [] == Updates(t.calls);
    if Answer(pages, k).Success? {
      DryVisitCallsNothing(Answer(pages, k).value, 0, remote, t.nUpdates, t.calls + [c]);
    }
  }

  /** A page whose calls succeed counts every activity on it, and its
      private ones as updates; the loop goes on exactly when it was full. */
  lemma FetchPageCounts(pages: seq<Response<seq<Summary>>>, dryRun: bool, remote: Remote, k: nat, t: Tally)
    ensures var s := FetchPage(pages, dryRun, remote, -1, k, t);
      s.tally.outcome.Pass? ==>
        && Answer(pages, k).Success?
        && var acts := Answer(pages, k).value;
        && s.full == (|acts| >= PerPage)
        && s.tally.nActivities == t.nActivities + |acts|
        && s.tally.nUpdates == t.nUpdates + Privates(acts)
  {
    if Answer(pages, k).Success? {
      var acts := Answer(pages, k).value;
      assert acts[0..] == acts;
      VisitCounts(acts, 0, dryRun, remote, t.nUpdates, t.calls + [ListActivities(k + 1, PerPage)]);
    }
  }

  /** A live page whose calls succeed makes its private activities public,
      in order. */
  lemma FetchPageUpdates(pages: seq<Response<seq<Summary>>>, remote: Remote, k: nat, t: Tally)
    ensures var s := FetchPage(pages, false, remote, -1, k, t);
      s.tally.outcome.Pass? ==>
        && Answer(pages, k).Success?
        && Updates(s.tally.calls) == Updates(t.calls) + Touched(Answer(pages, k).value)
  {
    var c := ListActivities(k + 1, PerPage);
    FiltersAppend(t.calls, [c]);
    FiltersOfOne(c);
    assert Updates(t.calls) + [] == Updates(t.calls);
    if Answer(pages, k).Success? {
      var acts := Answer(pages, k).value;
      assert acts[0..] == acts;
      VisitUpdates(acts, 0, remote, t.nUpdates, t.calls + [c]);
    }
  }

  /** A run from page k + 1 on that no call fails counts every activity of
      the pages it fetches and every private one among them. */
  lemma {:induction false} SweepCounts(pages: seq<Response<seq<Summary>>>, max: int, dryRun: bool, remote: Remote, k: nat, t: Tally)
    ensures var r := SweepFrom(pages, max, dryRun, remote, k, t);
      var seen := Seen(pages, max, k, t.nUpdates);
      r.outcome.Pass? ==> r.nActivities == t.nActivities + |seen| && r.nUpdates == t.nUpdates + Privates(seen)
    decreases |pages| + 1 - k
  {
    if max == -1 || t.nUpdates <= max {
      var s := FetchPage(pages, dryRun, remote, -1, k, t);
      FetchPageCounts(pages, dryRun, remote, k, t);
      if s.full {
        var acts := Answer(pages, k).value;
        var rest := Seen(pages, max, k + 1, t.nUpdates + Privates(acts));
        assert Seen(pages, max, k, t.nUpdates) == acts + rest;
        SweepCounts(pages, max, dryRun, remote, k + 1, s.tally);
        PrivatesAppend(acts, rest);
      } else if s.tally.outcome.Pass? {
        assert Seen(pages, max, k, t.nUpdates) == Answer(pages, k).value;
      }
    }
  }

  /** A live run from page k + 1 on that no call fails makes exactly the
      private activities of the pages it fetches public, in order. */
  lemma {:induction false} SweepUpdates(pages: seq<Response<seq<Summary>>>, max: int, remote: Remote, k: nat, t: Tally)
    ensures var r := SweepFrom(pages, max, false, remote, k, t);
      r.outcome.Pass? ==> Updates(r.calls) == Updates(t.calls) + Touched(Seen(pages, max, k, t.nUpdates))
    decreases |pages| + 1 - k
  {
    if max == -1 || t.nUpdates <= max {
      var s := FetchPage(pages, false, remote, -1, k, t);
      FetchPageCounts(pages, false, remote, k, t);
      FetchPageUpdates(pages, remote, k, t);
      if s.full {
        var acts := Answer(pages, k).value;
        var rest := Seen(pages, max, k + 1, t.nUpdates + Privates(acts));
        assert Seen(pages, max, k, t.nUpdates) == acts + rest;
        SweepUpdates(pages, max, remote, k + 1, s.tally);
        TouchedAppend(acts, rest);
        assert Updates(t.calls) + Touched(acts) + Touched(rest) == Updates(t.calls) + (Touched(acts) + Touched(rest));
      } else if s.tally.outcome.Pass? {
        assert Seen(pages, max, k, t.nUpdates) == Answer(pages, k).value;
      }
    } else {
      assert Updates(t.calls) + [] == Updates(t.calls);
    }
  }

  /** A dry run sends no update call, and fails only when a listing call does. */
  lemma {:induction false} DryRunSendsNoUpdate(pages: seq<Response<seq<Summary>>>, max: int, remote: Remote, k: nat, t: Tally)
    requires t.outcome == Pass
    ensures var r := SweepFrom(pages, max, true, remote, k, t);
      && Updates(r.calls) == Updates(t.calls)
      && (r.outcome.Fail? ==> exists m: nat :: k <= m && Answer(pages, m).Failure? && r.outcome == Fail(RemoteFailed(Answer(pages, m).message)))
    decreases |pages| + 1 - k
  {
    if max == -1 || t.nUpdates <= max {
      var s := FetchPage(pages, true, remote, -1, k, t);
      FetchPageDry(pages, remote, k, t);
      if s.full {
        DryRunSendsNoUpdate(pages, max, remote, k + 1, s.tally);
      } else if s.tally.outcome.Fail? {
        assert k <= k && Answer(pages, k).Failure?;
      }
    }
  }

  /** One more page in front of a run of listing calls. */
  lemma PageCallsStep(before: seq<Call>, k: nat, m: nat)
    ensures before + [ListActivities(k + 1, PerPage)] + PageCalls(k + 1, m) == before + PageCalls(k, m + 1)
  {
    assert [ListActivities(k + 1, PerPage)] + PageCalls(k + 1, m) == PageCalls(k, m + 1);
  }

  /** The program asks for pages 1, 2, ... in order, 30 activities each. */
  lemma {:induction false} PagesInOrderFrom(pages: seq<Response<seq<Summary>>>, max: int, dryRun: bool, remote: Remote, k: nat, t: Tally)
    ensures var r := SweepFrom(pages, max, dryRun, remote, k, t);
      exists m: nat :: Lists(r.calls) == Lists(t.calls) + PageCalls(k, m)
    decreases |pages| + 1 - k
  {
    var r := SweepFrom(pages, max, dryRun, remote, k, t);
    if max == -1 || t.nUpdates <= max {
      var s := FetchPage(pages, dryRun, remote, -1, k, t);
      FetchPageLists(pages, dryRun, remote, k, t);
      if s.full {
        PagesInOrderFrom(pages, max, dryRun, remote, k + 1, s.tally);
        var m: nat :| Lists(r.calls) == Lists(s.tally.calls) + PageCalls(k + 1, m);
        PageCallsStep(Lists(t.calls), k, m);
      } else {
        assert [ListActivities(k + 1, PerPage)] == PageCalls(k, 1);
      }
    } else {
      assert Lists(t.calls) + PageCalls(k, 0) == Lists(t.calls);
    }
  }

  lemma PagesInOrder(pages: seq<Response<seq<Summary>>>, max: int, dryRun: bool, remote: Remote)
    ensures var lists := Lists(Swept(pages, max, dryRun, remote).calls);
      lists == PageCalls(0, |lists|)
  {
    PagesInOrderFrom(pages, max, dryRun, remote, 0, Tally(Pass, 0, 0, []));
    assert Lists([]) == [];
  }

  /** A run whose calls all succeed counts every activity of the pages it
      fetched, counts the private ones among them as updates, and, outside a
      dry run, sends exactly one update per private activity, making it
      public, in page order. A dry run sends no update at all, and fails
      only when a listing call fails. */
  lemma SweepUpdatesThePrivateOnes(pages: seq<Response<seq<Summary>>>, max: int, dryRun: bool, remote: Remote)
    ensures var r := Swept(pages, max, dryRun, remote);
      var seen := Seen(pages, max, 0, 0);
      && (dryRun ==> Updates(r.calls) == [])
      && (dryRun && r.outcome.Fail? ==> exists m: nat :: Answer(pages, m).Failure? && r.outcome == Fail(RemoteFailed(Answer(pages, m).message)))
      && (r.outcome.Pass? ==>
            && r.nActivities == |seen|
            && r.nUpdates == Privates(seen)
            && Updates(r.calls) == (if dryRun then [] else Touched(seen)))
  {
    var t := Tally(Pass, 0, 0, []);
    SweepCounts(pages, max, dryRun, remote, 0, t);
    if dryRun {
      DryRunSendsNoUpdate(pages, max, remote, 0, t);
    } else {
      SweepUpdates(pages, max, remote, 0, t);
    }
    assert Updates([]) == [];
  }

  /** A limit below -1 is never met: nothing is fetched and nothing changes. */
  lemma NegativeMaxFetchesNothing(pages: seq<Response<seq<Summary>>>, max: int, dryRun: bool, remote: Remote)
    requires max < -1
    ensures Swept(pages, max, dryRun, remote) == Tally(Pass, 0, 0, [])
  {
  }

  /** The first failed call ends the run: it is the last call made, and the
      reply to it was a failure. */
  lemma {:induction false} FailureIsTheLastCall(pages: seq<Response<seq<Summary>>>, max: int, dryRun: bool, remote: Remote, k: nat, t: Tally)
    requires t.outcome == Pass
    ensures var r := SweepFrom(pages, max, dryRun, remote, k, t);
      r.outcome.Fail? ==>
        && |r.calls| > |t.calls|
        && var last := r.calls[|r.calls| - 1];
        && (last.UpdatePrivate? ==> !last.private && remote.activities(r.calls).Failure? && r.outcome == Fail(RemoteFailed(remote.activities(r.calls).message)))
        && (last.ListActivities? ==> last.page >= 1 && Answer(pages, last.page - 1).Failure? && r.outcome == Fail(RemoteFailed(Answer(pages, last.page - 1).message)))
        && (last.UpdatePrivate? || last.ListActivities?)
    decreases |pages| + 1 - k
  {
    if max == -1 || t.nUpdates <= max {
      var s := FetchPage(pages, dryRun, remote, -1, k, t);
      if s.full {
        FailureIsTheLastCall(pages, max, dryRun, remote, k + 1, s.tally);
      } else if Answer(pages, k).Success? {
        VisitFailureIsTheLastCall(Answer(pages, k).value, 0, dryRun, remote, t.nUpdates, t.calls + [ListActivities(k + 1, PerPage)]);
      }
    }
  }

  lemma {:induction false} VisitFailureIsTheLastCall(acts: seq<Summary>, j: nat, dryRun: bool, remote: Remote, u: nat, calls: seq<Call>)
    requires j <= |acts|
    ensures var v := Visit(acts, j, dryRun, remote, -1, u, calls);
      v.outcome.Fail? ==>
        && |v.calls| > |calls|
        && v.calls[|v.calls| - 1].UpdatePrivate? && !v.calls[|v.calls| - 1].private
        && remote.activities(v.calls).Failure?
        && v.outcome == Fail(RemoteFailed(remote.activities(v.calls).message))
    decreases |acts| - j
  {
    if j < |acts| {
      var a := acts[j];
      if !a.private {
        VisitFailureIsTheLastCall(acts, j + 1, dryRun, remote, u, calls);
      } else if dryRun {
        VisitFailureIsTheLastCall(acts, j + 1, dryRun, remote, u + 1, calls);
      } else {
        var calls' := calls + [UpdatePrivate(a.id, false)];
        if remote.activities(calls').Success? {
          VisitFailureIsTheLastCall(acts, j + 1, dryRun, remote, u + 1, calls');
        }
      }
    }
  }

  // ---------------------------------------------------------------------
  // The limit. It is tested only before each page is fetched, and with
  // `<=`, so a run goes past it.

  /** A limit of 0 with two private activities on the first page: both are
      made public. */
  lemma MaxOvershoots()
    ensures var remote := Remote((h: seq<Call>) => Success(0), (h: seq<Call>) => Failure(""));
      var r := Swept([Success([Summary(1, true), Summary(2, true)])], 0, false, remote);
      r == Tally(Pass, 2, 2, [ListActivities(1, PerPage), UpdatePrivate(1, false), UpdatePrivate(2, false)])
  {
  }

  /** The page loop with the limit kept: a run stops before counting update
      number max + 1, and fetches no page once the limit is reached. */
  function CappedFrom(pages: seq<Response<seq<Summary>>>, max: int, dryRun: bool, remote: Remote, k: nat, t: Tally): Tally
    decreases |pages| + 1 - k
  {
    if !(max == -1 || t.nUpdates < max) then t
    else
      var s := FetchPage(pages, dryRun, remote, max, k, t);
      if s.full then CappedFrom(pages, max, dryRun, remote, k + 1, s.tally) else s.tally
  }

  /** The inner loop with a cap never counts past it. */
  lemma {:induction false} CappedVisitStaysWithin(acts: seq<Summary>, j: nat, dryRun: bool, remote: Remote, cap: nat, u: nat, calls: seq<Call>)
    requires j <= |acts| && u <= cap
    ensures Visit(acts, j, dryRun, remote, cap, u, calls).nUpdates <= cap
    decreases |acts| - j
  {
    if j < |acts| {
      var a := acts[j];
      if !a.private {
        CappedVisitStaysWithin(acts, j + 1, dryRun, remote, cap, u, calls);
      } else if u < cap {
        if dryRun {
          CappedVisitStaysWithin(acts, j + 1, dryRun, remote, cap, u + 1, calls);
        } else {
          var calls' := calls + [UpdatePrivate(a.id, false)];
          if remote.activities(calls').Success? {
            CappedVisitStaysWithin(acts, j + 1, dryRun, remote, cap, u + 1, calls');
          }
        }
      }
    }
  }

  /** With the limit kept, a run with a limit of 0 or more makes at most
      `max` updates. */
  lemma {:induction false} CappedStaysWithinMax(pages: seq<Response<seq<Summary>>>, max: int, dryRun: bool, remote: Remote, k: nat, t: Tally)
    requires max >= 0 && t.nUpdates <= max
    ensures CappedFrom(pages, max, dryRun, remote, k, t).nUpdates <= max
    decreases |pages| + 1 - k
  {
    if t.nUpdates < max {
      var s := FetchPage(pages, dryRun, remote, max, k, t);
      if Answer(pages, k).Success? {
        CappedVisitStaysWithin(Answer(pages, k).value, 0, dryRun, remote, max, t.nUpdates, t.calls + [ListActivities(k + 1, PerPage)]);
      }
      if s.full {
        CappedStaysWithinMax(pages, max, dryRun, remote, k + 1, s.tally);
      }
    }
  }

  /** With the limit kept, a limit of 1 and two private activities on the
      first page make one of them public. */
  lemma CappedKeepsTheExample()
    ensures var remote := Remote((h: seq<Call>) => Success(0), (h: seq<Call>) => Failure(""));
      var r := CappedFrom([Success([Summary(1, true), Summary(2, true)])], 1, false, remote, 0, Tally(Pass, 0, 0, []));
      r == Tally(Pass, 2, 1, [ListActivities(1, PerPage), UpdatePrivate(1, false)])
  {
  }
}
