/** cmd/download.go: the download command. It lists the athlete's activities
    page by page, newest first, and writes one CSV row per activity after a
    header row, stopping after a short page, after `max` activities when a
    limit is given, or at the first failed listing call. */
module Download {
  import opened Base
  import opened Api

  /** Activities asked for per listing call. */
  const PageSize: nat := 25

  /** An activity as the listing endpoint returns it. */
  datatype SummaryActivity = SummaryActivity(
    id: int,
    start: Time,
    activityType: string,
    name: string,
    distance: real,
    elapsedTime: int,
    gearId: string,
    commute: bool,
    trainer: bool,
    private: bool)

  /** The column names of the output file. */
  const Header: seq<string> :=
    ["ID", "StartDate", "Type", "Name", "Distance", "Duration", "GearID", "Commute?", "Trainer?", "Private?"]

  /** One output row: the ID and duration in decimal, the start day, the
      distance with two decimals, and the three flags as true/false. */
  function Row(a: SummaryActivity, fmt: Formats): (row: seq<string>)
    ensures |row| == |Header|
    ensures row[0] == Decimal(a.id) && row[5] == Decimal(a.elapsedTime)
    ensures row[1] == fmt.day(a.start) && row[4] == fmt.twoDecimals(a.distance)
    ensures row[2] == a.activityType && row[3] == a.name && row[6] == a.gearId
    ensures row[7] == Bool(a.commute) && row[8] == Bool(a.trainer) && row[9] == Bool(a.private)
  {
    [Decimal(a.id), fmt.day(a.start), a.activityType, a.name, fmt.twoDecimals(a.distance),
     Decimal(a.elapsedTime), a.gearId, Bool(a.commute), Bool(a.trainer), Bool(a.private)]
  }

  /** The ID and flag columns read back as the activity's own values. */
  lemma RowReadsBack(a: SummaryActivity, fmt: Formats)
    ensures var row := Row(a, fmt);
      && |row[0]| > 0
      && (forall k :: (if row[0][0] == '-' then 1 else 0) <= k < |row[0]| ==> IsDigit(row[0][k]))
      && ParseDecimal(row[0]) == a.id
      && (row[7] == "true" <==> a.commute) && (row[8] == "true" <==> a.trainer) && (row[9] == "true" <==> a.private)
  {
    DecimalRoundTrip(a.id);
  }

  /** Different activities get different ID columns. */
  lemma RowsTellIDsApart(a: SummaryActivity, b: SummaryActivity, fmt: Formats)
    requires Row(a, fmt)[0] == Row(b, fmt)[0]
    ensures a.id == b.id
  {
    DecimalInjective(a.id, b.id);
  }

  /** The output rows for a sequence of activities, in order. */
  function Rows(acts: seq<SummaryActivity>, fmt: Formats): (rows: seq<seq<string>>)
    ensures |rows| == |acts|
  {
    seq(|acts|, k requires 0 <= k < |acts| => Row(acts[k], fmt))
  }

  /** The k-th row written is the k-th activity's. */
  lemma RowsAreTheActivities(acts: seq<SummaryActivity>, fmt: Formats, k: nat)
    requires k < |acts|
    ensures Rows(acts, fmt)[k] == Row(acts[k], fmt)
  {
  }

  lemma ExtendRows(acts: seq<SummaryActivity>, j: nat, fmt: Formats)
    requires j < |acts|
    ensures Rows(acts[..j + 1], fmt) == Rows(acts[..j], fmt) + [Row(acts[j], fmt)]
  {
  }

  lemma RowsAppend(a: seq<SummaryActivity>, b: seq<SummaryActivity>, fmt: Formats)
    ensures Rows(a + b, fmt) == Rows(a, fmt) + Rows(b, fmt)
  {
  }

  /** The listing request for a page (counted from 1): a before/after filter
      is sent only when its time is set, as 32-bit Unix seconds. */
  function ListRequest(page: int, before: Time, after: Time): (o: ListOpts)
    ensures o.page == page && o.perPage == PageSize
    ensures o.before.Some? <==> !before.IsZero()
    ensures o.after.Some? <==> !after.IsZero()
    ensures o.before.Some? ==> -0x8000_0000 <= o.before.value < 0x8000_0000 && (o.before.value - before.Unix()) % 0x1_0000_0000 == 0
    ensures o.after.Some? ==> -0x8000_0000 <= o.after.value < 0x8000_0000 && (o.after.value - after.Unix()) % 0x1_0000_0000 == 0
    ensures !before.IsZero() && -0x8000_0000 <= before.Unix() < 0x8000_0000 ==> o.before == Some(before.Unix())
    ensures !after.IsZero() && -0x8000_0000 <= after.Unix() < 0x8000_0000 ==> o.after == Some(after.Unix())
  {
    ListOpts(page, PageSize,
      if !before.IsZero() then Some(Int32(before.Unix())) else None,
      if !after.IsZero() then Some(Int32(after.Unix())) else None)
  }

  /** The answer to the listing call for page k + 1: `pages` holds the
      service's answers, and every page past them is empty. */
  function Answer(pages: seq<Response<seq<SummaryActivity>>>, k: nat): Response<seq<SummaryActivity>> {
    if k < |pages| then pages[k] else Success([])
  }

  /** `max` limits the download when it is positive: the counter is tested
      only after it is incremented, so 0 (and every negative value) never
      stops the loop. */
  predicate Limited(max: int) { max > 0 }

  lemma Associative<T>(a: seq<T>, b: seq<T>, c: seq<T>)
    ensures a + b + c == a + (b + c)
  {
  }

  /** The result of the page loop: how it ended, the activities it wrote a
      row for, in order, and the listing requests it made. */
  datatype Listing = Listing(outcome: Outcome, taken: seq<SummaryActivity>, requests: seq<ListOpts>)

  /** The page loop from page k + 1 on, after n activities were written. */
  function PageLoop(pages: seq<Response<seq<SummaryActivity>>>, max: int, before: Time, after: Time, k: nat, n: nat): (r: Listing)
    requires Limited(max) ==> n < max
    ensures |r.requests| >= 1
    decreases |pages| + 1 - k
  {
    var req := ListRequest(k + 1, before, after);
    match Answer(pages, k)
    case Failure(_) => Listing(Fail(ListFailed(k + 1, PageSize)), [], [req])
    case Success(acts) =>
      if Limited(max) && |acts| >= max - n then Listing(Pass, acts[..max - n], [req])
      else if |acts| < PageSize then Listing(Pass, acts, [req])
      else
        var rest := PageLoop(pages, max, before, after, k + 1, n + |acts|);
        Listing(rest.outcome, acts + rest.taken, [req] + rest.requests)
  }

  /** What the download command does from the first page on. */
  function Listed(pages: seq<Response<seq<SummaryActivity>>>, max: int, before: Time, after: Time): Listing {
    PageLoop(pages, max, before, after, 0, 0)
  }

  /** The whole loop's result is what was taken and asked so far, followed
      by what the loop does from here on. */
  predicate Resumes(goal: Listing, taken: seq<SummaryActivity>, requests: seq<ListOpts>, rest: Listing) {
    && goal.outcome == rest.outcome
    && goal.taken == taken + rest.taken
    && goal.requests == requests + rest.requests
  }

  /** The row loop of download over one page: a row per activity, each
      counted, stopping as soon as the count reaches a positive `max`, which
      ends the page loop too. */
  method WriteRows(acts: seq<SummaryActivity>, fmt: Formats, max: int, n0: nat)
    returns (rows: seq<seq<string>>, n: nat, reachedMax: bool)
    requires Limited(max) ==> n0 < max
    ensures reachedMax <==> Limited(max) && |acts| >= max - n0
    ensures var cut := if reachedMax then max - n0 else |acts|;
      rows == Rows(acts[..cut], fmt) && n == n0 + cut
  {
    rows, n := [], n0;
    var j := 0;
    while j < |acts|
      invariant 0 <= j <= |acts| && n == n0 + j
      invariant Limited(max) ==> n < max
      invariant rows == Rows(acts[..j], fmt)
    {
      ExtendRows(acts, j, fmt);
      rows := rows + [Row(acts[j], fmt)];
      n := n + 1;
      if max != -1 && n == max {
        return rows, n, true;
      }
      j := j + 1;
    }
    assert acts[..j] == acts;
    reachedMax := false;
  }

  /** A failed listing call ends the loop with an error naming the page. */
  lemma ResumeFailed(goal: Listing, taken: seq<SummaryActivity>, requests: seq<ListOpts>, pages: seq<Response<seq<SummaryActivity>>>, max: int, before: Time, after: Time, k: nat, n: nat)
    requires Limited(max) ==> n < max
    requires Resumes(goal, taken, requests, PageLoop(pages, max, before, after, k, n))
    requires Answer(pages, k).Failure?
    ensures goal == Listing(Fail(ListFailed(k + 1, PageSize)), taken, requests + [ListRequest(k + 1, before, after)])
  {
    assert taken + [] == taken;
  }

  /** A page that reaches the limit, or a short page, ends the loop. */
  lemma ResumeStopped(goal: Listing, taken: seq<SummaryActivity>, requests: seq<ListOpts>, pages: seq<Response<seq<SummaryActivity>>>, max: int, before: Time, after: Time, k: nat, n: nat)
    requires Limited(max) ==> n < max
    requires Resumes(goal, taken, requests, PageLoop(pages, max, before, after, k, n))
    requires Answer(pages, k).Success?
    requires var acts := Answer(pages, k).value;
      (Limited(max) && |acts| >= max - n) || |acts| < PageSize
    ensures var acts := Answer(pages, k).value;
      var cut := if Limited(max) && |acts| >= max - n then max - n else |acts|;
      goal == Listing(Pass, taken + acts[..cut], requests + [ListRequest(k + 1, before, after)])
  {
    var acts := Answer(pages, k).value;
    assert acts[..|acts|] == acts;
  }

  /** A full page below the limit moves the loop on to the next page. */
  lemma ResumeNext(goal: Listing, taken: seq<SummaryActivity>, requests: seq<ListOpts>, pages: seq<Response<seq<SummaryActivity>>>, max: int, before: Time, after: Time, k: nat, n: nat)
    requires Limited(max) ==> n < max
    requires Resumes(goal, taken, requests, PageLoop(pages, max, before, after, k, n))
    requires Answer(pages, k).Success?
    requires var acts := Answer(pages, k).value;
      !(Limited(max) && |acts| >= max - n) && |acts| >= PageSize
    ensures var acts := Answer(pages, k).value;
      Resumes(goal, taken + acts, requests + [ListRequest(k + 1, before, after)], PageLoop(pages, max, before, after, k + 1, n + |acts|))
  {
    var acts := Answer(pages, k).value;
    var next := PageLoop(pages, max, before, after, k + 1, n + |acts|);
    assert taken + acts + next.taken == taken + (acts + next.taken);
    assert requests + [ListRequest(k + 1, before, after)] + next.requests == requests + ([ListRequest(k + 1, before, after)] + next.requests);
  }

  /** download: the header, then the page loop; `out` is what the CSV
      writer receives and `n` the number of activities written. */
  method DownloadActivities(pages: seq<Response<seq<SummaryActivity>>>, fmt: Formats, max: int, before: Time, after: Time)
    returns (outcome: Outcome, out: seq<seq<string>>, requests: seq<ListOpts>, n: nat)
    ensures var r := Listed(pages, max, before, after);
      outcome == r.outcome && out == [Header] + Rows(r.taken, fmt) && requests == r.requests && n == |r.taken|
  {
    ghost var goal := Listed(pages, max, before, after);
    ghost var taken: seq<SummaryActivity> := [];
    out := [Header];
    requests := [];
    n := 0;
    var page := 1;
    while true
      invariant page >= 1 && out == [Header] + Rows(taken, fmt) && n == |taken|
      invariant Limited(max) ==> n < max
      invariant Resumes(goal, taken, requests, PageLoop(pages, max, before, after, page - 1, n))
      decreases |pages| + 1 - page
    {
      ghost var taken0, requests0, n0 := taken, requests, n;
      var req := ListRequest(page, before, after);
      var answer := Answer(pages, page - 1);
      if answer.Failure? {
        ResumeFailed(goal, taken, requests, pages, max, before, after, page - 1, n);
        return Fail(ListFailed(page, PageSize)), out, requests + [req], n;
      }
      requests := requests + [req];
      var acts := answer.value;
      ghost var cut := if Limited(max) && |acts| >= max - n then max - n else |acts|;
      var rows, reachedMax;
      rows, n, reachedMax := WriteRows(acts, fmt, max, n);
      assert rows == Rows(acts[..cut], fmt);
      RowsAppend(taken, acts[..cut], fmt);
      Associative([Header], Rows(taken, fmt), rows);
      out := out + rows;
      taken := taken + acts[..cut];
      if reachedMax || |acts| < PageSize {
        ResumeStopped(goal, taken0, requests0, pages, max, before, after, page - 1, n0);
        break;
      }
      assert acts[..cut] == acts;
      ResumeNext(goal, taken0, requests0, pages, max, before, after, page - 1, n0);
      page := page + 1;
    }
    outcome := Pass;
  }

  // ---------------------------------------------------------------------
  // Properties of the download command.

  /** Every activity the listing offers from page k + 1 on, ignoring the
      limit: full pages, up to and including the first short page, or up to
      the first failed call. */
  function Offered(pages: seq<Response<seq<SummaryActivity>>>, k: nat): seq<SummaryActivity>
    decreases |pages| + 1 - k
  {
    match Answer(pages, k)
    case Failure(_) => []
    case Success(acts) => if |acts| < PageSize then acts else acts + Offered(pages, k + 1)
  }

  /** Whether walking the pages from k + 1 on runs into a failed call before
      a short page. */
  predicate FailsAfter(pages: seq<Response<seq<SummaryActivity>>>, k: nat)
    decreases |pages| + 1 - k
  {
    match Answer(pages, k)
    case Failure(_) => true
    case Success(acts) => |acts| >= PageSize && FailsAfter(pages, k + 1)
  }

  /** How many of the offered activities the loop takes from page k + 1 on. */
  function Cap(max: int, n: nat, offered: nat): nat
    requires Limited(max) ==> n <= max
  {
    if Limited(max) && max - n < offered then max - n else offered
  }

  /** The page loop takes the first Cap offered activities, in order, and
      fails exactly when it runs into a failed call before the limit is
      reached; the failure names the page of the last request. */
  lemma {:induction false} PageLoopTakesOffered(pages: seq<Response<seq<SummaryActivity>>>, max: int, before: Time, after: Time, k: nat, n: nat)
    requires Limited(max) ==> n < max
    ensures var r := PageLoop(pages, max, before, after, k, n);
      var offered := Offered(pages, k);
      && r.taken == offered[..Cap(max, n, |offered|)]
      && (r.outcome.Pass? <==> !FailsAfter(pages, k) || (Limited(max) && max - n <= |offered|))
      && (r.outcome.Fail? ==> r.outcome == Fail(ListFailed(k + |r.requests|, PageSize)))
    decreases |pages| + 1 - k
  {
    var offered := Offered(pages, k);
    match Answer(pages, k)
    case Failure(_) =>
    case Success(acts) =>
      if Limited(max) && |acts| >= max - n {
        assert offered[..max - n] == acts[..max - n];
      } else if |acts| < PageSize {
        assert offered[..|acts|] == acts;
      } else {
        var n' := n + |acts|;
        PageLoopTakesOffered(pages, max, before, after, k + 1, n');
        var rest := Offered(pages, k + 1);
        var cap' := Cap(max, n', |rest|);
        assert offered == acts + rest;
        assert offered[..|acts| + cap'] == acts + rest[..cap'];
      }
  }

  /** The requests for `count` pages in a row, from page k + 1 on. */
  function PageRequests(before: Time, after: Time, k: nat, count: nat): (reqs: seq<ListOpts>)
    ensures |reqs| == count
  {
    seq(count, m requires 0 <= m < count => ListRequest(k + m + 1, before, after))
  }

  /** The loop asks for pages k + 1, k + 2, ... in order, with the same page
      size and filters each time. */
  lemma {:induction false} PagesInOrder(pages: seq<Response<seq<SummaryActivity>>>, max: int, before: Time, after: Time, k: nat, n: nat)
    requires Limited(max) ==> n < max
    ensures var reqs := PageLoop(pages, max, before, after, k, n).requests;
      reqs == PageRequests(before, after, k, |reqs|)
    decreases |pages| + 1 - k
  {
    match Answer(pages, k)
    case Failure(_) =>
    case Success(acts) =>
      if !(Limited(max) && |acts| >= max - n) && |acts| >= PageSize {
        PagesInOrder(pages, max, before, after, k + 1, n + |acts|);
        var rest := PageLoop(pages, max, before, after, k + 1, n + |acts|).requests;
        var c := |rest|;
        assert [ListRequest(k + 1, before, after)] + PageRequests(before, after, k + 1, c) == PageRequests(before, after, k, c + 1);
      }
  }

  /** Every page but the last one requested held at least a full page: a
      short page ends the loop. */
  lemma {:induction false} OnlyTheLastPageIsShort(pages: seq<Response<seq<SummaryActivity>>>, max: int, before: Time, after: Time, k: nat, n: nat)
    requires Limited(max) ==> n < max
    ensures var r := PageLoop(pages, max, before, after, k, n);
      forall m :: k <= m < k + |r.requests| - 1 ==> Answer(pages, m).Success? && |Answer(pages, m).value| >= PageSize
    decreases |pages| + 1 - k
  {
    match Answer(pages, k)
    case Failure(_) =>
    case Success(acts) =>
      if !(Limited(max) && |acts| >= max - n) && |acts| >= PageSize {
        OnlyTheLastPageIsShort(pages, max, before, after, k + 1, n + |acts|);
      }
  }

  /** What the command does, from the first page: the first activities the
      listing offers, as many as the limit allows, in order. The download
      succeeds unless a listing call failed before the limit was reached;
      without a limit every offered activity is written. */
  lemma DownloadWritesTheListing(pages: seq<Response<seq<SummaryActivity>>>, max: int, before: Time, after: Time)
    ensures var r := Listed(pages, max, before, after);
      var offered := Offered(pages, 0);
      && r.taken == offered[..if Limited(max) && max < |offered| then max else |offered|]
      && (Limited(max) ==> |r.taken| <= max)
      && (!Limited(max) ==> r.taken == offered)
      && (r.outcome.Pass? <==> !FailsAfter(pages, 0) || (Limited(max) && max <= |offered|))
      && (r.outcome.Fail? ==> r.outcome == Fail(ListFailed(|r.requests|, PageSize)))
  {
    PageLoopTakesOffered(pages, max, before, after, 0, 0);
    var offered := Offered(pages, 0);
    assert offered[..|offered|] == offered;
  }

  /** When no listing call fails, neither does the download. */
  lemma NoFailedCallNoFailure(pages: seq<Response<seq<SummaryActivity>>>, max: int, before: Time, after: Time)
    requires forall m :: 0 <= m < |pages| ==> pages[m].Success?
    ensures Listed(pages, max, before, after).outcome == Pass
  {
    PageLoopTakesOffered(pages, max, before, after, 0, 0);
    NoFailedCallNeverFails(pages, 0);
  }

  lemma {:induction false} NoFailedCallNeverFails(pages: seq<Response<seq<SummaryActivity>>>, k: nat)
    requires forall m :: 0 <= m < |pages| ==> pages[m].Success?
    ensures !FailsAfter(pages, k)
    decreases |pages| + 1 - k
  {
    if k < |pages| {
      NoFailedCallNeverFails(pages, k + 1);
    }
  }
}
