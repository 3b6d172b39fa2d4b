/**
 `fetchUpdatedPullRequests` in `app/src/lib/api.ts`: reading a list sorted by update time, newest first,
 only as far as needed, with growing pages.
 */
module UpdatedPullRequests {
  import opened Strings
  import opened Pagination

  /** `updatedAt` is a time in milliseconds. */
  datatype PullRequest = PullRequest(number: int, updatedAt: int)

  const PAGE_SIZE := 10
  const DEFAULT_MAX_RESULTS := 320

  /** The `continue` callback. */
  function Proceed(since: int, maxResults: int): seq<PullRequest> -> Verdict {
    (results: seq<PullRequest>) =>
      if |results| >= maxResults then Throw
      else if |results| > 0 && results[|results| - 1].updatedAt > since then Go
      else Stop
  }

  function Options(since: int, maxResults: int): FetchAllOptions<PullRequest> {
    FetchAllOptions(PAGE_SIZE, true, false, Proceed(since, maxResults))
  }

  /** Those of the first `n` pull requests that were updated at `since` or later. */
  function OnOrAfter(prs: seq<PullRequest>, n: nat, since: int): seq<PullRequest>
    requires n <= |prs|
  {
    if n == 0 then []
    else if prs[n - 1].updatedAt >= since then OnOrAfter(prs, n - 1, since) + [prs[n - 1]]
    else OnOrAfter(prs, n - 1, since)
  }

  function Updated(items: seq<PullRequest>, since: int, maxResults: int, answers: Answers)
    : Result<seq<PullRequest>, FetchError>
  {
    match Fetched(items, Options(since, maxResults), answers, 0)
    case Err(e) => Err(e)
    case Ok(prs) => Ok(OnOrAfter(prs, |prs|, since))
  }

  method FetchUpdatedPullRequests(items: seq<PullRequest>, since: int, maxResults: int := DEFAULT_MAX_RESULTS,
                                  answers: Answers)
    returns (r: Result<seq<PullRequest>, FetchError>)
    ensures r == Updated(items, since, maxResults, answers)
  {
    var prs := FetchAll(items, Options(since, maxResults), answers);
    if prs.Err? {
      return Err(prs.error);
    }
    var filtered: seq<PullRequest> := [];
    for n := 0 to |prs.value|
      invariant filtered == OnOrAfter(prs.value, n, since)
    {
      if prs.value[n].updatedAt >= since {
        filtered := filtered + [prs.value[n]];
      }
    }
    r := Ok(filtered);
  }

  // ---------- How far it reads ----------

  ghost predicate NewestFirst(items: seq<PullRequest>) {
    forall i, j :: 0 <= i <= j < |items| ==> items[i].updatedAt >= items[j].updatedAt
  }

  /**
   How many items are read, from the `r`-th request on: up to the end of the first page that is the
   last or whose last item was not updated after `since`.
   */
  function Reached(items: seq<PullRequest>, since: int, r: nat): nat
    decreases var left := |items| - Start(Request(PAGE_SIZE, true, r)); if left < 0 then 0 else left
  {
    RequestsAreSeamless(PAGE_SIZE, true, r);
    StartBeforeEnd(Request(PAGE_SIZE, true, r));
    var end := End(Request(PAGE_SIZE, true, r));
    if end >= |items| then |items|
    else if items[end - 1].updatedAt > since then Reached(items, since, r + 1)
    else end
  }

  /** What the run retrieves, if it returns, is what it reaches; behind that nothing is newer than `since`. */
  ghost predicate RetrievesReached(items: seq<PullRequest>, since: int, maxResults: int, answers: Answers, r: nat) {
    var f, n := Fetched(items, Options(since, maxResults), answers, r), Reached(items, since, r);
    f.Ok? ==>
      && n <= |items| && f.value == items[..n]
      && (n < |items| ==> n > 0 && items[n - 1].updatedAt <= since)
  }

  lemma {:induction false} RetrievesWhatItReaches(items: seq<PullRequest>, since: int, maxResults: int,
                                                  answers: Answers, r: nat)
    ensures RetrievesReached(items, since, maxResults, answers, r)
    decreases var left := |items| - Start(Request(PAGE_SIZE, true, r)); if left < 0 then 0 else left
  {
    var end := End(Request(PAGE_SIZE, true, r));
    RequestsAreSeamless(PAGE_SIZE, true, r);
    StartBeforeEnd(Request(PAGE_SIZE, true, r));
    if end < |items| && items[end - 1].updatedAt > since {
      RetrievesWhatItReaches(items, since, maxResults, answers, r + 1);
    }
    ReachesStep(items, since, maxResults, answers, r, end);
  }

  lemma ReachesStep(items: seq<PullRequest>, since: int, maxResults: int, answers: Answers, r: nat, end: int)
    requires end == End(Request(PAGE_SIZE, true, r)) && end >= 1
    requires end < |items| && items[end - 1].updatedAt > since ==>
      RetrievesReached(items, since, maxResults, answers, r + 1)
    ensures RetrievesReached(items, since, maxResults, answers, r)
  {
    if end >= |items| {
      assert items[..|items|] == items;
    } else {
      assert items[..end][end - 1] == items[end - 1];
    }
  }

  /** The index of the first item that was not updated at `bound` or later. */
  function FirstBefore(items: seq<PullRequest>, bound: int, k: nat): (n: nat)
    requires k <= |items|
    ensures k <= n <= |items|
    decreases |items| - k
  {
    if k == |items| || items[k].updatedAt < bound then k else FirstBefore(items, bound, k + 1)
  }

  lemma {:induction false} FirstBeforeIs(items: seq<PullRequest>, bound: int, k: nat)
    requires k <= |items|
    ensures var n := FirstBefore(items, bound, k);
      && (forall i :: k <= i < n ==> items[i].updatedAt >= bound)
      && (n < |items| ==> items[n].updatedAt < bound)
    decreases |items| - k
  {
    if k < |items| && items[k].updatedAt >= bound {
      FirstBeforeIs(items, bound, k + 1);
    }
  }

  lemma {:induction false} FilterOfSorted(items: seq<PullRequest>, n: nat, since: int, b: nat)
    requires n <= |items| && b <= |items|
    requires forall i :: 0 <= i < b ==> items[i].updatedAt >= since
    requires forall i :: b <= i < |items| ==> items[i].updatedAt < since
    ensures OnOrAfter(items, n, since) == items[..Min(n, b)]
  {
    if n > 0 {
      FilterOfSorted(items, n - 1, since, b);
      if n <= b {
        assert items[..n] == items[..n - 1] + [items[n - 1]];
      }
    }
  }

  lemma {:induction false} FilterOfPrefix(items: seq<PullRequest>, m: nat, n: nat, since: int)
    requires n <= m <= |items|
    ensures OnOrAfter(items[..m], n, since) == OnOrAfter(items, n, since)
  {
    if n > 0 {
      FilterOfPrefix(items, m, n - 1, since);
    }
  }

  /** What is returned: a front part of the list, cut where reading stopped or where the filter cuts. */
  lemma UpdatedIs(items: seq<PullRequest>, since: int, maxResults: int, answers: Answers)
    requires NewestFirst(items) && Updated(items, since, maxResults, answers).Ok?
    ensures var n := Min(Reached(items, since, 0), FirstBefore(items, since, 0));
      && 0 <= n <= |items| && Updated(items, since, maxResults, answers).value == items[..n]
      && FirstBefore(items, since + 1, 0) <= n
  {
    var m, b := Reached(items, since, 0), FirstBefore(items, since, 0);
    RetrievesWhatItReaches(items, since, maxResults, answers, 0);
    FirstBeforeIs(items, since, 0);
    FirstBeforeIs(items, since + 1, 0);
    FilterOfPrefix(items, m, m, since);
    FilterOfSorted(items, m, since, b);
  }

  /**
   On a list sorted by update time, newest first, a run that returns gives every pull request updated
   after `since` and none updated before it, in order and without repetition.
   */
  lemma UpdatedAfterSinceAreReturned(items: seq<PullRequest>, since: int, maxResults: int, answers: Answers)
    requires NewestFirst(items) && Updated(items, since, maxResults, answers).Ok?
    ensures var prs := Updated(items, since, maxResults, answers).value;
      && prs <= items
      && (forall i :: 0 <= i < |items| && items[i].updatedAt > since ==> i < |prs|)
      && (forall i :: 0 <= i < |prs| ==> prs[i].updatedAt >= since)
  {
    UpdatedIs(items, since, maxResults, answers);
    FirstBeforeIs(items, since, 0);
    FirstBeforeIs(items, since + 1, 0);
  }

  /** It returns, as documented, every pull request updated on or after `since`. */
  ghost predicate ReturnsAsDocumented(items: seq<PullRequest>, since: int, maxResults: int, answers: Answers) {
    Updated(items, since, maxResults, answers) == Ok(OnOrAfter(items, |items|, since))
  }

  /** It gives every pull request updated on or after `since` exactly if it reads all that were. */
  lemma OnOrAfterIffAllAreRead(items: seq<PullRequest>, since: int, maxResults: int, answers: Answers)
    requires NewestFirst(items) && Updated(items, since, maxResults, answers).Ok?
    ensures ReturnsAsDocumented(items, since, maxResults, answers) <==> ReadsOnOrAfter(items, since, 0)
  {
    var n, b := Reached(items, since, 0), FirstBefore(items, since, 0);
    UpdatedIs(items, since, maxResults, answers);
    RetrievesWhatItReaches(items, since, maxResults, answers, 0);
    FirstBeforeIs(items, since, 0);
    FilterOfSorted(items, |items|, since, b);
    assert |items[..b]| == b && |items[..Min(n, b)]| == Min(n, b);
  }

  /** From the `r`-th request on, nothing behind what is read was updated at `since` or later. */
  ghost predicate ReadsOnOrAfter(items: seq<PullRequest>, since: int, r: nat) {
    var n := Reached(items, since, r);
    n < |items| ==> items[n].updatedAt < since
  }

  /** The last item of the `q`-th page and the first one behind it were both updated at `since` sharp. */
  predicate SplitsTie(items: seq<PullRequest>, since: int, q: nat) {
    var end := End(Request(PAGE_SIZE, true, q));
    1 <= end < |items| && items[end - 1].updatedAt == since == items[end].updatedAt
  }

  /** If reading stops at the `r`-th page and a tie is split there or later, not all is read. */
  lemma NoTieBehind(items: seq<PullRequest>, since: int, r: nat, q: nat)
    requires NewestFirst(items) && r <= q && SplitsTie(items, since, q)
    requires var end := End(Request(PAGE_SIZE, true, r));
      1 <= end < |items| ==> items[end - 1].updatedAt <= since
    ensures !ReadsOnOrAfter(items, since, r)
  {
    LaterEndsAreLarger(PAGE_SIZE, true, r, q);
    var end, behind := End(Request(PAGE_SIZE, true, r)), End(Request(PAGE_SIZE, true, q));
    assert items[end].updatedAt >= items[behind].updatedAt;
  }

  lemma {:induction false} ReadsAllIffNoTieIsSplit(items: seq<PullRequest>, since: int, r: nat)
    requires NewestFirst(items)
    ensures ReadsOnOrAfter(items, since, r) <==> forall q: nat :: r <= q ==> !SplitsTie(items, since, q)
    decreases var left := |items| - Start(Request(PAGE_SIZE, true, r)); if left < 0 then 0 else left
  {
    var end := End(Request(PAGE_SIZE, true, r));
    RequestsAreSeamless(PAGE_SIZE, true, r);
    StartBeforeEnd(Request(PAGE_SIZE, true, r));
    if end < |items| && items[end - 1].updatedAt > since {
      ReadsAllIffNoTieIsSplit(items, since, r + 1);
      assert !SplitsTie(items, since, r);
      assert ReadsOnOrAfter(items, since, r) == ReadsOnOrAfter(items, since, r + 1);
    } else {
      forall q: nat | r <= q && SplitsTie(items, since, q) ensures !ReadsOnOrAfter(items, since, r) {
        NoTieBehind(items, since, r, q);
      }
      assert !ReadsOnOrAfter(items, since, r) ==> SplitsTie(items, since, r);
    }
  }

  /**
   It gives every pull request updated on or after `since`, as documented, exactly if no page ends
   between two that were updated at `since` sharp.
   */
  lemma OnOrAfterIffNoTieIsCut(items: seq<PullRequest>, since: int, maxResults: int, answers: Answers)
    requires NewestFirst(items) && Updated(items, since, maxResults, answers).Ok?
    ensures ReturnsAsDocumented(items, since, maxResults, answers) <==> forall q: nat :: !SplitsTie(items, since, q)
  {
    OnOrAfterIffAllAreRead(items, since, maxResults, answers);
    ReadsAllIffNoTieIsSplit(items, since, 0);
  }

  /** Eleven pull requests updated at `since` sharp: only the first page of ten is read. */
  lemma TieIsCut(since: int, answers: Answers)
    requires answers(0).Served?
    ensures var items := seq(11, i => PullRequest(i, since));
      Updated(items, since, DEFAULT_MAX_RESULTS, answers).Ok?
      && |Updated(items, since, DEFAULT_MAX_RESULTS, answers).value| == 10
      && |OnOrAfter(items, |items|, since)| == 11
  {
    var items := seq(11, i => PullRequest(i, since));
    var opts := Options(since, DEFAULT_MAX_RESULTS);
    assert End(Request(PAGE_SIZE, true, 0)) == 10;
    assert items[..10][9] == items[9];
    assert Fetched(items, opts, answers, 0) == Ok(items[..10]);
    FilterOfSorted(items, 11, since, 11);
    FilterOfSorted(items[..10], 10, since, 10);
  }

  // ---------- When it throws ----------

  /** The requests from the `r`-th to the `last` are answered with their pages. */
  ghost predicate AllServed(answers: Answers, r: nat, last: nat) {
    forall k: nat :: r <= k <= last ==> answers(k).Served?
  }

  /**
   From the `r`-th request on the callback throws: at the `last` one, if it gets that far and the list
   and its new items do too.
   */
  ghost predicate ThrowsAsTold(items: seq<PullRequest>, since: int, maxResults: int, answers: Answers, r: nat,
                               last: nat) {
    Fetched(items, Options(since, maxResults), answers, r) == Err(ContinueThrew)
    <==> AllServed(answers, r, last) && End(Request(PAGE_SIZE, true, last)) < |items|
         && (r < last ==> ItemBefore(items, End(Request(PAGE_SIZE, true, last - 1)), since))
  }

  /** The item before index `end` is there and was updated after `since`. */
  predicate ItemBefore(items: seq<PullRequest>, end: int, since: int) {
    1 <= end <= |items| && items[end - 1].updatedAt > since
  }

  lemma {:induction false} ThrowsFrom(items: seq<PullRequest>, since: int, maxResults: int, answers: Answers, r: nat,
                                      last: nat)
    requires NewestFirst(items) && r <= last
    requires End(Request(PAGE_SIZE, true, last)) >= maxResults
    requires last > 0 ==> End(Request(PAGE_SIZE, true, last - 1)) < maxResults
    ensures ThrowsAsTold(items, since, maxResults, answers, r, last)
    decreases last - r
  {
    LaterEndsAreLarger(PAGE_SIZE, true, r, last);
    assert AllServed(answers, r, last) <==> answers(r).Served? && AllServed(answers, r + 1, last);
    if r < last {
      LaterEndsAreLarger(PAGE_SIZE, true, r, last - 1);
      ThrowsFrom(items, since, maxResults, answers, r + 1, last);
      ThrowStep(items, since, maxResults, answers, r, last);
    }
  }

  lemma ThrowStep(items: seq<PullRequest>, since: int, maxResults: int, answers: Answers, r: nat, last: nat)
    requires NewestFirst(items) && r < last
    requires AllServed(answers, r, last) <==> answers(r).Served? && AllServed(answers, r + 1, last)
    requires var end := End(Request(PAGE_SIZE, true, r));
      && 1 <= end < maxResults && end <= End(Request(PAGE_SIZE, true, last - 1))
      && end < End(Request(PAGE_SIZE, true, last))
    requires ThrowsAsTold(items, since, maxResults, answers, r + 1, last)
    ensures ThrowsAsTold(items, since, maxResults, answers, r, last)
  {
    var end := End(Request(PAGE_SIZE, true, r));
    if end < |items| {
      assert items[..end][end - 1] == items[end - 1];
    }
  }

  /** The first request, from the `r`-th on and counted from 0, whose page reaches the limit. */
  function FirstReaching(maxResults: int, r: nat): nat
    decreases var left := maxResults - End(Request(PAGE_SIZE, true, r)); if left < 0 then 0 else left
  {
    LaterEndsAreLarger(PAGE_SIZE, true, r, r + 1);
    if End(Request(PAGE_SIZE, true, r)) >= maxResults then r else FirstReaching(maxResults, r + 1)
  }

  /** The page of request `last` reaches the limit, and those from the `r`-th on before it do not. */
  ghost predicate ReachesFirst(maxResults: int, r: nat, last: nat) {
    && r <= last && End(Request(PAGE_SIZE, true, last)) >= maxResults
    && (r < last ==> End(Request(PAGE_SIZE, true, last - 1)) < maxResults)
  }

  lemma {:induction false} FirstReachingIs(maxResults: int, r: nat)
    ensures ReachesFirst(maxResults, r, FirstReaching(maxResults, r))
    decreases var left := maxResults - End(Request(PAGE_SIZE, true, r)); if left < 0 then 0 else left
  {
    LaterEndsAreLarger(PAGE_SIZE, true, r, r + 1);
    if End(Request(PAGE_SIZE, true, r)) < maxResults {
      FirstReachingIs(maxResults, r + 1);
      OneEarlier(maxResults, r, FirstReaching(maxResults, r + 1));
    }
  }

  lemma OneEarlier(maxResults: int, r: nat, last: nat)
    requires ReachesFirst(maxResults, r + 1, last) && End(Request(PAGE_SIZE, true, r)) < maxResults
    ensures ReachesFirst(maxResults, r, last)
  {
  }

  /**
   With any limit there is a first request whose page reaches it. It throws exactly if no request up to that
   one goes wrong, the list goes on behind that page and the last item before the page was updated after `since`.
   */
  lemma ThrowsIffAtLimit(items: seq<PullRequest>, since: int, maxResults: int, answers: Answers)
    requires NewestFirst(items)
    ensures var last := FirstReaching(maxResults, 0);
      Updated(items, since, maxResults, answers) == Err(ContinueThrew)
      <==> AllServed(answers, 0, last) && End(Request(PAGE_SIZE, true, last)) < |items|
           && (last > 0 ==> ItemBefore(items, End(Request(PAGE_SIZE, true, last - 1)), since))
  {
    FirstReachingIs(maxResults, 0);
    ThrowsFrom(items, since, maxResults, answers, 0, FirstReaching(maxResults, 0));
  }

  lemma DefaultLimitIsReached()
    ensures FirstReaching(DEFAULT_MAX_RESULTS, 0) == 6
  {
    DocumentedRamp();
  }

  /**
   With the default limit of 320 it throws exactly if there are more than 320 pull requests, the
   240th was updated after `since`, and none of the first seven requests goes wrong.
   */
  lemma ThrowsIff(items: seq<PullRequest>, since: int, answers: Answers)
    requires NewestFirst(items)
    ensures Updated(items, since, DEFAULT_MAX_RESULTS, answers) == Err(ContinueThrew)
       <==> |items| > 320 && items[239].updatedAt > since && AllServed(answers, 0, 6)
  {
    DefaultLimitIsReached();
    DocumentedRamp();
    ThrowsIffAtLimit(items, since, DEFAULT_MAX_RESULTS, answers);
  }

  /** It throws, as documented, exactly if more pull requests than the limit were updated on or after `since`. */
  ghost predicate ThrowsAsDocumented(items: seq<PullRequest>, since: int, answers: Answers) {
    Updated(items, since, DEFAULT_MAX_RESULTS, answers) == Err(ContinueThrew)
    <==> |OnOrAfter(items, |items|, since)| > DEFAULT_MAX_RESULTS
  }

  /**
   While no request goes wrong that rule holds of a list unless `since` lies between the 240th and the
   321st item, so that it throws too early, or both, and so all between them, were updated at `since`
   sharp, so that it does not throw.
   */
  lemma ThrowsAsDocumentedIff(items: seq<PullRequest>, since: int, answers: Answers)
    requires NewestFirst(items) && AllServed(answers, 0, 6)
    ensures ThrowsAsDocumented(items, since, answers)
       <==> |items| <= 320
            || (!(items[320].updatedAt < since < items[239].updatedAt)
                && !(items[320].updatedAt == since == items[239].updatedAt))
  {
    var b := FirstBefore(items, since, 0);
    ThrowsIff(items, since, answers);
    FirstBeforeIs(items, since, 0);
    FilterOfSorted(items, |items|, since, b);
    assert |items[..b]| == b;
    if |items| > 320 {
      assert items[320].updatedAt >= since <==> b > 320;
    }
  }

  /** Of 321 pull requests only the first 240 were updated after `since`, and it throws. */
  lemma ThrowsTooEarly(since: int, answers: Answers)
    requires AllServed(answers, 0, 6)
    ensures var items := seq(321, i => PullRequest(i, if i < 240 then since + 1 else since - 1));
      && Updated(items, since, DEFAULT_MAX_RESULTS, answers) == Err(ContinueThrew)
      && |OnOrAfter(items, |items|, since)| == 240
  {
    var items := seq(321, i => PullRequest(i, if i < 240 then since + 1 else since - 1));
    ThrowsIff(items, since, answers);
    FilterOfSorted(items, 321, since, 240);
  }
}
