/**
 `app/src/lib/api.ts`: following the links of a paged resource while the page size grows. The server
 is a fixed list that serves the slice a (page, size) query names and links to the page behind it.
 */
module Pagination {
  import opened Strings

  // ---------- Queries and the server ----------

  /** The `per_page` and `page` parameters of a path. `None` stands for one that is missing or no number. */
  datatype Query = Query(perPage: Option<int>, page: Option<int>)

  predicate Sane(q: Query) {
    q.perPage.Some? && q.perPage.value >= 1 && (q.page.Some? ==> q.page.value >= 1)
  }

  /** Without a page number the first page is served. */
  function PageOf(q: Query): int {
    if q.page.Some? then q.page.value else 1
  }

  function Size(q: Query): int {
    if q.perPage.Some? then q.perPage.value else 0
  }

  /** How many items lie before the page. */
  function Start(q: Query): int {
    (PageOf(q) - 1) * Size(q)
  }

  /** How many items lie before the end of the page. */
  function End(q: Query): int {
    PageOf(q) * Size(q)
  }

  function Min(a: int, b: int): int {
    if a <= b then a else b
  }

  /** The link to the page behind. */
  function Follow(q: Query): Query {
    Query(q.perPage, Some(PageOf(q) + 1))
  }

  lemma StartBeforeEnd(q: Query)
    requires Sane(q)
    ensures 0 <= Start(q) && End(q) == Start(q) + Size(q) && Size(q) >= 1 && PageOf(q) >= 1
    ensures Sane(Follow(q)) && Start(Follow(q)) == End(q)
  {
  }

  function PageItems<T>(items: seq<T>, q: Query): seq<T> {
    if 0 <= Start(q) <= End(q) then items[Min(Start(q), |items|)..Min(End(q), |items|)] else []
  }

  function PageLink<T>(items: seq<T>, q: Query): Option<Query> {
    if End(q) < |items| then Some(Follow(q)) else None
  }

  // ---------- Growing pages ----------

  const MAX_PAGE_SIZE := 100

  /** `getNextPagePathWithIncreasingPageSize`, for the response's link. */
  function GetNextPagePathWithIncreasingPageSize(link: Option<Query>): Option<Query> {
    if link.None? then None
    else
      var q := link.value;
      if q.perPage.None? || q.perPage.value == 0 || q.page.None? || q.page.value == 0 then link
      else
        var received := (q.page.value - 1) * q.perPage.value;
        var nextSize := Min(MAX_PAGE_SIZE, q.perPage.value * 2);
        if q.perPage.value != nextSize && received % nextSize == 0
        then Some(Query(Some(nextSize), Some(received / nextSize + 1)))
        else link
  }

  function GetNextPagePath(increasing: bool, link: Option<Query>): Option<Query> {
    if increasing then GetNextPagePathWithIncreasingPageSize(link) else link
  }

  /** A rewritten query starts exactly where the link it replaces starts. */
  lemma RewriteKeepsPlace(q: Query)
    requires Sane(q) && q.page.Some?
    ensures var next := GetNextPagePathWithIncreasingPageSize(Some(q));
      next.Some? && Sane(next.value) && next.value.page.Some? && Start(next.value) == Start(q)
  {
    var received, nextSize := Start(q), Min(MAX_PAGE_SIZE, Size(q) * 2);
    StartBeforeEnd(q);
    if received % nextSize == 0 {
      Divides(received, nextSize);
    }
  }

  lemma Divides(received: int, size: int)
    requires 0 <= received && size >= 1 && received % size == 0
    ensures received / size >= 0 && (received / size) * size == received
  {
  }

  /** Below the limit it never asks for smaller pages, and never for more than the limit. */
  lemma SizeNeverShrinks(q: Query)
    requires Sane(q) && q.page.Some? && Size(q) <= MAX_PAGE_SIZE
    ensures var next := GetNextPagePathWithIncreasingPageSize(Some(q));
      next.Some? && Size(q) <= Size(next.value) <= MAX_PAGE_SIZE
  {
  }

  /** The `r`-th request, counted from 0, of a run over a list that is long enough. */
  function Request(perPage: int, increasing: bool, r: nat): Query {
    if r == 0 then Query(Some(perPage), None)
    else
      var next := GetNextPagePath(increasing, Some(Follow(Request(perPage, increasing, r - 1))));
      if next.Some? then next.value else Query(None, None)
  }

  /** No request skips anything and none repeats anything: each starts where the one before it ended. */
  lemma {:induction false} RequestsAreSeamless(perPage: int, increasing: bool, r: nat)
    requires perPage >= 1
    ensures Sane(Request(perPage, increasing, r)) && Sane(Request(perPage, increasing, r + 1))
    ensures Start(Request(perPage, increasing, 0)) == 0
    ensures Start(Request(perPage, increasing, r + 1)) == End(Request(perPage, increasing, r))
    ensures GetNextPagePath(increasing, Some(Follow(Request(perPage, increasing, r))))
         == Some(Request(perPage, increasing, r + 1))
  {
    if r > 0 {
      RequestsAreSeamless(perPage, increasing, r - 1);
    }
    var q := Request(perPage, increasing, r);
    StartBeforeEnd(q);
    if increasing {
      RewriteKeepsPlace(Follow(q));
    }
  }

  // ---------- fetchAll ----------

  datatype FetchError = RequestFailed | ResponseNotOk | ContinueThrew

  /** What the `continue` callback does with the items retrieved so far. */
  datatype Verdict = Go | Stop | Throw

  datatype FetchAllOptions<!T> = FetchAllOptions(
    perPage: int,
    increasing: bool,
    suppressErrors: bool,
    proceed: seq<T> -> Verdict)

  /**
   How a request ends: with its page, with a response that is not ok, or by throwing, as without a
   network or when the page cannot be read.
   */
  datatype Answer = Served | NotOk | Failed

  type Answers = nat -> Answer

  /** What a run has retrieved when it has followed all requests before `q`, and `q` itself. */
  function Covered<T>(items: seq<T>, q: Query): seq<T> {
    if 0 <= End(q) then items[..Min(End(q), |items|)] else []
  }

  /** What it has retrieved before `q`. */
  function Retrieved<T>(items: seq<T>, q: Query): seq<T> {
    if 0 <= Start(q) then items[..Min(Start(q), |items|)] else []
  }

  /**
   What a run gives from its `r`-th request on, when `answers` says how the requests end: every
   buffer the callback sees, and every result, is a prefix of the list. Only responses that are not
   ok are suppressed.
   */
  function Fetched<T>(items: seq<T>, opts: FetchAllOptions<T>, answers: Answers, r: nat): Result<seq<T>, FetchError>
    requires opts.perPage >= 1
    decreases var left := |items| - Start(Request(opts.perPage, opts.increasing, r)); if left < 0 then 0 else left
  {
    RequestsAreSeamless(opts.perPage, opts.increasing, r);
    StartBeforeEnd(Request(opts.perPage, opts.increasing, r));
    if answers(r).Failed? then Err(RequestFailed)
    else if answers(r).NotOk? then
      if opts.suppressErrors then Ok(Retrieved(items, Request(opts.perPage, opts.increasing, r)))
      else Err(ResponseNotOk)
    else if End(Request(opts.perPage, opts.increasing, r)) >= |items| then Ok(items)
    else match opts.proceed(Covered(items, Request(opts.perPage, opts.increasing, r)))
      case Stop => Ok(Covered(items, Request(opts.perPage, opts.increasing, r)))
      case Throw => Err(ContinueThrew)
      case Go => Fetched(items, opts, answers, r + 1)
  }

  /** One page more: what was retrieved and the page that is served are what is covered. */
  lemma OnePageMore<T>(items: seq<T>, q: Query)
    requires Sane(q)
    ensures Retrieved(items, q) + PageItems(items, q) == Covered(items, q)
  {
    StartBeforeEnd(q);
    SliceOneMore(items, Start(q), End(q));
  }

  lemma SliceOneMore<T>(s: seq<T>, start: nat, end: nat)
    requires start <= end
    ensures s[..Min(start, |s|)] + s[Min(start, |s|)..Min(end, |s|)] == s[..Min(end, |s|)]
  {
  }

  /** Follows the links of a paged resource until there is none or the callback says to stop. */
  method FetchAll<T>(items: seq<T>, opts: FetchAllOptions<T>, answers: Answers) returns (r: Result<seq<T>, FetchError>)
    requires opts.perPage >= 1
    ensures r == Fetched(items, opts, answers, 0)
  {
    var buf: seq<T> := [];
    var path := Query(Some(opts.perPage), None);
    var n: nat := 0;
    assert items[..0] == [];
    while true
      invariant path == Request(opts.perPage, opts.increasing, n)
      invariant buf == Retrieved(items, path)
      invariant Fetched(items, opts, answers, n) == Fetched(items, opts, answers, 0)
      decreases var left := |items| - Start(path); if left < 0 then 0 else left
    {
      if answers(n).Failed? {
        return Err(RequestFailed);
      }
      if answers(n).NotOk? {
        return if opts.suppressErrors then Ok(buf) else Err(ResponseNotOk);
      }
      RequestsAreSeamless(opts.perPage, opts.increasing, n);
      OnePageMore(items, path);
      StartBeforeEnd(path);
      buf := buf + PageItems(items, path);
      var link := PageLink(items, path);
      var next := GetNextPagePath(opts.increasing, link);
      if next.None? {
        CoversAll(items, End(path));
        return Ok(buf);
      }
      match opts.proceed(buf) {
        case Stop => return Ok(buf);
        case Throw => return Err(ContinueThrew);
        case Go =>
      }
      path, n := next.value, n + 1;
    }
  }

  lemma CoversAll<T>(items: seq<T>, end: int)
    requires end >= |items|
    ensures items[..Min(end, |items|)] == items
  {
  }

  /** Whatever fails and whatever stops the run: a result is a prefix of the list. */
  lemma {:induction false} ResultIsPrefix<T>(items: seq<T>, opts: FetchAllOptions<T>, answers: Answers, r: nat)
    requires opts.perPage >= 1
    ensures var f := Fetched(items, opts, answers, r); f.Ok? ==> f.value <= items
    decreases var left := |items| - Start(Request(opts.perPage, opts.increasing, r)); if left < 0 then 0 else left
  {
    var q := Request(opts.perPage, opts.increasing, r);
    RequestsAreSeamless(opts.perPage, opts.increasing, r);
    StartBeforeEnd(q);
    if End(q) < |items| {
      ResultIsPrefix(items, opts, answers, r + 1);
    }
  }

  lemma {:induction false} LaterEndsAreLarger(perPage: int, increasing: bool, r: nat, last: nat)
    requires perPage >= 1 && r <= last
    ensures 1 <= End(Request(perPage, increasing, r)) <= End(Request(perPage, increasing, last))
    ensures r < last ==> End(Request(perPage, increasing, r)) <= Start(Request(perPage, increasing, last))
    ensures r < last ==> End(Request(perPage, increasing, r)) < End(Request(perPage, increasing, last))
    decreases last - r
  {
    RequestsAreSeamless(perPage, increasing, r);
    StartBeforeEnd(Request(perPage, increasing, r));
    if r < last {
      LaterEndsAreLarger(perPage, increasing, r + 1, last);
      StartBeforeEnd(Request(perPage, increasing, r + 1));
    }
  }

  /**
   The `k`-th request is answered with its page if the list goes that far, and if it goes on behind
   that page the callback says to go on.
   */
  ghost predicate GoesOn<T>(items: seq<T>, opts: FetchAllOptions<T>, answers: Answers, k: nat) {
    var q := Request(opts.perPage, opts.increasing, k);
    && (Start(q) < |items| ==> answers(k).Served?)
    && (End(q) < |items| ==> opts.proceed(Covered(items, q)) == Go)
  }

  lemma FetchedStep<T>(items: seq<T>, opts: FetchAllOptions<T>, answers: Answers, r: nat)
    requires opts.perPage >= 1 && Start(Request(opts.perPage, opts.increasing, r)) < |items|
    ensures !GoesOn(items, opts, answers, r) ==> Fetched(items, opts, answers, r) != Ok(items)
    ensures GoesOn(items, opts, answers, r) ==>
      var end := End(Request(opts.perPage, opts.increasing, r));
      Fetched(items, opts, answers, r) == (if end < |items| then Fetched(items, opts, answers, r + 1) else Ok(items))
  {
    var q := Request(opts.perPage, opts.increasing, r);
    RequestsAreSeamless(opts.perPage, opts.increasing, r);
    StartBeforeEnd(q);
    assert |Retrieved(items, q)| < |items|;
    assert End(q) < |items| ==> |Covered(items, q)| < |items|;
  }

  lemma {:induction false} CompleteIffGoesOn<T>(items: seq<T>, opts: FetchAllOptions<T>, answers: Answers, r: nat)
    requires opts.perPage >= 1 && Start(Request(opts.perPage, opts.increasing, r)) < |items|
    ensures Fetched(items, opts, answers, r) == Ok(items)
        <==> forall k: nat :: r <= k ==> GoesOn(items, opts, answers, k)
    decreases |items| - Start(Request(opts.perPage, opts.increasing, r))
  {
    RequestsAreSeamless(opts.perPage, opts.increasing, r);
    StartBeforeEnd(Request(opts.perPage, opts.increasing, r));
    FetchedStep(items, opts, answers, r);
    if End(Request(opts.perPage, opts.increasing, r)) < |items| {
      CompleteIffGoesOn(items, opts, answers, r + 1);
    } else {
      forall k: nat | r < k ensures GoesOn(items, opts, answers, k) {
        LaterEndsAreLarger(opts.perPage, opts.increasing, r, k);
      }
    }
  }

  /**
   A run returns the whole list exactly if every request the list is long enough for is answered
   with its page and the callback never stops it before the last of them. Of a list without items
   it does even if its one response is not ok, when that is suppressed.
   */
  lemma RunIsCompleteIff<T>(items: seq<T>, opts: FetchAllOptions<T>, answers: Answers)
    requires opts.perPage >= 1
    ensures Fetched(items, opts, answers, 0) == Ok(items)
        <==> if items == [] then answers(0).Served? || (answers(0).NotOk? && opts.suppressErrors)
             else forall k: nat :: GoesOn(items, opts, answers, k)
  {
    RequestsAreSeamless(opts.perPage, opts.increasing, 0);
    if items != [] {
      CompleteIffGoesOn(items, opts, answers, 0);
    }
  }

  /** The `k`-th request is answered with its page, more items are behind it, and the callback says to go on. */
  ghost predicate WentOn<T>(items: seq<T>, opts: FetchAllOptions<T>, answers: Answers, k: nat) {
    var end := End(Request(opts.perPage, opts.increasing, k));
    answers(k).Served? && 0 <= end < |items| && opts.proceed(items[..end]) == Go
  }

  lemma {:induction false} RunReaches<T>(items: seq<T>, opts: FetchAllOptions<T>, answers: Answers, r: nat)
    requires opts.perPage >= 1 && forall k: nat :: k < r ==> WentOn(items, opts, answers, k)
    ensures Fetched(items, opts, answers, 0) == Fetched(items, opts, answers, r)
  {
    if r > 0 {
      RunReaches(items, opts, answers, r - 1);
      assert WentOn(items, opts, answers, r - 1);
    }
  }

  /**
   How a run ends at its `r`-th request, when all before it were answered and the callback went on: with the items
   of the pages before, when a response that is not ok is suppressed; with those of this page too, when it is the
   last or the callback stops; and with the error otherwise.
   */
  lemma RunEndsAt<T>(items: seq<T>, opts: FetchAllOptions<T>, answers: Answers, r: nat)
    requires opts.perPage >= 1 && forall k: nat :: k < r ==> WentOn(items, opts, answers, k)
    ensures var q, f := Request(opts.perPage, opts.increasing, r), Fetched(items, opts, answers, 0);
      && 0 <= Start(q) <= End(q)
      && (answers(r).Failed? ==> f == Err(RequestFailed))
      && (answers(r).NotOk? ==>
            f == if opts.suppressErrors then Ok(items[..Min(Start(q), |items|)]) else Err(ResponseNotOk))
      && (answers(r).Served? && |items| <= End(q) ==> f == Ok(items))
      && (answers(r).Served? && End(q) < |items| && opts.proceed(items[..End(q)]) == Stop ==> f == Ok(items[..End(q)]))
      && (answers(r).Served? && End(q) < |items| && opts.proceed(items[..End(q)]) == Throw ==> f == Err(ContinueThrew))
  {
    RunReaches(items, opts, answers, r);
    RequestsAreSeamless(opts.perPage, opts.increasing, r);
    StartBeforeEnd(Request(opts.perPage, opts.increasing, r));
  }

  /** What a rewrite does: nothing, or a page of twice the size, or of the largest, that starts at the same place. */
  lemma RewriteIff(q: Query)
    ensures GetNextPagePathWithIncreasingPageSize(None) == None
    ensures var next, size := GetNextPagePathWithIncreasingPageSize(Some(q)), Min(100, 2 * Size(q));
      if Sane(q) && q.page.Some? && Size(q) != size && Start(q) % size == 0
      then next.Some? && Size(next.value) == size && next.value.page.Some? && Start(next.value) == Start(q)
      else Sane(q) ==> next == Some(q)
    ensures q.perPage.None? || q.perPage == Some(0) || q.page.None? || q.page == Some(0) ==>
      GetNextPagePathWithIncreasingPageSize(Some(q)) == Some(q)
  {
    if Sane(q) && q.page.Some? {
      var size := Min(100, 2 * Size(q));
      if Start(q) % size == 0 {
        Divides(Start(q), size);
      }
    }
  }

  /** Without growth the pages are those of one size, one after the other. */
  lemma {:induction false} FixedPages(perPage: int, r: nat)
    ensures Size(Request(perPage, false, r)) == perPage && PageOf(Request(perPage, false, r)) == r + 1
  {
    if r > 0 {
      FixedPages(perPage, r - 1);
    }
  }

  // ---------- The ramp-up ----------

  function PowerOf2(n: nat): nat {
    if n == 0 then 1 else 2 * PowerOf2(n - 1)
  }

  /** The page size never shrinks during a run and never passes the limit. */
  lemma SizesOfRun(perPage: int, r: nat)
    requires 1 <= perPage <= MAX_PAGE_SIZE
    ensures 1 <= Size(Request(perPage, true, r)) <= Size(Request(perPage, true, r + 1)) <= MAX_PAGE_SIZE
  {
    RequestsAreSeamless(perPage, true, r);
    var q := Request(perPage, true, r);
    if r > 0 {
      SizesOfRun(perPage, r - 1);
    }
    StartBeforeEnd(q);
    SizeNeverShrinks(Follow(q));
  }

  /**
   While the doubled size stays within the limit, every request (counted from 1) but the first is
   for page 2 of doubled size and doubles what was retrieved.
   */
  lemma {:induction false} RampUp(perPage: int, r: nat)
    requires 1 <= perPage && r >= 2 && perPage * PowerOf2(r - 2) <= MAX_PAGE_SIZE
    ensures Request(perPage, true, r - 1) == Query(Some(perPage * PowerOf2(r - 2)), Some(2))
    ensures End(Request(perPage, true, r - 1)) == perPage * PowerOf2(r - 1)
  {
    PowerStep(perPage, r - 1);
    if r == 2 {
      SecondPage(perPage);
    } else {
      PowerStep(perPage, r - 2);
      RampUp(perPage, r - 1);
      DoubledPage(perPage * PowerOf2(r - 3));
    }
  }

  lemma PowerStep(p: int, n: nat)
    requires p >= 1 && n >= 1
    ensures p * PowerOf2(n) == 2 * (p * PowerOf2(n - 1)) && p * PowerOf2(n - 1) >= 1 && p * PowerOf2(0) == p
  {
    PowerIsPositive(n - 1);
    TimesTwo(p, PowerOf2(n - 1));
  }

  lemma PowerIsPositive(n: nat)
    ensures PowerOf2(n) >= 1
  {
  }

  lemma TimesTwo(p: int, x: int)
    requires p >= 1 && x >= 1
    ensures p * (2 * x) == 2 * (p * x) && p * x >= 1
  {
  }

  lemma ItselfDivides(n: int)
    requires n >= 1
    ensures n % n == 0 && n / n == 1
  {
    QuotientIs(n, n, 1);
  }

  lemma LargerDoesNotDivide(p: int, n: int)
    requires 1 <= p < n
    ensures p % n != 0
  {
    QuotientIs(p, n, 0);
  }

  lemma QuotientIs(p: int, n: int, q: int)
    requires n >= 1 && q * n <= p < q * n + n
    ensures p / n == q && p % n == p - q * n
  {
    var d := p / n - q;
    assert (p / n) * n == q * n + d * n;
    if d >= 1 {
      AtLeast(d, n);
    } else if d <= -1 {
      AtLeast(-d, n);
    }
  }

  lemma AtLeast(d: int, n: int)
    requires d >= 1 && n >= 1
    ensures d * n >= n
  {
  }

  lemma SecondPage(p: int)
    requires 1 <= p <= MAX_PAGE_SIZE
    ensures Request(p, true, 1) == Query(Some(p), Some(2))
  {
    if p < Min(MAX_PAGE_SIZE, p * 2) {
      LargerDoesNotDivide(p, Min(MAX_PAGE_SIZE, p * 2));
    }
    assert Request(p, true, 1) == GetNextPagePath(true, Some(Follow(Request(p, true, 0)))).value;
  }

  lemma DoubledPage(s: int)
    requires 1 <= s && s * 2 <= MAX_PAGE_SIZE
    ensures GetNextPagePathWithIncreasingPageSize(Some(Follow(Query(Some(s), Some(2)))))
         == Some(Query(Some(s * 2), Some(2)))
  {
    ItselfDivides(s * 2);
  }

  /** The documented ramp from a page size of 10: pages, sizes and items retrieved of requests 1 to 9. */
  lemma DocumentedRamp()
    ensures Request(10, true, 0) == Query(Some(10), None) && End(Request(10, true, 0)) == 10
    ensures Request(10, true, 1) == Query(Some(10), Some(2)) && End(Request(10, true, 1)) == 20
    ensures Request(10, true, 2) == Query(Some(20), Some(2)) && End(Request(10, true, 2)) == 40
    ensures Request(10, true, 3) == Query(Some(40), Some(2)) && End(Request(10, true, 3)) == 80
    ensures Request(10, true, 4) == Query(Some(80), Some(2)) && End(Request(10, true, 4)) == 160
    ensures Request(10, true, 5) == Query(Some(80), Some(3)) && End(Request(10, true, 5)) == 240
    ensures Request(10, true, 6) == Query(Some(80), Some(4)) && End(Request(10, true, 6)) == 320
    ensures Request(10, true, 7) == Query(Some(80), Some(5)) && End(Request(10, true, 7)) == 400
    ensures Request(10, true, 8) == Query(Some(100), Some(5)) && End(Request(10, true, 8)) == 500
  {
  }
}
