/**
 * The page walk of scripts/bottleofitaly-catalog-sweep.ts against an arbitrary server: one page
 * after the other, one retry each, up to the first short page, the first failure or the page cap.
 */
module CatalogSweep {
  import opened Wrappers
  import opened Chunking
  import opened Extremes

  const MAX_PAGES: nat := 120

  const PAGE_LIMIT: nat := 250

  datatype Product = Product(id: string, details: string)

  /** What a request meets: a thrown fetch, or a status and, for a JSON body that lists products, the list. */
  datatype Reply = Thrown(message: string) | Answer(status: nat, products: Option<seq<Product>>)

  /** The server's reply to each attempt at each page. */
  type Behaviour = (nat, nat) -> Reply

  datatype Reason = FetchError(message: string) | Http(status: nat) | TooManyRequests | NonJsonBody

  datatype PageOutcome =
    | Fetched(products: seq<Product>, attempts: nat, had429: bool, hadNonJson: bool)
    | Failed(reason: Reason, attempts: nat, had429: bool, hadNonJson: bool)

  datatype Failure = PageFailed(page: nat, reason: Reason) | HitPageCap

  datatype SweepResult = SweepResult(
    products: seq<Product>, distinctIds: nat, pagesOk: nat, pageFailures: seq<Failure>, http429Count: nat,
    nonJsonCount: nat, retriedPages: nat, recoveredRetries: nat, hitPageCap: bool)

  // ---- One page ----

  predicate Is429(r: Reply) { r.Answer? && r.status == 429 }

  predicate IsNonJson(r: Reply) { r.Answer? && r.status == 200 && r.products.None? }

  /** The three replies that are worth a second attempt. */
  predicate Retriable(r: Reply) { r.Thrown? || Is429(r) || IsNonJson(r) }

  /** The verdict on a page, read off its two attempts (the second only counts when it is made). */
  function Verdict(first: Reply, second: Reply): (outcome: PageOutcome)
  {
    if !Retriable(first) then Settled(first, 1, false, false)
    else if !Retriable(second) then Settled(second, 2, Is429(first), IsNonJson(first))
    else
      var had429, hadNonJson := Is429(first) || Is429(second), IsNonJson(first) || IsNonJson(second);
      var reason :=
        if second.Thrown? then FetchError(second.message) else if had429 then TooManyRequests else NonJsonBody;
      Failed(reason, 2, had429, hadNonJson)
  }

  function Settled(r: Reply, attempts: nat, had429: bool, hadNonJson: bool): (outcome: PageOutcome)
    requires !Retriable(r)
  {
    if r.status == 200 then Fetched(r.products.value, attempts, had429, hadNonJson)
    else Failed(Http(r.status), attempts, had429, hadNonJson)
  }

  function PageAt(server: Behaviour, page: nat): (outcome: PageOutcome)
  {
    Verdict(server(page, 1), server(page, 2))
  }

  /** A thrown request, a throttled one, or a 200 without a product list. */
  predicate Hiccup(r: Reply)
  {
    match r
    case Thrown(_) => true
    case Answer(status, products) => status == 429 || (status == 200 && products.None?)
  }

  /** A page that is served at once or after one hiccup is collected; any other status ends it at once. */
  lemma SecondChance(first: Reply, second: Reply)
    ensures first.Answer? && first.status == 200 && first.products.Some? ==>
              Verdict(first, second) == Fetched(first.products.value, 1, false, false)
    ensures Hiccup(first) && second.Answer? && second.status == 200 && second.products.Some? ==>
              Verdict(first, second)
              == Fetched(second.products.value, 2, first.Answer? && first.status == 429,
                         first.Answer? && first.status == 200)
    ensures first.Answer? && first.status != 200 && first.status != 429 ==>
              Verdict(first, second) == Failed(Http(first.status), 1, false, false)
    ensures Hiccup(first) && Hiccup(second) ==>
              var o := Verdict(first, second);
              && o.Failed? && o.attempts == 2
              && o.reason == (if second.Thrown? then FetchError(second.message)
                              else if o.had429 then TooManyRequests else NonJsonBody)
              && (o.had429 <==> (first.Answer? && first.status == 429) || (second.Answer? && second.status == 429))
              && (o.hadNonJson <==> (first.Answer? && first.status == 200) || (second.Answer? && second.status == 200))
    ensures Hiccup(first) && second.Answer? && second.status != 200 && second.status != 429 ==>
              Verdict(first, second).Failed? && Verdict(first, second).reason == Http(second.status)
  {
  }

  // ---- The walk ----

  predicate Short(o: PageOutcome) { o.Fetched? && |o.products| < PAGE_LIMIT }

  /** The outcomes of the pages fetched from `page` on. */
  function Walk(server: Behaviour, page: nat): (outcomes: seq<PageOutcome>)
    decreases MAX_PAGES + 1 - page
  {
    if page > MAX_PAGES then []
    else
      var o := PageAt(server, page);
      if o.Failed? || Short(o) then [o] else [o] + Walk(server, page + 1)
  }

  function Count(p: PageOutcome -> bool, outcomes: seq<PageOutcome>): (n: nat)
  {
    if outcomes == [] then 0
    else Count(p, outcomes[..|outcomes| - 1]) + if p(outcomes[|outcomes| - 1]) then 1 else 0
  }

  predicate Had429(o: PageOutcome) { o.had429 }

  predicate HadNonJson(o: PageOutcome) { o.hadNonJson }

  predicate Retried(o: PageOutcome) { o.attempts > 1 }

  predicate Recovered(o: PageOutcome) { o.Fetched? && o.attempts > 1 }

  predicate Lost(o: PageOutcome) { o.Failed? && o.attempts > 1 }

  /** The product lists of the leading pages that came through. */
  function Pages(outcomes: seq<PageOutcome>): (pages: seq<seq<Product>>)
  {
    if outcomes == [] || outcomes[0].Failed? then [] else [outcomes[0].products] + Pages(outcomes[1..])
  }

  function IdsOf(products: seq<Product>): (ids: set<string>)
  {
    set p | p in products :: p.id
  }

  /** The failures a walk reports, by how it ended. */
  function FailuresOf(outcomes: seq<PageOutcome>): (failures: seq<Failure>)
    requires outcomes != []
  {
    var last := outcomes[|outcomes| - 1];
    if last.Failed? then [PageFailed(|outcomes|, last.reason)] else if Short(last) then [] else [HitPageCap]
  }

  function Summary(outcomes: seq<PageOutcome>): (r: SweepResult)
    requires outcomes != []
  {
    var products := Flatten(Pages(outcomes));
    SweepResult(
      products, |IdsOf(products)|, |Pages(outcomes)|, FailuresOf(outcomes),
      Count(Had429, outcomes), Count(HadNonJson, outcomes), Count(Retried, outcomes), Count(Recovered, outcomes),
      FailuresOf(outcomes) == [HitPageCap])
  }

  /** The requests behind the outcomes of the pages `page`, `page + 1`, …: one or two each, in order. */
  function Requests(outcomes: seq<PageOutcome>): (asked: seq<(nat, nat)>)
  {
    if outcomes == [] then []
    else
      var n := |outcomes|;
      Requests(outcomes[..n - 1]) + [(n, 1)] + if outcomes[n - 1].attempts > 1 then [(n, 2)] else []
  }

  // ---- What every walk satisfies ----

  /** Every page but the last came through full; the walk ends on a failure, a short page or the cap. */
  lemma {:induction false} WalkShape(server: Behaviour, page: nat)
    requires 1 <= page <= MAX_PAGES
    ensures var os := Walk(server, page);
            1 <= |os| <= MAX_PAGES + 1 - page
            && (forall k :: 0 <= k < |os| ==> os[k] == PageAt(server, page + k))
            && (forall k :: 0 <= k < |os| - 1 ==> os[k].Fetched? && !Short(os[k]))
            && (os[|os| - 1].Failed? || Short(os[|os| - 1]) || |os| == MAX_PAGES + 1 - page)
    decreases MAX_PAGES - page
  {
    hide PageAt;
    var o := PageAt(server, page);
    var os := Walk(server, page);
    if !o.Failed? && !Short(o) {
      if page == MAX_PAGES {
        assert Walk(server, page + 1) == [];
      } else {
        WalkShape(server, page + 1);
        assert os == [o] + Walk(server, page + 1);
        assert forall k :: 1 <= k < |os| ==> os[k] == PageAt(server, page + 1 + (k - 1));
      }
    }
  }

  lemma {:induction false} PagesOfPrefix(outcomes: seq<PageOutcome>)
    requires outcomes != []
    requires forall k :: 0 <= k < |outcomes| - 1 ==> outcomes[k].Fetched?
    ensures var last := outcomes[|outcomes| - 1];
            |Pages(outcomes)| == |outcomes| - (if last.Failed? then 1 else 0)
            && (forall k :: 0 <= k < |Pages(outcomes)| ==>
                  outcomes[k].Fetched? && Pages(outcomes)[k] == outcomes[k].products)
  {
    if |outcomes| > 1 {
      PagesOfPrefix(outcomes[1..]);
      assert Pages(outcomes) == [outcomes[0].products] + Pages(outcomes[1..]);
    }
  }

  /** The pages collected are the server's pages from the first one on, each of them full but the last. */
  predicate Collects(server: Behaviour, pages: seq<seq<Product>>)
  {
    forall k :: 0 <= k < |pages| ==>
      IsPage(server, k + 1, pages[k]) && (k < |pages| - 1 ==> |pages[k]| >= PAGE_LIMIT)
  }

  predicate IsPage(server: Behaviour, page: nat, products: seq<Product>)
  {
    PageAt(server, page).Fetched? && products == PageAt(server, page).products
  }

  lemma WalkCollects(server: Behaviour)
    ensures Collects(server, Pages(Walk(server, 1)))
  {
    hide PageAt, Walk, Pages;
    WalkShape(server, 1);
    PagesOfPrefix(Walk(server, 1));
    var os, pages := Walk(server, 1), Pages(Walk(server, 1));
    forall k | 0 <= k < |pages|
      ensures IsPage(server, k + 1, pages[k])
      ensures k < |pages| - 1 ==> |pages[k]| >= PAGE_LIMIT
    {
      assert os[k] == PageAt(server, 1 + k);
    }
  }

  /**
   * Against any server: at most 120 pages are fetched with at most two requests each, the products
   * are those of pages 1 to `pagesOk` in order, and the failure list is empty iff the last page was short.
   */
  lemma NoHole(server: Behaviour)
    ensures Walk(server, 1) != []
    ensures var os, r := Walk(server, 1), Summary(Walk(server, 1));
            |os| <= 120 && |Requests(os)| == |os| + r.retriedPages <= 2 * |os|
            && r.products == Flatten(Pages(os)) && |Pages(os)| == r.pagesOk
            && Collects(server, Pages(os))
            && (r.pageFailures == [] <==> PageAt(server, |os|).Fetched? && |PageAt(server, |os|).products| < 250)
            && (r.hitPageCap <==> |os| == 120 && PageAt(server, 120).Fetched? && |PageAt(server, 120).products| >= 250)
            && (PageAt(server, |os|).Failed? ==> r.pageFailures == [PageFailed(|os|, PageAt(server, |os|).reason)])
  {
    hide PageAt, Walk, Pages, Flatten, Requests, Count, IdsOf, Collects;
    WalkShape(server, 1);
    WalkCollects(server);
    var os := Walk(server, 1);
    PagesOfPrefix(os);
    RequestCount(os);
    assert os[|os| - 1] == PageAt(server, |os|);
  }

  lemma {:induction false} RequestCount(outcomes: seq<PageOutcome>)
    ensures |Requests(outcomes)| == |outcomes| + Count(Retried, outcomes)
    ensures Count(Retried, outcomes) <= |outcomes|
  {
    if outcomes != [] {
      RequestCount(outcomes[..|outcomes| - 1]);
    }
  }

  lemma {:induction false} CountSplit(
      p: PageOutcome -> bool, q: PageOutcome -> bool, r: PageOutcome -> bool, outcomes: seq<PageOutcome>)
    requires forall o :: p(o) <==> q(o) || r(o)
    requires forall o :: !(q(o) && r(o))
    ensures Count(p, outcomes) == Count(q, outcomes) + Count(r, outcomes)
  {
    if outcomes != [] {
      CountSplit(p, q, r, outcomes[..|outcomes| - 1]);
    }
  }

  lemma {:induction false} CountNone(p: PageOutcome -> bool, outcomes: seq<PageOutcome>)
    requires forall k :: 0 <= k < |outcomes| ==> !p(outcomes[k])
    ensures Count(p, outcomes) == 0
  {
    if outcomes != [] {
      CountNone(p, outcomes[..|outcomes| - 1]);
    }
  }

  lemma {:induction false} CountIs(p: PageOutcome -> bool, outcomes: seq<PageOutcome>)
    ensures Count(p, outcomes) == |Places(outcomes, p)|
  {
    if outcomes != [] {
      CountIs(p, outcomes[..|outcomes| - 1]);
      OneMorePlace(outcomes, p);
    }
  }

  lemma Throttled(os: seq<PageOutcome>)
    ensures Count(Had429, os) == |set k: nat | k < |os| && os[k].had429|
  {
    var p: PageOutcome -> bool := Had429;
    CountIs(p, os);
    assert Places(os, p) == set k: nat | k < |os| && os[k].had429;
  }

  lemma Babbled(os: seq<PageOutcome>)
    ensures Count(HadNonJson, os) == |set k: nat | k < |os| && os[k].hadNonJson|
  {
    var p: PageOutcome -> bool := HadNonJson;
    CountIs(p, os);
    assert Places(os, p) == set k: nat | k < |os| && os[k].hadNonJson;
  }

  lemma AskedTwice(os: seq<PageOutcome>)
    ensures Count(Retried, os) == |set k: nat | k < |os| && os[k].attempts > 1|
  {
    var p: PageOutcome -> bool := Retried;
    CountIs(p, os);
    assert Places(os, p) == set k: nat | k < |os| && os[k].attempts > 1;
  }

  lemma CameBack(os: seq<PageOutcome>)
    ensures Count(Recovered, os) == |set k: nat | k < |os| && os[k].attempts > 1 && os[k].Fetched?|
  {
    var p: PageOutcome -> bool := Recovered;
    CountIs(p, os);
    assert Places(os, p)
        == set k: nat | k < |os| && os[k].attempts > 1 && os[k].Fetched?;
  }

  /** What the summary's figures count: the pages throttled, babbled at, retried, and recovered by it. */
  lemma FiguresAre(server: Behaviour)
    ensures Walk(server, 1) != []
    ensures var os, r := Walk(server, 1), Summary(Walk(server, 1));
            && r.distinctIds == |set p | p in r.products :: p.id|
            && r.http429Count == |set k: nat | k < |os| && os[k].had429|
            && r.nonJsonCount == |set k: nat | k < |os| && os[k].hadNonJson|
            && r.retriedPages == |set k: nat | k < |os| && os[k].attempts > 1|
            && r.recoveredRetries == |set k: nat | k < |os| && os[k].attempts > 1 && os[k].Fetched?|
  {
    hide PageAt, Walk, Pages, Flatten, Count, Had429, HadNonJson, Retried, Recovered;
    WalkShape(server, 1);
    var os := Walk(server, 1);
    Throttled(os);
    Babbled(os);
    AskedTwice(os);
    CameBack(os);
  }

  /** Retries and recoveries differ by one exactly when the walk died on a page it had retried. */
  lemma RetryBalance(server: Behaviour)
    ensures Walk(server, 1) != []
    ensures var os, r := Walk(server, 1), Summary(Walk(server, 1));
            r.retriedPages - r.recoveredRetries
              == (if os[|os| - 1].Failed? && os[|os| - 1].attempts > 1 then 1 else 0)
            && (r.retriedPages > r.recoveredRetries ==> r.pageFailures != [])
  {
    hide PageAt;
    WalkShape(server, 1);
    var os := Walk(server, 1);
    CountSplit(Retried, Recovered, Lost, os);
    CountNone(Lost, os[..|os| - 1]);
  }

  // ---- A server that pages through one catalog ----

  function PageOf(catalog: seq<Product>, page: nat): (products: seq<Product>)
    requires page >= 1
  {
    var from := (page - 1) * PAGE_LIMIT;
    if from <= |catalog| then Slice(catalog, from, PAGE_LIMIT) else []
  }

  /** It may throttle, fail or babble, but a product list it does send is the page that was asked for. */
  ghost predicate Serves(server: Behaviour, catalog: seq<Product>)
  {
    forall page: nat :: 1 <= page <= MAX_PAGES && PageAt(server, page).Fetched? ==>
      PageAt(server, page).products == PageOf(catalog, page)
  }

  predicate Clean(outcomes: seq<PageOutcome>)
  {
    outcomes != [] && Short(outcomes[|outcomes| - 1])
  }

  /** The number of the first page that is not full. */
  function LastPage(catalog: seq<Product>): (page: nat)
  {
    |catalog| / PAGE_LIMIT + 1
  }

  ghost predicate AllFetched(server: Behaviour, from: nat, to: nat)
  {
    forall page: nat :: from <= page <= to ==> PageAt(server, page).Fetched?
  }

  lemma WalkStep(server: Behaviour, page: nat)
    requires page <= MAX_PAGES
    ensures var o := PageAt(server, page);
            Walk(server, page) == [o] + if o.Failed? || Short(o) then [] else Walk(server, page + 1)
    ensures Walk(server, MAX_PAGES + 1) == [] && Flatten(Pages([])) == []
  {
  }

  lemma CollectedStep(o: PageOutcome, later: seq<PageOutcome>)
    ensures Flatten(Pages([o] + later)) == if o.Failed? then [] else o.products + Flatten(Pages(later))
  {
    assert ([o] + later)[1..] == later;
    if o.Fetched? {
      assert Pages([o] + later) == [o.products] + Pages(later);
    }
  }

  lemma PageCuts(catalog: seq<Product>, page: nat)
    requires page >= 1 && (page - 1) * PAGE_LIMIT <= |catalog| && |PageOf(catalog, page)| >= PAGE_LIMIT
    ensures page * PAGE_LIMIT <= |catalog|
    ensures catalog[(page - 1) * PAGE_LIMIT..] == PageOf(catalog, page) + catalog[page * PAGE_LIMIT..]
  {
  }

  lemma PutBefore(a: seq<Product>, x: seq<Product>, y: seq<Product>)
    ensures x <= y ==> a + x <= a + y
  {
  }

  lemma CleanCons(o: PageOutcome, later: seq<PageOutcome>)
    ensures Clean([o] + later) <==> if later == [] then Short(o) else Clean(later)
  {
  }

  lemma {:induction false} CollectedPrefix(server: Behaviour, catalog: seq<Product>, page: nat)
    requires Serves(server, catalog)
    requires 1 <= page <= MAX_PAGES && (page - 1) * PAGE_LIMIT <= |catalog|
    ensures var os, rest := Walk(server, page), catalog[(page - 1) * PAGE_LIMIT..];
            Flatten(Pages(os)) <= rest && (Clean(os) ==> Flatten(Pages(os)) == rest)
    decreases MAX_PAGES - page
  {
    hide PageAt, Walk, Flatten, Pages, Clean;
    var o := PageAt(server, page);
    WalkStep(server, page);
    assert o.Fetched? ==> o.products == PageOf(catalog, page);
    var later := if o.Failed? || Short(o) then [] else Walk(server, page + 1);
    CleanCons(o, later);
    CollectedStep(o, later);
    if o.Fetched? && !Short(o) {
      PageCuts(catalog, page);
      hide PageOf, Serves, Short;
      if page < MAX_PAGES {
        CollectedPrefix(server, catalog, page + 1);
        WalkShape(server, page + 1);
      }
      PutBefore(o.products, Flatten(Pages(later)), catalog[page * PAGE_LIMIT..]);
    }
  }

  lemma {:induction false} CleanIff(server: Behaviour, catalog: seq<Product>, page: nat)
    requires Serves(server, catalog)
    requires 1 <= page <= MAX_PAGES && page <= LastPage(catalog)
    ensures Clean(Walk(server, page))
       <==> LastPage(catalog) <= MAX_PAGES && AllFetched(server, page, LastPage(catalog))
    decreases MAX_PAGES - page
  {
    hide PageAt, Walk;
    var o := PageAt(server, page);
    WalkStep(server, page);
    if o.Failed? {
    } else if Short(o) {
      assert o.products == PageOf(catalog, page);
      assert page == LastPage(catalog);
    } else {
      assert o.products == PageOf(catalog, page);
      assert page < LastPage(catalog);
      if page < MAX_PAGES {
        CleanIff(server, catalog, page + 1);
        WalkShape(server, page + 1);
      }
    }
  }

  /**
   * The census: what is collected is always a prefix of the catalog, and the failure list is empty
   * iff the catalog is under the cap and each of its pages came through, in which case all of it is collected.
   */
  lemma CensusIsComplete(server: Behaviour, catalog: seq<Product>)
    requires Serves(server, catalog)
    ensures Walk(server, 1) != []
    ensures var r := Summary(Walk(server, 1));
            r.products <= catalog
            && (r.pageFailures == [] ==> r.products == catalog && r.distinctIds == |IdsOf(catalog)|)
            && (r.pageFailures == [] <==>
                  |catalog| < 120 * 250 && AllFetched(server, 1, |catalog| / 250 + 1))
  {
    hide PageAt, Walk, Pages, Flatten, Count, IdsOf;
    WalkShape(server, 1);
    CollectedPrefix(server, catalog, 1);
    CleanIff(server, catalog, 1);
    assert catalog[0..] == catalog;
  }

  // ---- The imperative form ----

  class Server {
    const reply: Behaviour
    var asked: seq<(nat, nat)>

    method FetchText(page: nat, attempt: nat) returns (r: Reply)
      modifies this
      ensures r == reply(page, attempt) && asked == old(asked) + [(page, attempt)]
    {
      asked := asked + [(page, attempt)];
      r := reply(page, attempt);
    }
  }

  method FetchPage(server: Server, page: nat) returns (outcome: PageOutcome)
    modifies server
    ensures outcome == PageAt(server.reply, page)
    ensures server.asked
         == old(server.asked) + [(page, 1)] + if outcome.attempts > 1 then [(page, 2)] else []
  {
    var attempts, had429, hadNonJson := 0, false, false;
    for attempt := 1 to 3
      invariant attempts == attempt - 1
      invariant attempt == 1 ==> server.asked == old(server.asked) && !had429 && !hadNonJson
      invariant attempt > 1 ==>
                  Retriable(server.reply(page, 1))
                  && had429 == (Is429(server.reply(page, 1)) || (attempt > 2 && Is429(server.reply(page, 2))))
                  && hadNonJson
                     == (IsNonJson(server.reply(page, 1)) || (attempt > 2 && IsNonJson(server.reply(page, 2))))
      invariant attempt == 2 ==> server.asked == old(server.asked) + [(page, 1)]
      invariant attempt == 3 ==> server.asked == old(server.asked) + [(page, 1), (page, 2)]
                                 && Retriable(server.reply(page, 2)) && !server.reply(page, 2).Thrown?
    {
      attempts := attempt;
      var r := server.FetchText(page, attempt);
      if r.Thrown? {
        if attempt == 2 {
          return Failed(FetchError(r.message), attempts, had429, hadNonJson);
        }
        continue;
      }
      if r.status == 429 {
        had429 := true;
        continue;
      }
      if r.status != 200 {
        return Failed(Http(r.status), attempts, had429, hadNonJson);
      }
      if r.products.None? {
        hadNonJson := true;
        continue;
      }
      return Fetched(r.products.value, attempts, had429, hadNonJson);
    }
    return Failed(if had429 then TooManyRequests else NonJsonBody, attempts, had429, hadNonJson);
  }

  lemma {:induction false} PagesExtend(outcomes: seq<PageOutcome>, o: PageOutcome)
    requires forall k :: 0 <= k < |outcomes| ==> outcomes[k].Fetched?
    ensures Pages(outcomes + [o]) == Pages(outcomes) + if o.Fetched? then [o.products] else []
    ensures |Pages(outcomes)| == |outcomes|
  {
    if outcomes == [] {
      assert outcomes + [o] == [o] && [o][1..] == [];
    } else {
      PagesExtend(outcomes[1..], o);
      assert (outcomes + [o])[1..] == outcomes[1..] + [o];
    }
  }

  /** What one more outcome adds to each of the tallies. */
  lemma TallyExtends(outcomes: seq<PageOutcome>, o: PageOutcome)
    requires forall k :: 0 <= k < |outcomes| ==> outcomes[k].Fetched?
    ensures forall p: PageOutcome -> bool ::
              Count(p, outcomes + [o]) == Count(p, outcomes) + if p(o) then 1 else 0
    ensures Flatten(Pages(outcomes + [o]))
         == Flatten(Pages(outcomes)) + if o.Fetched? then o.products else []
    ensures |Pages(outcomes + [o])| == |outcomes| + if o.Fetched? then 1 else 0
  {
    assert (outcomes + [o])[..|outcomes|] == outcomes;
    PagesExtend(outcomes, o);
    if o.Fetched? {
      FlattenAppend(Pages(outcomes), [o.products]);
      assert [o.products][1..] == [];
      assert Flatten([o.products]) == o.products + Flatten([]);
    } else {
      assert Pages(outcomes) + [] == Pages(outcomes);
    }
  }

  lemma RequestsExtend(outcomes: seq<PageOutcome>, o: PageOutcome)
    ensures Requests(outcomes + [o])
         == Requests(outcomes) + [(|outcomes| + 1, 1)] + if o.attempts > 1 then [(|outcomes| + 1, 2)] else []
  {
    assert (outcomes + [o])[..|outcomes|] == outcomes;
  }

  /** The running totals of the page loop over the outcomes so far. */
  predicate Tallied(
    outcomes: seq<PageOutcome>, products: seq<Product>, ids: set<string>, pagesOk: nat, http429Count: nat,
    nonJsonCount: nat, retriedPages: nat, recoveredRetries: nat)
  {
    && products == Flatten(Pages(outcomes)) && ids == IdsOf(products) && pagesOk == |Pages(outcomes)|
    && http429Count == Count(Had429, outcomes) && nonJsonCount == Count(HadNonJson, outcomes)
    && retriedPages == Count(Retried, outcomes) && recoveredRetries == Count(Recovered, outcomes)
  }

  lemma NothingYet(server: Behaviour)
    ensures forall p: PageOutcome -> bool :: Count(p, []) == 0
    ensures Tallied([], [], {}, 0, 0, 0, 0, 0) && Requests([]) == [] && Midway(server, [], 1)
  {
  }

  lemma TalliedStep(
      past: seq<PageOutcome>, o: PageOutcome, products: seq<Product>, ids: set<string>, pagesOk: nat,
      http429Count: nat, nonJsonCount: nat, retriedPages: nat, recoveredRetries: nat)
    requires forall k :: 0 <= k < |past| ==> past[k].Fetched?
    requires Tallied(past, products, ids, pagesOk, http429Count, nonJsonCount, retriedPages, recoveredRetries)
    ensures Tallied(
              past + [o],
              if o.Fetched? then products + o.products else products,
              if o.Fetched? then ids + (set p | p in o.products :: p.id) else ids,
              pagesOk + (if o.Fetched? then 1 else 0),
              http429Count + (if o.had429 then 1 else 0), nonJsonCount + (if o.hadNonJson then 1 else 0),
              retriedPages + (if o.attempts > 1 then 1 else 0),
              recoveredRetries + (if o.Fetched? && o.attempts > 1 then 1 else 0))
  {
    hide Pages, Flatten, Count;
    PagesExtend(past, o);
    TallyExtends(past, o);
    var more := if o.Fetched? then o.products else [];
    assert IdsOf(products + more) == ids + (set p | p in more :: p.id);
    if o.Failed? {
      assert products + more == products;
    }
  }

  lemma SummaryOf(
      past: seq<PageOutcome>, products: seq<Product>, ids: set<string>, pagesOk: nat,
      http429Count: nat, nonJsonCount: nat, retriedPages: nat, recoveredRetries: nat)
    requires past != []
    requires Tallied(past, products, ids, pagesOk, http429Count, nonJsonCount, retriedPages, recoveredRetries)
    ensures Summary(past)
         == SweepResult(
              products, |ids|, pagesOk, FailuresOf(past), http429Count, nonJsonCount, retriedPages, recoveredRetries,
              FailuresOf(past) == [HitPageCap])
  {
    hide Pages, Flatten, Count, FailuresOf, IdsOf;
  }

  /** The pages before `page` have been walked, and the walk goes on from there. */
  ghost predicate Midway(server: Behaviour, past: seq<PageOutcome>, page: nat)
  {
    |past| + 1 == page <= MAX_PAGES + 1 && Walk(server, 1) == past + Walk(server, page)
    && forall k :: 0 <= k < |past| ==> past[k].Fetched? && !Short(past[k])
  }

  lemma WalkGoesOn(server: Behaviour, past: seq<PageOutcome>, page: nat)
    requires Midway(server, past, page) && page <= MAX_PAGES
    ensures forall k :: 0 <= k < |past| ==> past[k].Fetched?
    ensures |past| + 1 == page
    ensures var o := PageAt(server, page);
            if o.Failed? || Short(o) then Walk(server, 1) == past + [o] && FailuresOf(past + [o])
                 == (if o.Failed? then [PageFailed(page, o.reason)] else [])
            else Midway(server, past + [o], page + 1)
                 && (page == MAX_PAGES ==> Walk(server, 1) == past + [o] && FailuresOf(past + [o]) == [HitPageCap])
  {
    hide PageAt, Walk;
    WalkStep(server, page);
  }

  method SweepCatalog(server: Server) returns (r: SweepResult)
    requires server.asked == []
    modifies server
    ensures Walk(server.reply, 1) != []
    ensures r == Summary(Walk(server.reply, 1))
    ensures server.asked == Requests(Walk(server.reply, 1))
  {
    hide PageAt, Walk, Pages, Flatten, Count, Requests, Tallied, Summary, FailuresOf, Midway, Verdict, IdsOf;
    var products: seq<Product>, ids: set<string>, pageFailures: seq<Failure> := [], {}, [];
    var pagesOk, http429Count, nonJsonCount, retriedPages, recoveredRetries := 0, 0, 0, 0, 0;
    var terminated, hitPageCap := false, false;
    ghost var past: seq<PageOutcome> := [];
    NothingYet(server.reply);
    var page := 1;
    while page <= MAX_PAGES && !terminated
      invariant 1 <= page && (page <= MAX_PAGES || terminated || hitPageCap)
      invariant hitPageCap ==> page == MAX_PAGES + 1 && !terminated
      invariant !terminated && !hitPageCap ==> Midway(server.reply, past, page)
      invariant terminated || hitPageCap ==> past != [] && past == Walk(server.reply, 1)
      invariant terminated ==> FailuresOf(past) == []
      invariant hitPageCap ==> FailuresOf(past) == [HitPageCap]
      invariant Tallied(past, products, ids, pagesOk, http429Count, nonJsonCount, retriedPages, recoveredRetries)
      invariant server.asked == Requests(past) && pageFailures == []
      decreases MAX_PAGES + 1 - page, !terminated
    {
      var outcome := FetchPage(server, page);
      WalkGoesOn(server.reply, past, page);
      TalliedStep(past, outcome, products, ids, pagesOk, http429Count, nonJsonCount, retriedPages, recoveredRetries);
      RequestsExtend(past, outcome);
      past := past + [outcome];
      http429Count := http429Count + if outcome.had429 then 1 else 0;
      nonJsonCount := nonJsonCount + if outcome.hadNonJson then 1 else 0;
      if outcome.attempts > 1 {
        retriedPages := retriedPages + 1;
        if outcome.Fetched? {
          recoveredRetries := recoveredRetries + 1;
        }
      }
      if outcome.Failed? {
        pageFailures := pageFailures + [PageFailed(page, outcome.reason)];
        terminated := true;
        break;
      }
      pagesOk := pagesOk + 1;
      products := products + outcome.products;
      ids := ids + set p | p in outcome.products :: p.id;
      if |outcome.products| < PAGE_LIMIT {
        terminated := true;
      } else if page == MAX_PAGES {
        hitPageCap := true;
      }
      page := page + 1;
    }
    if hitPageCap {
      pageFailures := pageFailures + [HitPageCap];
    }
    r := SweepResult(
      products, |ids|, pagesOk, pageFailures, http429Count, nonJsonCount, retriedPages, recoveredRetries, hitPageCap);
    SummaryOf(past, products, ids, pagesOk, http429Count, nonJsonCount, retriedPages, recoveredRetries);
  }
}
