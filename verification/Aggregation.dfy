/**
 * What the backfill script acts on: one D1 database's watermark, observations and daily buckets,
 * the coverage query over them, and the aggregation tick that closes the gaps. The tick follows
 * apps/api-worker/src/cron/time-series-aggregation.ts, its product chunks and cursor included.
 */
module Aggregation {
  import opened Wrappers
  import opened Extremes
  import opened IsoWeek

  /** A `retail_offers` row, mirrored one to one in the observation log. */
  datatype Observation = Observation(product: nat, at: Instant)

  /** A `price_history_summaries` row of daily granularity: its product and its UTC day. */
  datatype Bucket = Bucket(product: nat, day: int)

  /** The two keyed watermark rows (the job's and its pass cursor, 0 when absent) and the tables. */
  datatype Db = Db(watermark: Option<Instant>, cursor: nat, observations: set<Observation>, buckets: set<Bucket>)

  /** The n smallest members, or all of them. */
  function Smallest(s: set<int>, n: nat): (t: set<int>)
    ensures t <= s
    decreases n
  {
    if n == 0 || s == {} then {} else {Least(s)} + Smallest(s - {Least(s)}, n - 1)
  }

  lemma {:induction false} SmallestLaws(s: set<int>, n: nat)
    ensures |s| <= n ==> Smallest(s, n) == s
    ensures |s| > n ==> |Smallest(s, n)| == n
    ensures forall x, y :: x in Smallest(s, n) && y in s - Smallest(s, n) ==> x < y
    decreases n
  {
    if n > 0 && s != {} {
      var least := Least(s);
      var rest := s - {least};
      var below := Smallest(rest, n - 1);
      SmallestLaws(rest, n - 1);
      assert Smallest(s, n) == {least} + below;
      hide Smallest;
      LeastAndBelow(s, least, below);
    }
  }

  lemma LeastAndBelow(s: set<int>, least: int, below: set<int>)
    requires least in s && below <= s - {least} && forall x :: x in s ==> least <= x
    requires forall x, y :: x in below && y in s - {least} - below ==> x < y
    ensures |s - {least}| == |s| - 1 && |{least} + below| == 1 + |below|
    ensures below == s - {least} ==> {least} + below == s
    ensures forall x, y :: x in {least} + below && y in s - ({least} + below) ==> x < y
  {
    forall x, y | x in {least} + below && y in s - ({least} + below)
      ensures x < y
    {
      assert y in s - {least} - below;
    }
  }

  // ---- coverage --------------------------------------------------------------------

  /** The products observed in the window. */
  function Observed(db: Db, cutoff: Instant): (products: set<int>)
  {
    set o | o in db.observations && cutoff <= o.at :: o.product
  }

  /** The products with a daily bucket on or after the cutoff's day. */
  function Summarized(db: Db, cutoff: Instant): (products: set<int>)
  {
    set b | b in db.buckets && Day(cutoff) <= b.day :: b.product
  }

  /** `coverageSql`'s missing products: observed in the window, no daily bucket in it. */
  function Missing(db: Db, cutoff: Instant): (products: set<int>)
  {
    Observed(db, cutoff) - Summarized(db, cutoff)
  }

  /** The in-window instants of the missing products. */
  function UnsummarizedInstants(db: Db, cutoff: Instant): (instants: set<int>)
  {
    set o | o in db.observations && cutoff <= o.at && o.product in Missing(db, cutoff) :: o.at
  }

  lemma MissingHasInstants(db: Db, cutoff: Instant)
    ensures Missing(db, cutoff) != {} <==> UnsummarizedInstants(db, cutoff) != {}
  {
    if Missing(db, cutoff) != {} {
      var p :| p in Missing(db, cutoff);
      var o :| o in db.observations && cutoff <= o.at && o.product == p;
      assert o.at in UnsummarizedInstants(db, cutoff);
    }
    if UnsummarizedInstants(db, cutoff) != {} {
      var at :| at in UnsummarizedInstants(db, cutoff);
    }
  }

  /** `MIN(observed_at)` over the missing products' in-window observations. */
  function Earliest(db: Db, cutoff: Instant): (earliest: Instant)
    requires Missing(db, cutoff) != {}
    ensures forall o :: o in db.observations && cutoff <= o.at && o.product in Missing(db, cutoff) ==> earliest <= o.at
    ensures exists o :: o in db.observations && cutoff <= o.at && o.product in Missing(db, cutoff) && o.at == earliest
  {
    MissingHasInstants(db, cutoff);
    var instants := UnsummarizedInstants(db, cutoff);
    assert forall o :: o in db.observations && cutoff <= o.at && o.product in Missing(db, cutoff) ==> o.at in instants;
    Least(instants)
  }

  // ---- the tick --------------------------------------------------------------------

  /** Products processed per invocation. */
  const AGGREGATION_CHUNK_PRODUCTS := 300

  /** At or after the watermark; everything when there is none. */
  predicate IsActive(db: Db, o: Observation) { db.watermark.None? || db.watermark.value <= o.at }

  /** Inside the partitions read: from the watermark's ISO-week Monday on. */
  predicate IsScanned(db: Db, o: Observation) { db.watermark.None? || StartOfIsoWeek(db.watermark.value) <= o.at }

  function ActiveProducts(db: Db): (products: set<int>)
  {
    set o | o in db.observations && IsActive(db, o) :: o.product
  }

  function ActiveInstants(db: Db): (instants: set<int>)
  {
    set o | o in db.observations && IsActive(db, o) :: o.at
  }

  /** The active products the pass has not reached yet. */
  function Pending(db: Db): (products: set<int>)
  {
    set p | p in ActiveProducts(db) && p > db.cursor
  }

  /** The id-ascending slice just above the cursor. */
  function Slice(db: Db): (products: set<int>) { Smallest(Pending(db), AGGREGATION_CHUNK_PRODUCTS) }

  predicate IsFinalChunk(db: Db) { Pending(db) <= Slice(db) }

  /** Every daily bucket of the slice's products, from all their scanned observations. */
  function WrittenBuckets(db: Db): (buckets: set<Bucket>)
  {
    set o | o in db.observations && IsScanned(db, o) && o.product in Slice(db) :: Bucket(o.product, Day(o.at))
  }

  function WithBuckets(db: Db): (written: Db) { db.(buckets := db.buckets + WrittenBuckets(db)) }

  lemma ActiveHasInstants(db: Db)
    ensures ActiveProducts(db) == {} <==> ActiveInstants(db) == {}
  {
    if ActiveProducts(db) != {} {
      var p :| p in ActiveProducts(db);
      var o :| o in db.observations && IsActive(db, o) && o.product == p;
      assert o.at in ActiveInstants(db);
    }
    if ActiveInstants(db) != {} {
      var at :| at in ActiveInstants(db);
      var o :| o in db.observations && IsActive(db, o) && o.at == at;
      assert o.product in ActiveProducts(db);
    }
  }

  /** The watermark a completed pass leaves: the activity high water, never backwards. */
  function Advanced(db: Db): (watermark: Instant)
    requires ActiveProducts(db) != {}
    ensures db.watermark.Some? ==> db.watermark.value <= watermark
    ensures forall o :: o in db.observations && IsActive(db, o) ==> o.at <= watermark
  {
    ActiveHasInstants(db);
    var highWater := Greatest(ActiveInstants(db));
    assert forall o :: o in db.observations && IsActive(db, o) ==> o.at in ActiveInstants(db);
    if db.watermark.Some? && db.watermark.value > highWater then db.watermark.value else highWater
  }

  /**
   * One invocation: recompute the slice's buckets, then either complete the pass (advance the
   * watermark, drop the cursor) or move the cursor to the slice's last product.
   */
  function Tick(db: Db): (after: Db)
  {
    if ActiveProducts(db) == {} then db
    else
      var written := WithBuckets(db);
      if IsFinalChunk(db) then written.(watermark := Some(Advanced(db)), cursor := 0)
      else
        SliceNonEmpty(db);
        written.(cursor := Greatest(Slice(db)))
  }

  lemma SliceNonEmpty(db: Db)
    ensures !IsFinalChunk(db) ==> Slice(db) != {} && Greatest(Slice(db)) > db.cursor
  {
    if !IsFinalChunk(db) {
      SmallestLaws(Pending(db), AGGREGATION_CHUNK_PRODUCTS);
      assert Pending(db) != {};
      if |Pending(db)| > AGGREGATION_CHUNK_PRODUCTS {
        assert |Slice(db)| == AGGREGATION_CHUNK_PRODUCTS;
        assert Slice(db) != {};
      }
      assert Greatest(Slice(db)) in Pending(db);
    }
  }

  /** A tick processes the next three hundred products, or all that are left. */
  lemma SliceSize(db: Db)
    ensures |Slice(db)| == if |Pending(db)| <= 300 then |Pending(db)| else 300
    ensures forall p, q :: p in Slice(db) && q in Pending(db) - Slice(db) ==> p < q
  {
    hide Pending;
    SmallestLaws(Pending(db), AGGREGATION_CHUNK_PRODUCTS);
  }

  /**
   * The buckets a tick adds are those of whole days: each is a day on which the product was observed,
   * from the Monday of the watermark's week on, and no observation of such a day was left unread.
   */
  lemma TickBuckets(db: Db, b: Bucket)
    ensures b in Tick(db).buckets
       <==> || b in db.buckets
            || (b.product in Slice(db)
                && (db.watermark.Some? ==> Day(StartOfIsoWeek(db.watermark.value)) <= b.day)
                && exists o :: o in db.observations && o.product == b.product && Day(o.at) == b.day)
  {
    hide Slice, IsFinalChunk;
    if db.watermark.Some? {
      AnchorLaws(db.watermark.value, db.watermark.value);
    }
    SliceIsPending(db);
    if ActiveProducts(db) == {} {
      assert b.product !in Slice(db);
    }
    forall o | o in db.observations
      ensures IsScanned(db, o) <==> db.watermark.Some? ==> Day(StartOfIsoWeek(db.watermark.value)) <= Day(o.at)
    {
    }
  }

  /** A tick never moves the watermark back, never loses a bucket, never touches observations. */
  lemma TickMonotone(db: Db)
    ensures Tick(db).observations == db.observations && db.buckets <= Tick(db).buckets
    ensures db.watermark.Some? ==> Tick(db).watermark.Some? && db.watermark.value <= Tick(db).watermark.value
  {
  }

  // ---- gap closing -----------------------------------------------------------------

  /** The scan reaches every gap: what lowering the watermark is for. */
  predicate Reaches(db: Db, cutoff: Instant)
  {
    db.watermark.None?
    || forall o :: o in db.observations && cutoff <= o.at && o.product in Missing(db, cutoff)
         ==> db.watermark.value <= o.at
  }

  /** A missing product the scan reaches is active. */
  lemma ReachedIsActive(db: Db, cutoff: Instant, p: int)
    requires Reaches(db, cutoff) && p in Missing(db, cutoff)
    ensures p in ActiveProducts(db)
  {
    var o :| o in db.observations && cutoff <= o.at && o.product == p;
    assert IsActive(db, o);
  }

  /** Processing a missing product closes its gap: some observation of it is both in the window and scanned. */
  lemma ProcessedIsSummarized(db: Db, cutoff: Instant, p: int)
    requires p in Missing(db, cutoff) && p in Slice(db)
    ensures p in Summarized(WithBuckets(db), cutoff)
  {
    var inWindow :| inWindow in db.observations && cutoff <= inWindow.at && inWindow.product == p;
    assert p in ActiveProducts(db);
    var active :| active in db.observations && IsActive(db, active) && active.product == p;
    var o := if db.watermark.Some? && cutoff <= db.watermark.value then active else inWindow;
    if db.watermark.Some? {
      AnchorLaws(db.watermark.value, db.watermark.value);
    }
    assert cutoff <= o.at && IsScanned(db, o);
    assert Bucket(o.product, Day(o.at)) in WrittenBuckets(db);
  }

  lemma NewlySummarized(db: Db, cutoff: Instant)
    ensures Summarized(db, cutoff) <= Summarized(WithBuckets(db), cutoff) <= Summarized(db, cutoff) + Slice(db)
  {
    forall p | p in Summarized(db, cutoff)
      ensures p in Summarized(WithBuckets(db), cutoff)
    {
      var b :| b in db.buckets && Day(cutoff) <= b.day && b.product == p;
      assert b in WithBuckets(db).buckets;
    }
  }

  /** One tick closes exactly the gaps of the products it processes. */
  lemma TickCloses(db: Db, cutoff: Instant)
    ensures Missing(Tick(db), cutoff) == Missing(db, cutoff) - Slice(db)
  {
    hide Slice, WrittenBuckets, Summarized, Observed, IsFinalChunk;
    var written := WithBuckets(db);
    NewlySummarized(db, cutoff);
    ObservedOnly(db, written, cutoff);
    forall p | p in Missing(db, cutoff) && p in Slice(db)
      ensures p in ActiveProducts(db) && p in Summarized(written, cutoff)
    {
      ProcessedIsSummarized(db, cutoff, p);
      SliceIsPending(db);
    }
    assert Missing(written, cutoff) == Missing(db, cutoff) - Slice(db);
    if ActiveProducts(db) != {} {
      ObservedOnly(written, Tick(db), cutoff);
    }
  }

  /** Coverage reads observations and buckets only. */
  lemma ObservedOnly(a: Db, b: Db, cutoff: Instant)
    ensures a.observations == b.observations ==> Observed(a, cutoff) == Observed(b, cutoff)
    ensures a.buckets == b.buckets ==> Summarized(a, cutoff) == Summarized(b, cutoff)
    ensures a.observations == b.observations && a.buckets == b.buckets ==> Missing(a, cutoff) == Missing(b, cutoff)
  {
  }

  /** The active products a pass has yet to process before it is through with `last`. */
  function Queue(db: Db, last: int): (products: set<int>)
  {
    set p | p in ActiveProducts(db) && db.cursor < p <= last
  }

  /** Every missing product is active and not passed by, and the queue up to the last of them fits one chunk. */
  predicate OneTickSuffices(db: Db, cutoff: Instant)
  {
    Missing(db, cutoff) == {}
    || (Missing(db, cutoff) <= Pending(db)
        && |Queue(db, Greatest(Missing(db, cutoff)))| <= AGGREGATION_CHUNK_PRODUCTS)
  }

  /** The slice reaches a set of pending products iff the queue up to the last of them fits it. */
  lemma SliceReachesIff(db: Db, wanted: set<int>)
    requires wanted != {} && wanted <= Pending(db)
    ensures wanted <= Slice(db) <==> |Queue(db, Greatest(wanted))| <= AGGREGATION_CHUNK_PRODUCTS
  {
    hide ActiveProducts, Smallest;
    var last := Greatest(wanted);
    var queue, pending, slice := Queue(db, last), Pending(db), Slice(db);
    SmallestLaws(pending, AGGREGATION_CHUNK_PRODUCTS);
    if wanted <= slice {
      assert last in slice;
      assert forall p :: p in queue ==> p in slice || p in pending - slice;
      SubsetSize(queue, slice);
    } else {
      var q := Outside(wanted, slice);
      forall p | p in slice + {q}
        ensures p in queue
      {
        assert q in pending - slice && q <= last;
      }
      SubsetSize(slice + {q}, queue);
    }
  }

  /**
   * One tick closes every gap exactly when every missing product is active and above the cursor, and
   * at most a chunk of active products lies above it, up to the last missing one.
   */
  lemma OneTickClosesIff(db: Db, cutoff: Instant)
    ensures Missing(Tick(db), cutoff) == {} <==> OneTickSuffices(db, cutoff)
  {
    hide Queue, Slice, Tick, Pending;
    TickCloses(db, cutoff);
    var missing := Missing(db, cutoff);
    SliceIsPending(db);
    if missing != {} && missing <= Pending(db) {
      SliceReachesIff(db, missing);
    }
    if !(missing <= Slice(db)) {
      var p := Outside(missing, Slice(db));
      assert p in missing - Slice(db);
    }
  }

  /** Where the watermark reaches the gaps, the first half of the condition is about the cursor alone. */
  lemma ReachedIsPending(db: Db, cutoff: Instant)
    requires Reaches(db, cutoff)
    ensures Missing(db, cutoff) <= Pending(db) <==> forall p :: p in Missing(db, cutoff) ==> p > db.cursor
  {
    hide Reaches, Missing, ActiveProducts;
    forall p | p in Missing(db, cutoff)
      ensures p in Pending(db) <==> p > db.cursor
    {
      ReachedIsActive(db, cutoff, p);
    }
  }

  lemma SliceIsPending(db: Db)
    ensures Slice(db) <= Pending(db)
    ensures forall p :: p in Pending(db) <==> p in ActiveProducts(db) && p > db.cursor
  {
  }

  /** A gap one tick leaves open: a pass is in flight, and its cursor has gone by the product. */
  lemma OneTickMisses(at: Instant, product: nat, cursor: nat)
    requires product <= cursor
    ensures var db := Db(None, cursor, {Observation(product, at)}, {});
            Reaches(db, at) && Missing(db, at) == {product} && Missing(Tick(db), at) == {product}
  {
    var o := Observation(product, at);
    var db := Db(None, cursor, {o}, {});
    assert o in db.observations;
    assert Missing(db, at) == {product};
    TickCloses(db, at);
    SliceIsPending(db);
  }

  /** The products with few observations: a pass that is not in flight takes in a chunk at once. */
  lemma SmallCatalogSuffices(db: Db, cutoff: Instant)
    requires Reaches(db, cutoff) && db.cursor == 0
    requires 0 !in ActiveProducts(db) && |ActiveProducts(db)| <= AGGREGATION_CHUNK_PRODUCTS
    ensures OneTickSuffices(db, cutoff)
  {
    if Missing(db, cutoff) != {} {
      SubsetSize(Queue(db, Greatest(Missing(db, cutoff))), ActiveProducts(db));
      ReachedIsPending(db, cutoff);
      forall p | p in Missing(db, cutoff)
        ensures p > 0
      {
        ReachedIsActive(db, cutoff, p);
      }
    }
  }

  /** The pass goes on after this tick. */
  predicate GoesOn(db: Db) { ActiveProducts(db) != {} && !IsFinalChunk(db) }

  lemma TickShrinks(db: Db)
    ensures GoesOn(db) ==>
              && Tick(db).watermark == db.watermark && ActiveProducts(Tick(db)) == ActiveProducts(db)
              && Pending(Tick(db)) == Pending(db) - Slice(db)
              && Pending(Tick(db)) < Pending(db)
  {
    hide WrittenBuckets, Smallest;
    if GoesOn(db) {
      SliceNonEmpty(db);
      var after := Tick(db);
      assert forall o :: IsActive(db, o) <==> IsActive(after, o);
      SmallestLaws(Pending(db), AGGREGATION_CHUNK_PRODUCTS);
      var last := Greatest(Slice(db));
      assert last in Pending(db) && last !in Pending(after);
    }
  }

  lemma CursorBetween(db: Db)
    ensures GoesOn(db) ==>
              && Tick(db).cursor > db.cursor
              && forall p :: p in ActiveProducts(db) && p !in Slice(db) && p <= Tick(db).cursor ==> p <= db.cursor
  {
    if GoesOn(db) {
      SliceNonEmpty(db);
      SmallestLaws(Pending(db), AGGREGATION_CHUNK_PRODUCTS);
      forall p | p in ActiveProducts(db) && p !in Slice(db) && p > db.cursor
        ensures p > Tick(db).cursor
      {
        assert p in Pending(db) - Slice(db);
      }
    }
  }

  // ---- passes ----------------------------------------------------------------------

  /** What ingestion appended before the next tick: `turns` has an entry for each of the ticks to come, or none. */
  function Fed(db: Db, turns: seq<set<Observation>>): (fed: Db)
  {
    if turns == [] then db else db.(observations := db.observations + turns[0])
  }

  function Later(turns: seq<set<Observation>>): (rest: seq<set<Observation>>)
  {
    if turns == [] then [] else turns[1..]
  }

  /** What the ticks of a pass find, up to and including the tick that completes it. */
  function Moments(db: Db, turns: seq<set<Observation>>): (dbs: seq<Db>)
    ensures dbs != []
    decreases |turns|, Pending(db)
  {
    var fed := Fed(db, turns);
    if !GoesOn(fed) then [fed]
    else
      TickShrinks(fed);
      [fed] + Moments(Tick(fed), Later(turns))
  }

  /** What the completing tick finds. */
  function Last(db: Db, turns: seq<set<Observation>>): (last: Db)
  {
    Moments(db, turns)[|Moments(db, turns)| - 1]
  }

  /** The pass from here on, with observations appended between its ticks. */
  function Pass(db: Db, turns: seq<set<Observation>>): (after: Db) { Tick(Last(db, turns)) }

  lemma PassStep(db: Db, turns: seq<set<Observation>>)
    ensures var fed := Fed(db, turns);
            if GoesOn(fed) then
              Moments(db, turns) == [fed] + Moments(Tick(fed), Later(turns))
              && Last(db, turns) == Last(Tick(fed), Later(turns)) && Pass(db, turns) == Pass(Tick(fed), Later(turns))
            else Moments(db, turns) == [fed] && Last(db, turns) == fed && Pass(db, turns) == Tick(fed)
  {
    hide Tick, GoesOn, Fed;
  }

  /** Some tick of the pass found the product missing and its own cursor past it. */
  predicate IsBehind(db: Db, turns: seq<set<Observation>>, cutoff: Instant, p: int)
  {
    BehindIn(Moments(db, turns), cutoff, p)
  }

  predicate BehindIn(moments: seq<Db>, cutoff: Instant, p: int)
  {
    exists k :: 0 <= k < |moments| && p in Missing(moments[k], cutoff) && p <= moments[k].cursor
  }

  lemma BehindCons(first: Db, rest: seq<Db>, cutoff: Instant, p: int)
    ensures BehindIn([first] + rest, cutoff, p)
       <==> (p in Missing(first, cutoff) && p <= first.cursor) || BehindIn(rest, cutoff, p)
    ensures !BehindIn([], cutoff, p)
  {
    hide Missing;
    var all := [first] + rest;
    assert all[0] == first && forall k :: 0 <= k < |rest| ==> rest[k] == all[k + 1];
  }

  /** An append takes no activity and no gap away. */
  lemma FedGrows(db: Db, turns: seq<set<Observation>>, cutoff: Instant)
    ensures Observed(db, cutoff) <= Observed(Fed(db, turns), cutoff)
    ensures Summarized(db, cutoff) == Summarized(Fed(db, turns), cutoff)
    ensures Missing(db, cutoff) <= Missing(Fed(db, turns), cutoff)
    ensures Pending(db) <= Pending(Fed(db, turns)) && ActiveProducts(db) <= ActiveProducts(Fed(db, turns))
  {
  }

  lemma BehindStep(db: Db, turns: seq<set<Observation>>, cutoff: Instant, p: int)
    ensures var fed := Fed(db, turns);
            IsBehind(db, turns, cutoff, p) <==>
              || (p in Missing(fed, cutoff) && p <= fed.cursor)
              || (GoesOn(fed) && IsBehind(Tick(fed), Later(turns), cutoff, p))
  {
    hide Missing, Tick, GoesOn, Fed, Moments, BehindIn;
    var fed := Fed(db, turns);
    PassStep(db, turns);
    BehindCons(fed, if GoesOn(fed) then Moments(Tick(fed), Later(turns)) else [], cutoff, p);
    assert [fed] + [] == [fed];
  }

  /**
   * What a whole pass leaves missing, however many ticks it takes and whatever is appended between
   * them: what is missing at its last tick and was passed by while missing, or is not active.
   */
  lemma {:induction false} PassLeaves(db: Db, turns: seq<set<Observation>>, cutoff: Instant, p: int)
    ensures p in Missing(Pass(db, turns), cutoff)
       <==> || IsBehind(db, turns, cutoff, p)
            || (p in Missing(Last(db, turns), cutoff) && p !in ActiveProducts(Last(db, turns)))
    decreases |turns|, Pending(db)
  {
    hide Fed, IsBehind, Moments, Missing, ActiveProducts, WrittenBuckets, Last, Pass;
    var fed := Fed(db, turns);
    PassStep(db, turns);
    BehindStep(db, turns, cutoff, p);
    TickCloses(fed, cutoff);
    SliceIsPending(fed);
    if GoesOn(fed) {
      FedUnlessDone(db, turns);
      var next := Tick(fed);
      PassLeaves(next, Later(turns), cutoff, p);
      BehindStep(next, Later(turns), cutoff, p);
      FedGrows(next, Later(turns), cutoff);
      CursorBetween(fed);
      FedCursor(next, Later(turns));
    }
  }

  lemma FedCursor(db: Db, turns: seq<set<Observation>>)
    ensures Fed(db, turns).cursor == db.cursor && Fed(db, turns).watermark == db.watermark
    ensures db.observations <= Fed(db, turns).observations
  {
  }

  /** Why a pass ends: once the appends are over, each tick takes products off the queue. */
  lemma FedUnlessDone(db: Db, turns: seq<set<Observation>>)
    ensures turns == [] ==> Fed(db, turns) == db && (GoesOn(db) ==> Pending(Tick(db)) < Pending(db))
    ensures turns != [] ==> |Later(turns)| < |turns|
    ensures turns == [] ==> Later(turns) == []
  {
    TickShrinks(db);
  }

  /** A product pending when a pass starts is summarized when it ends. */
  lemma {:induction false} PendingIsClosed(db: Db, turns: seq<set<Observation>>, cutoff: Instant, p: int)
    requires p in Summarized(db, cutoff) || (p in Observed(db, cutoff) && p in Pending(db))
    ensures p !in Missing(Pass(db, turns), cutoff)
    decreases |turns|, Pending(db)
  {
    hide Fed, Moments, Summarized, Observed, WrittenBuckets, Last, Pass, ActiveProducts;
    var fed := Fed(db, turns);
    PassStep(db, turns);
    FedGrows(db, turns, cutoff);
    TickCloses(fed, cutoff);
    TickKeeps(fed, cutoff);
    if GoesOn(fed) {
      FedUnlessDone(db, turns);
      TickShrinks(fed);
      PendingIsClosed(Tick(fed), Later(turns), cutoff, p);
    }
  }

  lemma TickKeeps(db: Db, cutoff: Instant)
    ensures Observed(Tick(db), cutoff) == Observed(db, cutoff)
    ensures Summarized(db, cutoff) <= Summarized(Tick(db), cutoff)
  {
    hide WrittenBuckets, Slice, ActiveProducts;
    NewlySummarized(db, cutoff);
    ObservedOnly(WithBuckets(db), Tick(db), cutoff);
    ObservedOnly(db, Tick(db), cutoff);
  }

  function Arrivals(turns: seq<set<Observation>>): (arrived: set<Observation>)
  {
    set k, o | 0 <= k < |turns| && o in turns[k] :: o
  }

  /** The products of what was appended. */
  function Appended(turns: seq<set<Observation>>): (products: set<int>)
  {
    set o | o in Arrivals(turns) :: o.product
  }

  /** The gaps a pass opens up: appended behind the cursor of their moment, or before the watermark. */
  function Overtaken(db: Db, turns: seq<set<Observation>>, cutoff: Instant): (products: set<int>)
  {
    set p | p in Missing(Last(db, turns), cutoff) && p !in Missing(db, cutoff)
            && (IsBehind(db, turns, cutoff, p) || p !in ActiveProducts(Last(db, turns)))
  }

  /** They are all products of appended observations: a pass with no append overtakes nothing. */
  lemma {:induction false} OvertakenIsAppended(db: Db, turns: seq<set<Observation>>, cutoff: Instant)
    ensures Missing(Pass(db, turns), cutoff) <= Missing(db, cutoff) + Appended(turns)
    decreases |turns|, Pending(db)
  {
    hide Fed, Moments, Missing, WrittenBuckets, Last, Pass, ActiveProducts;
    var fed := Fed(db, turns);
    PassStep(db, turns);
    TickCloses(fed, cutoff);
    FedAppends(db, turns, cutoff);
    if GoesOn(fed) {
      FedUnlessDone(db, turns);
      OvertakenIsAppended(Tick(fed), Later(turns), cutoff);
    }
  }

  lemma FedAppends(db: Db, turns: seq<set<Observation>>, cutoff: Instant)
    ensures Missing(Fed(db, turns), cutoff) <= Missing(db, cutoff) + Appended(turns)
    ensures Arrivals(Later(turns)) <= Arrivals(turns) && Appended(Later(turns)) <= Appended(turns)
    ensures Fed(db, turns).observations <= db.observations + Arrivals(turns)
    ensures ActiveProducts(Fed(db, turns)) <= ActiveProducts(db) + Appended(turns)
  {
    if turns != [] {
      assert forall k :: 0 <= k < |turns[1..]| ==> turns[1..][k] == turns[k + 1];
    }
  }

  /**
   * From a watermark that reaches the gaps, a pass leaves exactly the missing products at or below
   * the cursor it started from, and those it overtakes.
   */
  lemma PassCloses(db: Db, turns: seq<set<Observation>>, cutoff: Instant)
    requires Reaches(db, cutoff)
    ensures Missing(Pass(db, turns), cutoff)
         == (set p | p in Missing(db, cutoff) && p <= db.cursor) + Overtaken(db, turns, cutoff)
    ensures Overtaken(db, turns, cutoff) <= Appended(turns)
  {
    hide Fed, Moments, Missing, Last, Pass, ActiveProducts, IsBehind, Reaches;
    OvertakenIsAppended(db, turns, cutoff);
    var end := Missing(Pass(db, turns), cutoff);
    forall p: int
      ensures p in Overtaken(db, turns, cutoff) <==> p in end && p !in Missing(db, cutoff)
      ensures p in Missing(db, cutoff) ==> (p in end <==> p <= db.cursor)
    {
      PassLeaves(db, turns, cutoff, p);
      BehindIsLast(db, turns, cutoff, p);
      if p in Missing(db, cutoff) {
        ReachedIsActive(db, cutoff, p);
        OldGap(db, turns, cutoff, p);
      }
    }
  }

  /** An old gap that is active: closed iff it was above the cursor. */
  lemma OldGap(db: Db, turns: seq<set<Observation>>, cutoff: Instant, p: int)
    requires p in Missing(db, cutoff) && p in ActiveProducts(db)
    ensures p in Missing(Pass(db, turns), cutoff) <==> p <= db.cursor
  {
    hide Fed, Moments, Last, Pass, ActiveProducts, IsBehind;
    if p <= db.cursor {
      PassLeaves(db, turns, cutoff, p);
      BehindStep(db, turns, cutoff, p);
      FedGrows(db, turns, cutoff);
      FedCursor(db, turns);
    } else {
      PendingIsClosed(db, turns, cutoff, p);
    }
  }

  /** Whatever the pass leaves missing was missing at its last tick. */
  lemma BehindIsLast(db: Db, turns: seq<set<Observation>>, cutoff: Instant, p: int)
    ensures p in Missing(Pass(db, turns), cutoff) ==> p in Missing(Last(db, turns), cutoff)
  {
    hide Tick, Missing, Moments, Last;
    TickCloses(Last(db, turns), cutoff);
  }

  /**
   * A pass over some activity ends without a cursor, its watermark at or above all of that activity,
   * the appended one included, and with every observation kept.
   */
  lemma {:induction false} PassAdvances(db: Db, turns: seq<set<Observation>>)
    requires ActiveProducts(db) != {}
    ensures var end := Pass(db, turns);
            && end.cursor == 0 && db.observations <= end.observations && end.watermark.Some?
            && (forall o :: o in end.observations && IsActive(db, o) ==> o.at <= end.watermark.value)
            && end.observations <= db.observations + Arrivals(turns)
    decreases |turns|, Pending(db)
  {
    hide WrittenBuckets, Smallest, Moments, Fed, Last, Pass, Appended, Arrivals, Pending;
    var fed := Fed(db, turns);
    PassStep(db, turns);
    FedGrows(db, turns, 0);
    FedCursor(db, turns);
    FedAppends(db, turns, 0);
    assert forall o :: IsActive(db, o) <==> IsActive(fed, o);
    if GoesOn(fed) {
      FedUnlessDone(db, turns);
      TickShrinks(fed);
      PassAdvances(Tick(fed), Later(turns));
      assert forall o :: IsActive(db, o) <==> IsActive(Tick(fed), o);
    }
  }

  // ---- what a pass skips -----------------------------------------------------------

  /** An observation appended behind the cursor of the pass in flight: complete coverage is lost by the end of it. */
  lemma AppendBehindIsSkipped(db: Db, cutoff: Instant, o: Observation)
    requires Missing(db, cutoff) == {} && o.product !in Summarized(db, cutoff)
    requires cutoff <= o.at && o.product <= db.cursor
    ensures Missing(Pass(db, [{o}]), cutoff) == {o.product}
  {
    hide Moments, Last, Pass, ActiveProducts, IsBehind, Overtaken;
    PassCloses(db, [{o}], cutoff);
    OneArrival(o);
    var fed := Fed(db, [{o}]);
    assert o in fed.observations && o.product in Missing(fed, cutoff);
    BehindStep(db, [{o}], cutoff, o.product);
    PassLeaves(db, [{o}], cutoff, o.product);
  }

  /** When a newer observation was active too, no later pass finds the skipped one before its product is seen again. */
  lemma SkippedForGood(db: Db, cutoff: Instant, o: Observation, newer: Observation, turns: seq<set<Observation>>)
    requires Missing(db, cutoff) == {} && o.product !in Summarized(db, cutoff)
    requires cutoff <= o.at < newer.at && o.product <= db.cursor
    requires newer in db.observations && IsActive(db, newer)
    requires o.product !in Appended(turns)
    ensures o.product in Missing(Pass(Pass(db, [{o}]), turns), cutoff)
  {
    hide Moments, Last, Pass, IsBehind, Overtaken, Observed, Summarized, ActiveProducts, Missing, Arrivals, Appended;
    var end := Pass(db, [{o}]);
    AppendBehindIsSkipped(db, cutoff, o);
    NewerIsActive(db, newer);
    PassAdvances(db, [{o}]);
    OneArrival(o);
    assert newer in end.observations && newer.at <= end.watermark.value;
    NotYetObserved(db, cutoff, o.product);
    OlderIsInactive(db, cutoff, o, end);
    SkippedStaysMissing(end, turns, cutoff, o.product);
  }

  lemma OneArrival(o: Observation)
    ensures Arrivals([{o}]) == {o} && Appended([{o}]) == {o.product}
  {
    assert o in [{o}][0];
  }

  lemma NotYetObserved(db: Db, cutoff: Instant, p: int)
    ensures p !in Missing(db, cutoff) && p !in Summarized(db, cutoff) ==> p !in Observed(db, cutoff)
  {
  }

  lemma OlderIsInactive(db: Db, cutoff: Instant, o: Observation, end: Db)
    requires o.product !in Observed(db, cutoff) && cutoff <= o.at
    requires end.observations <= db.observations + {o} && end.watermark.Some? && o.at < end.watermark.value
    ensures o.product !in ActiveProducts(end)
  {
    forall x | x in end.observations && x.product == o.product
      ensures !IsActive(end, x)
    {
      assert x == o || !(cutoff <= x.at);
    }
  }

  lemma NewerIsActive(db: Db, o: Observation)
    requires o in db.observations && IsActive(db, o)
    ensures o.product in ActiveProducts(db)
  {
  }

  /** A missing product that is not active stays so through any pass, until it is observed again. */
  lemma {:induction false} SkippedStaysMissing(db: Db, turns: seq<set<Observation>>, cutoff: Instant, p: int)
    requires p in Missing(db, cutoff) && p !in ActiveProducts(db)
    requires p !in Appended(turns)
    ensures p in Missing(Pass(db, turns), cutoff) && p !in ActiveProducts(Pass(db, turns))
    decreases |turns|, Pending(db)
  {
    hide WrittenBuckets, Moments, Last, Pass, Pending, Missing, Appended;
    var fed := Fed(db, turns);
    PassStep(db, turns);
    FedGrows(db, turns, cutoff);
    FedCursor(db, turns);
    FedAppends(db, turns, cutoff);
    TickCloses(fed, cutoff);
    SliceIsPending(fed);
    TickMonotone(fed);
    if GoesOn(fed) {
      FedUnlessDone(db, turns);
      TickShrinks(fed);
      SkippedStaysMissing(Tick(fed), Later(turns), cutoff, p);
    }
  }
}
