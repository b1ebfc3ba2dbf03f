/** `OriginPacer` and `postCalculation` of scripts/dual-run-parity.ts: slots, sends and the rate bound. */
module OriginPacer {
  import opened Json
  import opened ParityCase

  const DEFAULT_PACE_MS := 7500
  const DEFAULT_429_BACKOFF_MS := 5000.0
  const MAX_429_BACKOFF_MS := 20000.0

  function Max(a: int, b: int): (m: int) { if a >= b then a else b }

  /** One `acquire`: the origin asked for, and what the clock said, which may go backwards. */
  datatype Acquire = Acquire(origin: string, now: int)

  type SlotTable = map<string, int>

  /** The slot an acquire reserves in a table of next free slots. */
  function SlotFor(table: SlotTable, a: Acquire): (slot: int)
  {
    Max(a.now, if a.origin in table then table[a.origin] else 0)
  }

  /** The table after a whole history of acquires. */
  function TableAfter(history: seq<Acquire>, interval: nat): (table: SlotTable)
  {
    if history == [] then map[]
    else
      var before := TableAfter(history[..|history| - 1], interval);
      var a := history[|history| - 1];
      before[a.origin := SlotFor(before, a) + interval]
  }

  /** The slot the i-th acquire of a history reserved. */
  function Slot(history: seq<Acquire>, interval: nat, i: nat): (slot: int)
    requires i < |history|
  {
    SlotFor(TableAfter(history[..i], interval), history[i])
  }

  /** The pacer object: its table is always the one its acquires so far lead to. */
  class Pacer {
    var nextSlotAt: SlotTable
    const minIntervalMs: nat
    ghost var history: seq<Acquire>

    ghost predicate Valid()
      reads this
    {
      nextSlotAt == TableAfter(history, minIntervalMs)
    }

    constructor (minIntervalMs: nat)
      ensures Valid() && history == [] && this.minIntervalMs == minIntervalMs
    {
      this.minIntervalMs := minIntervalMs;
      nextSlotAt := map[];
      history := [];
    }

    /** Reserves synchronously; the caller may send from the returned slot on. */
    method Reserve(origin: string, now: int) returns (slot: int)
      requires Valid()
      modifies this
      ensures Valid() && history == old(history) + [Acquire(origin, now)]
      ensures slot == Slot(history, minIntervalMs, |history| - 1) >= now
    {
      slot := Max(now, if origin in nextSlotAt then nextSlotAt[origin] else 0);
      nextSlotAt := nextSlotAt[origin := slot + minIntervalMs];
      history := history + [Acquire(origin, now)];
      assert history[..|history| - 1] == old(history);
    }
  }

  // ---- spacing and independence ----------------------------------------------------

  /** After an acquire at index i, the origin's next free slot stays at least one interval behind it. */
  lemma {:induction false} NextSlotAfter(history: seq<Acquire>, interval: nat, i: nat)
    requires i < |history|
    ensures history[i].origin in TableAfter(history, interval)
    ensures TableAfter(history, interval)[history[i].origin] >= Slot(history, interval, i) + interval
    decreases |history|
  {
    var last := |history| - 1;
    var front := history[..last];
    if i < last {
      NextSlotAfter(front, interval, i);
      assert front[..i] == history[..i];
    }
  }

  /** Two slots of one origin are at least an interval apart, in the order they were reserved. */
  lemma SlotsAreSpaced(history: seq<Acquire>, interval: nat, i: nat, j: nat)
    requires i < j < |history| && history[i].origin == history[j].origin
    ensures Slot(history, interval, j) >= Slot(history, interval, i) + interval
  {
    NextSlotAfter(history[..j], interval, i);
    assert history[..j][..i] == history[..i];
  }

  lemma {:induction false} NextFree(history: seq<Acquire>, interval: nat, origin: string, j: nat)
    requires j < |history| && history[j].origin == origin
    requires forall k :: j < k < |history| ==> history[k].origin != origin
    ensures origin in TableAfter(history, interval)
    ensures TableAfter(history, interval)[origin] == Slot(history, interval, j) + interval
  {
    if j < |history| - 1 {
      NextFree(history[..|history| - 1], interval, origin, j);
      assert history[..|history| - 1][..j] == history[..j];
    }
  }

  lemma {:induction false} NeverAcquired(history: seq<Acquire>, interval: nat, origin: string)
    requires forall k :: 0 <= k < |history| ==> history[k].origin != origin
    ensures origin !in TableAfter(history, interval)
  {
    if history != [] {
      NeverAcquired(history[..|history| - 1], interval, origin);
    }
  }

  /** No slot is later than it must be. The first of an origin is now; */
  lemma FirstSlot(history: seq<Acquire>, interval: nat, i: nat)
    requires i < |history| && history[i].now >= 0
    requires forall k :: 0 <= k < i ==> history[k].origin != history[i].origin
    ensures Slot(history, interval, i) == history[i].now
  {
    NeverAcquired(history[..i], interval, history[i].origin);
  }

  /** any other is now, or an interval behind the origin's last one if that is later. */
  lemma NextSlot(history: seq<Acquire>, interval: nat, j: nat, i: nat)
    requires j < i < |history| && history[j].origin == history[i].origin
    requires forall k :: j < k < i ==> history[k].origin != history[i].origin
    ensures var earliest := Slot(history, interval, j) + interval;
            Slot(history, interval, i) == if history[i].now < earliest then earliest else history[i].now
  {
    NextFree(history[..i], interval, history[i].origin, j);
    assert history[..i][..j] == history[..j];
  }

  /** The acquires of one origin, in order. */
  function OnlyOrigin(history: seq<Acquire>, origin: string): (own: seq<Acquire>)
  {
    if history == [] then []
    else
      var last := |history| - 1;
      OnlyOrigin(history[..last], origin) + (if history[last].origin == origin then [history[last]] else [])
  }

  lemma {:induction false} TableOfOwn(history: seq<Acquire>, interval: nat, origin: string)
    ensures var all, own := TableAfter(history, interval), TableAfter(OnlyOrigin(history, origin), interval);
            (origin in all <==> origin in own) && (origin in all ==> all[origin] == own[origin])
  {
    if history != [] {
      var last := |history| - 1;
      TableOfOwn(history[..last], interval, origin);
      var own, before := OnlyOrigin(history, origin), OnlyOrigin(history[..last], origin);
      if history[last].origin == origin {
        assert own[..|own| - 1] == before;
      } else {
        assert own == before;
      }
    }
  }

  /** Origins never couple: a slot is the one the origin's own acquires alone would have given. */
  lemma SlotsAreIndependent(history: seq<Acquire>, interval: nat, i: nat)
    requires i < |history|
    ensures var origin := history[i].origin;
            Slot(history, interval, i) == SlotFor(TableAfter(OnlyOrigin(history[..i], origin), interval), history[i])
  {
    TableOfOwn(history[..i], interval, history[i].origin);
  }

  // ---- the rate bound --------------------------------------------------------------

  /** A set of acquires of one origin. */
  predicate OfOrigin(history: seq<Acquire>, origin: string, indices: set<nat>)
  {
    forall i :: i in indices ==> i < |history| && history[i].origin == origin
  }

  /** Between the first and the last slot of a set there is an interval for each further member. */
  lemma {:induction false} SetSpan(history: seq<Acquire>, interval: nat, origin: string, indices: set<nat>)
    returns (first: nat, last: nat)
    requires OfOrigin(history, origin, indices) && indices != {}
    ensures first in indices && last in indices
    ensures forall i :: i in indices ==> i <= last
    ensures Slot(history, interval, last) >= Slot(history, interval, first) + (|indices| - 1) * interval
    decreases |indices|
  {
    hide Slot;
    last := Largest(indices);
    var rest := indices - {last};
    if rest == {} {
      first := last;
      assert indices == {last};
    } else {
      var before: nat;
      first, before := SetSpan(history, interval, origin, rest);
      assert before < last;
      SlotsAreSpaced(history, interval, before, last);
    }
  }

  lemma {:induction false} Largest(indices: set<nat>) returns (m: nat)
    requires indices != {}
    ensures m in indices && forall i :: i in indices ==> i <= m
    decreases |indices|
  {
    var some :| some in indices;
    var rest := indices - {some};
    m := some;
    if rest != {} {
      var r := Largest(rest);
      m := if r > some then r else some;
    }
    forall i | i in indices
      ensures i <= m
    {
      if i != some {
        assert i in rest;
      }
    }
  }

  lemma StrictFactor(a: int, b: int, c: nat)
    requires a * c < b * c
    ensures a < b
  {
  }

  /** Slots inside a window of at most k intervals: at most k of them, whatever the clock did. */
  lemma WindowBound(
      history: seq<Acquire>, interval: nat, origin: string, indices: set<nat>, start: int, width: nat, k: nat)
    requires OfOrigin(history, origin, indices)
    requires forall i :: i in indices ==> start <= Slot(history, interval, i) < start + width
    requires width <= k * interval
    ensures |indices| <= k
  {
    if indices != {} {
      var first, last := SetSpan(history, interval, origin, indices);
      StrictFactor(|indices| - 1, k, interval);
    }
  }

  /** At the default pace any half-open 60 s window holds at most 8 slots of one origin. */
  lemma EightSlotsAMinute(history: seq<Acquire>, origin: string, indices: set<nat>, start: int)
    requires OfOrigin(history, origin, indices)
    requires forall i :: i in indices ==> start <= Slot(history, DEFAULT_PACE_MS, i) < start + 60_000
    ensures |indices| <= 8
  {
    WindowBound(history, DEFAULT_PACE_MS, origin, indices, start, 60_000, 8);
  }

  /** Eight acquires at once fill such a minute: their slots are 7.5 s apart from the first instant on. */
  lemma EightFit(origin: string, now: nat)
    ensures var burst := seq(8, _ => Acquire(origin, now));
            forall i :: 0 <= i < 8 ==> Slot(burst, DEFAULT_PACE_MS, i) == now + 7_500 * i
  {
    forall i | 0 <= i < 8
      ensures Slot(seq(8, _ => Acquire(origin, now)), DEFAULT_PACE_MS, i) == now + 7_500 * i
    {
      BurstSlot(origin, now, DEFAULT_PACE_MS, 8, i);
    }
  }

  lemma {:induction false} BurstSlot(origin: string, now: nat, interval: nat, n: nat, i: nat)
    requires i < n
    ensures Slot(seq(n, _ => Acquire(origin, now)), interval, i) == now + interval * i
  {
    var burst := seq(n, _ => Acquire(origin, now));
    if i == 0 {
      FirstSlot(burst, interval, 0);
    } else {
      BurstSlot(origin, now, interval, n, i - 1);
      NextSlot(burst, interval, i - 1, i);
      assert interval * i == interval * (i - 1) + interval;
    }
  }

  // ---- one calculator POST ---------------------------------------------------------

  /** `retryAfterMsOf` under the cap: the stack's positive finite seconds, else 5 s, never above 20 s. */
  function BackoffMs(body: Json): (ms: real)
    ensures 0.0 < ms <= MAX_429_BACKOFF_MS
  {
    var asked :=
      if body.Obj? && HasKey(body.fields, "retryAfterSeconds") then
        match Get(body.fields, "retryAfterSeconds")
        case Num(Finite(seconds)) => if seconds > 0.0 then seconds * 1000.0 else DEFAULT_429_BACKOFF_MS
        case _ => DEFAULT_429_BACKOFF_MS
      else DEFAULT_429_BACKOFF_MS;
    if asked <= MAX_429_BACKOFF_MS then asked else MAX_429_BACKOFF_MS
  }

  /** Asked for so many seconds, the wait is that long, but never above 20 s; unasked it is 5 s. */
  lemma BackoffFollows(body: Json)
    ensures BackoffMs(body)
         == match At(body, [Key("retryAfterSeconds")])
            case Some(Num(Finite(seconds))) =>
              if seconds <= 0.0 then 5_000.0 else if seconds < 20.0 then 1_000.0 * seconds else 20_000.0
            case _ => 5_000.0
  {
    assert [Key("retryAfterSeconds")][1..] == [];
  }

  /**
   * `postCalculation` run on its own: one paced POST, and one more after a backoff when the first
   * answer is a 429, each from a slot of its own. The transport's answers and the clock readings are
   * inputs; module PacedPosts has its segments interleaved with those of other posts.
   */
  method PostCalculation(pacer: Pacer, origin: string, answers: (HttpResponse, HttpResponse), clock: (int, int))
    returns (response: HttpResponse, slots: seq<int>, backoff: real)
    requires pacer.Valid()
    modifies pacer
    ensures pacer.Valid()
    ensures |slots| == if answers.0.status == 429 then 2 else 1
    ensures response == if answers.0.status == 429 then answers.1 else answers.0
    ensures backoff == if answers.0.status == 429 then BackoffMs(answers.0.body) else 0.0
    ensures pacer.history == old(pacer.history) + [Acquire(origin, clock.0), Acquire(origin, clock.1)][..|slots|]
    ensures forall i :: 0 <= i < |slots| ==>
              slots[i] == Slot(pacer.history, pacer.minIntervalMs, |old(pacer.history)| + i)
  {
    ghost var before := pacer.history;
    var slot := pacer.Reserve(origin, clock.0);
    ghost var between := pacer.history;
    response, slots, backoff := answers.0, [slot], 0.0;
    if response.status == 429 {
      backoff := BackoffMs(response.body);
      slot := pacer.Reserve(origin, clock.1);
      response, slots := answers.1, slots + [slot];
      assert pacer.history[..|before|] == between[..|before|];
    }
  }

  /** A slot depends on the acquires up to its own. */
  lemma SlotStays(history: seq<Acquire>, more: seq<Acquire>, interval: nat, i: nat)
    requires i < |history|
    ensures Slot(history + more, interval, i) == Slot(history, interval, i)
  {
    assert (history + more)[..i] == history[..i];
  }
}
