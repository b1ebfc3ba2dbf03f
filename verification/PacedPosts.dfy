/**
 * Many `postCalculation` calls of scripts/dual-run-parity.ts at once, as the segments between their
 * awaits: reserve a slot and sleep, wake and send, and once more after a 429.
 */
module PacedPosts {
  import opened Wrappers
  import opened ParityCase
  import opened OriginPacer

  /** What a call is waiting for: its slot (the acquire that reserved it), its backoff, or nothing. */
  datatype Phase = Idle | Asleep(acquire: nat) | BackingOff | Finished

  datatype Post = Post(origin: string, resend: bool, phase: Phase)

  /** One request on the wire. */
  datatype Sent = Sent(post: nat, origin: string, acquire: nat, at: int)

  datatype World = World(history: seq<Acquire>, posts: seq<Post>, sends: seq<Sent>)

  /** A call starts, a sleeper wakes and its request is answered or thrown, a backoff ends. */
  datatype Move = Call(post: nat, now: int) | Wake(post: nat, at: int, answer: Fetched) | Retry(post: nat, now: int)

  /** A timer never fires early, and at most `late` milliseconds late. */
  predicate Enabled(w: World, interval: nat, late: nat, m: Move)
  {
    m.post < |w.posts| &&
    match m
    case Call(p, _) => w.posts[p].phase.Idle?
    case Wake(p, at, _) =>
      w.posts[p].phase.Asleep? && w.posts[p].phase.acquire < |w.history|
      && var slot := Slot(w.history, interval, w.posts[p].phase.acquire); slot <= at <= slot + late
    case Retry(p, _) => w.posts[p].phase.BackingOff?
  }

  predicate Is429(answer: Fetched) { answer.Responded? && answer.response.status == 429 }

  function Do(w: World, m: Move): (next: World)
    requires m.post < |w.posts|
    ensures |next.posts| == |w.posts|
  {
    var post := w.posts[m.post];
    match m
    case Call(p, now) =>
      World(w.history + [Acquire(post.origin, now)], w.posts[p := post.(phase := Asleep(|w.history|))], w.sends)
    case Wake(p, at, answer) =>
      if !post.phase.Asleep? then w
      else
        var phase := if Is429(answer) && !post.resend then BackingOff else Finished;
        World(w.history, w.posts[p := post.(phase := phase)],
              w.sends + [Sent(p, post.origin, post.phase.acquire, at)])
    case Retry(p, now) =>
      World(w.history + [Acquire(post.origin, now)],
            w.posts[p := post.(resend := true, phase := Asleep(|w.history|))], w.sends)
  }

  predicate CanRun(w: World, interval: nat, late: nat, moves: seq<Move>)
  {
    moves == []
    || (CanRun(w, interval, late, moves[..|moves| - 1])
        && Enabled(Run(w, moves[..|moves| - 1]), interval, late, moves[|moves| - 1]))
  }

  function Run(w: World, moves: seq<Move>): (end: World)
  {
    if moves == [] then w
    else
      var before, m := Run(w, moves[..|moves| - 1]), moves[|moves| - 1];
      if m.post < |before.posts| then Do(before, m) else before
  }

  /** How many requests a call has sent. */
  function SendsOf(sends: seq<Sent>, post: nat): (n: nat)
  {
    if sends == [] then 0
    else SendsOf(sends[..|sends| - 1], post) + if sends[|sends| - 1].post == post then 1 else 0
  }

  /** What a call's phase says it has sent. */
  function SentBy(post: Post): (n: nat)
  {
    match post.phase
    case Idle => 0
    case Asleep(_) => if post.resend then 1 else 0
    case BackingOff => 1
    case Finished => if post.resend then 2 else 1
  }

  /** A request is sent from an acquire of its own origin, no earlier than the slot and at most `late` after. */
  predicate FromItsSlot(w: World, interval: nat, late: nat, s: Sent)
  {
    s.acquire < |w.history| && w.history[s.acquire].origin == s.origin
    && Slot(w.history, interval, s.acquire) <= s.at <= Slot(w.history, interval, s.acquire) + late
  }

  ghost predicate Inv(w: World, interval: nat, late: nat)
  {
    && (forall i :: 0 <= i < |w.sends| ==> FromItsSlot(w, interval, late, w.sends[i]))
    && (forall i, j :: 0 <= i < j < |w.sends| ==> w.sends[i].acquire != w.sends[j].acquire)
    && (forall p :: 0 <= p < |w.posts| && w.posts[p].phase.Asleep? ==>
          w.posts[p].phase.acquire < |w.history| && w.history[w.posts[p].phase.acquire].origin == w.posts[p].origin)
    && (forall p, i :: 0 <= p < |w.posts| && w.posts[p].phase.Asleep? && 0 <= i < |w.sends| ==>
          w.posts[p].phase.acquire != w.sends[i].acquire)
    && (forall p, q :: 0 <= p < q < |w.posts| && w.posts[p].phase.Asleep? && w.posts[q].phase.Asleep? ==>
          w.posts[p].phase.acquire != w.posts[q].phase.acquire)
    && (forall p :: 0 <= p < |w.posts| ==> SendsOf(w.sends, p) == SentBy(w.posts[p]))
    && (forall p :: 0 <= p < |w.posts| && w.posts[p].phase.Idle? ==> !w.posts[p].resend)
  }

  /** An acquire reserves a new slot and moves no earlier one. */
  lemma AcquireKeepsInv(w: World, interval: nat, late: nat, p: nat, now: int, resend: bool)
    requires Inv(w, interval, late) && p < |w.posts| && !w.posts[p].phase.Asleep?
    requires SentBy(w.posts[p]) == if resend then 1 else 0
    ensures var post := w.posts[p];
            Inv(World(w.history + [Acquire(post.origin, now)],
                      w.posts[p := post.(resend := resend, phase := Asleep(|w.history|))], w.sends), interval, late)
  {
    hide Slot, SendsOf;
    var post := w.posts[p];
    var next := World(w.history + [Acquire(post.origin, now)],
                      w.posts[p := post.(resend := resend, phase := Asleep(|w.history|))], w.sends);
    forall i | 0 <= i < |w.sends|
      ensures FromItsSlot(next, interval, late, next.sends[i])
    {
      assert FromItsSlot(w, interval, late, w.sends[i]);
      SlotStays(w.history, [Acquire(post.origin, now)], interval, w.sends[i].acquire);
    }
  }

  lemma WakeKeepsInv(w: World, interval: nat, late: nat, p: nat, at: int, answer: Fetched)
    requires Inv(w, interval, late) && Enabled(w, interval, late, Wake(p, at, answer))
    ensures Inv(Do(w, Wake(p, at, answer)), interval, late)
  {
    hide Slot;
    var next := Do(w, Wake(p, at, answer));
    assert next.sends[..|w.sends|] == w.sends;
    forall i | 0 <= i < |next.sends|
      ensures FromItsSlot(next, interval, late, next.sends[i])
    {
      if i < |w.sends| {
        assert FromItsSlot(w, interval, late, w.sends[i]);
      }
    }
  }

  /** Over every run: each request has an acquire of its own, and each call sends once, or twice after a 429. */
  lemma {:induction false} RunKeepsInv(w: World, interval: nat, late: nat, moves: seq<Move>)
    requires Inv(w, interval, late) && CanRun(w, interval, late, moves)
    ensures Inv(Run(w, moves), interval, late) && |Run(w, moves).posts| == |w.posts|
  {
    hide Inv, SendsOf, SentBy, Slot;
    if moves != [] {
      var before := Run(w, moves[..|moves| - 1]);
      RunKeepsInv(w, interval, late, moves[..|moves| - 1]);
      match moves[|moves| - 1]
      case Call(p, now) =>
        IdleSentNone(before, interval, late, p);
        AcquireKeepsInv(before, interval, late, p, now, false);
      case Wake(p, at, answer) =>
        WakeKeepsInv(before, interval, late, p, at, answer);
      case Retry(p, now) =>
        IdleSentNone(before, interval, late, p);
        AcquireKeepsInv(before, interval, late, p, now, true);
    }
  }

  lemma IdleSentNone(w: World, interval: nat, late: nat, p: nat)
    requires Inv(w, interval, late) && p < |w.posts|
    ensures w.posts[p].phase.Idle? ==> !w.posts[p].resend && SentBy(w.posts[p]) == 0
    ensures w.posts[p].phase.BackingOff? ==> SentBy(w.posts[p]) == 1
  {
  }

  /** Nothing has been called yet. */
  predicate Unstarted(w: World)
  {
    && w.history == [] && w.sends == []
    && forall p :: 0 <= p < |w.posts| ==> w.posts[p] == Post(w.posts[p].origin, false, Idle)
  }

  lemma UnstartedInv(w: World, interval: nat, late: nat)
    requires Unstarted(w)
    ensures Inv(w, interval, late)
  {
  }

  lemma {:induction false} ImageSize(sends: seq<Sent>, picked: set<nat>)
    requires forall i :: i in picked ==> i < |sends|
    requires forall i, j :: 0 <= i < j < |sends| ==> sends[i].acquire != sends[j].acquire
    ensures |set i | i in picked :: sends[i].acquire| == |picked|
    decreases |picked|
  {
    var image := set i | i in picked :: sends[i].acquire;
    if picked != {} {
      var x: nat :| x in picked;
      var rest := picked - {x};
      ImageSize(sends, rest);
      var less := set i | i in rest :: sends[i].acquire;
      forall k | k in image
        ensures k in less || k == sends[x].acquire
      {
        var i :| i in picked && sends[i].acquire == k;
        assert i == x || i in rest;
      }
      assert image == less + {sends[x].acquire};
      assert sends[x].acquire !in less;
    }
  }

  /**
   * The rate bound: however the segments of any number of calls interleave, whatever the clock and
   * the stacks say, at most 10 requests reach one origin in any half-open 60 s window at the default
   * pace, re-sends included, with timers up to 15 s late.
   */
  lemma TenSendsAMinute(w: World, moves: seq<Move>, origin: string, picked: set<nat>, start: int)
    requires Unstarted(w) && CanRun(w, DEFAULT_PACE_MS, 15_000, moves)
    requires forall i :: i in picked ==>
               i < |Run(w, moves).sends| && Run(w, moves).sends[i].origin == origin
               && start <= Run(w, moves).sends[i].at < start + 60_000
    ensures |picked| <= 10
  {
    hide Slot, SendsOf, SentBy, CanRun, Inv, Unstarted, Run;
    UnstartedInv(w, DEFAULT_PACE_MS, 15_000);
    RunKeepsInv(w, DEFAULT_PACE_MS, 15_000, moves);
    TenOfInv(Run(w, moves), origin, picked, start);
  }

  lemma TenOfInv(w: World, origin: string, picked: set<nat>, start: int)
    requires Inv(w, DEFAULT_PACE_MS, 15_000)
    requires forall i :: i in picked ==>
               i < |w.sends| && w.sends[i].origin == origin && start <= w.sends[i].at < start + 60_000
    ensures |picked| <= 10
  {
    hide Slot, SendsOf, SentBy;
    var acquires := set i | i in picked :: w.sends[i].acquire;
    ImageSize(w.sends, picked);
    forall k | k in acquires
      ensures k < |w.history| && w.history[k].origin == origin
      ensures start - 15_000 <= Slot(w.history, DEFAULT_PACE_MS, k) < start - 15_000 + 75_000
    {
      var i :| i in picked && w.sends[i].acquire == k;
      assert FromItsSlot(w, DEFAULT_PACE_MS, 15_000, w.sends[i]);
    }
    WindowBound(w.history, DEFAULT_PACE_MS, origin, acquires, start - 15_000, 75_000, 10);
  }

  /** The answer to a call's first request, once there is one. */
  function FirstAnswer(moves: seq<Move>, p: nat): (answer: Option<Fetched>)
  {
    if moves == [] then None
    else
      var before, m := FirstAnswer(moves[..|moves| - 1], p), moves[|moves| - 1];
      if before.Some? then before
      else if m.Wake? && m.post == p then Some(m.answer) else None
  }

  /** What a call's phase says about its first answer. */
  predicate Explains(post: Post, first: Option<Fetched>)
  {
    match post.phase
    case Idle => first.None? && !post.resend
    case Asleep(_) => if post.resend then first.Some? && Is429(first.value) else first.None?
    case BackingOff => first.Some? && Is429(first.value) && !post.resend
    case Finished => first.Some? && (Is429(first.value) <==> post.resend)
  }

  /** A call that has finished sent two requests if its first answer was a 429, and one otherwise; none sends more. */
  lemma OneResend(w: World, interval: nat, late: nat, moves: seq<Move>, p: nat)
    requires Unstarted(w) && CanRun(w, interval, late, moves) && p < |w.posts|
    ensures |Run(w, moves).posts| == |w.posts|
    ensures SendsOf(Run(w, moves).sends, p) <= 2
    ensures Run(w, moves).posts[p].phase.Finished? ==>
              FirstAnswer(moves, p).Some?
              && var first := FirstAnswer(moves, p).value;
                 SendsOf(Run(w, moves).sends, p) == if first.Responded? && first.response.status == 429 then 2 else 1
  {
    UnstartedInv(w, interval, late);
    PhaseExplains(w, interval, late, moves, p);
    hide CanRun, Run, Unstarted, FirstAnswer, SendsOf;
    RunKeepsInv(w, interval, late, moves);
  }

  lemma {:induction false} PhaseExplains(w: World, interval: nat, late: nat, moves: seq<Move>, p: nat)
    requires Unstarted(w) && CanRun(w, interval, late, moves) && p < |w.posts|
    ensures |Run(w, moves).posts| == |w.posts|
    ensures Explains(Run(w, moves).posts[p], FirstAnswer(moves, p))
  {
    hide Slot;
    if moves != [] {
      PhaseExplains(w, interval, late, moves[..|moves| - 1], p);
    }
  }

  // ---- the imperative form ---------------------------------------------------------

  /** The calls in flight over one shared pacer; `reserved` numbers its acquires. */
  class Traffic {
    const pacer: Pacer
    var reserved: nat
    var posts: seq<Post>
    var sends: seq<Sent>

    ghost predicate Valid()
      reads this, pacer
    {
      pacer.Valid() && reserved == |pacer.history|
    }

    ghost function State(): (w: World)
      reads this, pacer
    {
      World(pacer.history, posts, sends)
    }

    constructor (origins: seq<string>, minIntervalMs: nat)
      ensures Valid() && Unstarted(State()) && |posts| == |origins| && fresh(pacer)
      ensures pacer.minIntervalMs == minIntervalMs
      ensures forall p :: 0 <= p < |origins| ==> posts[p].origin == origins[p]
    {
      pacer := new Pacer(minIntervalMs);
      posts := seq(|origins|, p requires 0 <= p < |origins| => Post(origins[p], false, Idle));
      sends, reserved := [], 0;
    }

    /** Up to the first `await`: the slot is reserved synchronously, then the call sleeps. */
    method Begin(p: nat, now: int) returns (slot: int)
      requires Valid() && p < |posts| && posts[p].phase.Idle?
      modifies this, pacer
      ensures Valid() && State() == Do(old(State()), Call(p, now))
      ensures slot == Slot(pacer.history, pacer.minIntervalMs, posts[p].phase.acquire) >= now
    {
      slot := pacer.Reserve(posts[p].origin, now);
      posts := posts[p := posts[p].(phase := Asleep(reserved))];
      reserved := reserved + 1;
    }

    /** After the sleep: the request goes out, and its answer decides whether to back off. */
    method Send(p: nat, at: int, answer: Fetched) returns (backoff: real)
      requires Valid() && p < |posts| && posts[p].phase.Asleep?
      modifies this
      ensures Valid() && State() == Do(old(State()), Wake(p, at, answer))
      ensures backoff == if Is429(answer) && !old(posts)[p].resend then BackoffMs(answer.response.body) else 0.0
    {
      var post := posts[p];
      sends := sends + [Sent(p, post.origin, post.phase.acquire, at)];
      backoff := 0.0;
      if Is429(answer) && !post.resend {
        backoff := BackoffMs(answer.response.body);
        posts := posts[p := post.(phase := BackingOff)];
      } else {
        posts := posts[p := post.(phase := Finished)];
      }
    }

    /** After the backoff: one more slot for the one re-send. */
    method Resend(p: nat, now: int) returns (slot: int)
      requires Valid() && p < |posts| && posts[p].phase.BackingOff?
      modifies this, pacer
      ensures Valid() && State() == Do(old(State()), Retry(p, now))
      ensures slot == Slot(pacer.history, pacer.minIntervalMs, posts[p].phase.acquire) >= now
    {
      slot := pacer.Reserve(posts[p].origin, now);
      posts := posts[p := posts[p].(resend := true, phase := Asleep(reserved))];
      reserved := reserved + 1;
    }
  }
}
