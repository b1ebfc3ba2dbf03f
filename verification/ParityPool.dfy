/**
 * `runParity` of scripts/dual-run-parity.ts: a pool of workers over a shared cursor, modelled
 * as the atomic steps between two awaits, and the report that does not depend on their order.
 */
module ParityPool {
  import opened Extremes
  import opened ParityCase

  /** A worker awaiting a case's result, or one that found the cursor at the end. */
  datatype Worker = Running(index: nat) | Done

  /** The pool between two events: the shared cursor, the workers, the finished indices in push order. */
  datatype Pool = Pool(cursor: nat, workers: seq<Worker>, finished: seq<nat>)

  /** `while (cursor < cases.length) { const index = cursor++; … }`: claim the next case or stop. */
  function Claim(cursor: nat, total: nat): (r: (Worker, nat))
  {
    if cursor < total then (Running(cursor), cursor + 1) else (Done, cursor)
  }

  /** `Array.from` starts the workers one after the other, each up to its first await. */
  function Start(total: nat, count: nat): (p: Pool)
    ensures |p.workers| == count
  {
    if count == 0 then Pool(0, [], [])
    else
      var before := Start(total, count - 1);
      var (worker, cursor) := Claim(before.cursor, total);
      Pool(cursor, before.workers + [worker], [])
  }

  /** `Math.max(1, Math.min(concurrency, cases.length))`. */
  function WorkerCount(concurrency: int, total: nat): (count: nat)
  {
    var least := if concurrency <= total then concurrency else total;
    if least >= 1 then least else 1
  }

  /** At least one worker, and no more than were asked for or than there are cases. */
  lemma WorkersAre(concurrency: int, total: nat)
    ensures WorkerCount(concurrency, total) >= 1
    ensures concurrency >= 1 && total >= 1 ==>
              var n := WorkerCount(concurrency, total);
              n <= concurrency && n <= total && (n == concurrency || n == total)
    ensures concurrency < 1 || total < 1 ==> WorkerCount(concurrency, total) == 1
  {
  }

  /** A result arrives: the worker pushes it, then claims again or stops. */
  function Resume(p: Pool, total: nat, w: nat): (next: Pool)
    requires w < |p.workers| && p.workers[w].Running?
  {
    var (worker, cursor) := Claim(p.cursor, total);
    Pool(cursor, p.workers[w := worker], p.finished + [p.workers[w].index])
  }

  predicate CanRun(p: Pool, total: nat, schedule: seq<nat>)
    decreases |schedule|
  {
    schedule == []
    || (schedule[0] < |p.workers| && p.workers[schedule[0]].Running?
        && CanRun(Resume(p, total, schedule[0]), total, schedule[1..]))
  }

  /** The pool after the results arrive in the order a schedule of workers gives. */
  function Run(p: Pool, total: nat, schedule: seq<nat>): (end: Pool)
    requires CanRun(p, total, schedule)
    decreases |schedule|
  {
    if schedule == [] then p else Run(Resume(p, total, schedule[0]), total, schedule[1..])
  }

  predicate AllDone(p: Pool) { forall w :: 0 <= w < |p.workers| ==> p.workers[w].Done? }

  /** The indices being awaited, in worker order. */
  function Awaited(workers: seq<Worker>): (indices: seq<nat>)
  {
    if workers == [] then []
    else
      var last := |workers| - 1;
      Awaited(workers[..last]) + (if workers[last].Running? then [workers[last].index] else [])
  }

  function UpTo(n: nat): (indices: multiset<nat>)
  {
    if n == 0 then multiset{} else UpTo(n - 1) + multiset{n - 1}
  }

  /** How often an index is awaited or finished. */
  function Claims(p: Pool, k: nat): (times: nat)
  {
    multiset(Awaited(p.workers))[k] + multiset(p.finished)[k]
  }

  /** Every claimed index is awaited by one worker or finished, once in all; nothing else is. */
  ghost predicate Inv(p: Pool, total: nat)
  {
    && p.cursor <= total
    && (forall k: nat :: Claims(p, k) == if k < p.cursor then 1 else 0)
    && (forall w :: 0 <= w < |p.workers| && p.workers[w].Done? ==> p.cursor == total)
  }

  lemma AwaitedLast(workers: seq<Worker>, k: nat)
    requires workers != []
    ensures var last := |workers| - 1;
            && multiset(Awaited(workers))[k]
               == multiset(Awaited(workers[..last]))[k] + (if workers[last] == Running(k) then 1 else 0)
            && |Awaited(workers)| == |Awaited(workers[..last])| + (if workers[last].Running? then 1 else 0)
  {
  }

  lemma {:induction false} AwaitedUpdate(workers: seq<Worker>, w: nat, worker: Worker, k: nat)
    requires w < |workers| && workers[w].Running?
    ensures multiset(Awaited(workers[w := worker]))[k] + (if workers[w].index == k then 1 else 0)
         == multiset(Awaited(workers))[k] + (if worker == Running(k) then 1 else 0)
    ensures |Awaited(workers[w := worker])| + 1 == |Awaited(workers)| + (if worker.Running? then 1 else 0)
  {
    hide Awaited;
    var last := |workers| - 1;
    var updated := workers[w := worker];
    AwaitedLast(workers, k);
    AwaitedLast(updated, k);
    if w == last {
      assert updated[..last] == workers[..last];
    } else {
      AwaitedUpdate(workers[..last], w, worker, k);
      assert updated[..last] == workers[..last][w := worker];
    }
  }

  lemma {:induction false} StartInv(total: nat, count: nat)
    ensures Inv(Start(total, count), total)
    ensures Start(total, count).finished == []
  {
    var p := Start(total, count);
    if count == 0 {
      assert forall k: nat :: Claims(p, k) == 0;
    } else {
      StartInv(total, count - 1);
      var before := Start(total, count - 1);
      assert p.workers[..count - 1] == before.workers;
      forall k: nat
        ensures Claims(p, k) == if k < p.cursor then 1 else 0
      {
        assert Claims(before, k) == if k < before.cursor then 1 else 0;
      }
    }
  }

  lemma ResumeInv(p: Pool, total: nat, w: nat)
    requires Inv(p, total) && w < |p.workers| && p.workers[w].Running?
    ensures Inv(Resume(p, total, w), total)
  {
    var next := Resume(p, total, w);
    forall k: nat
      ensures Claims(next, k) == if k < next.cursor then 1 else 0
    {
      ResumeClaims(p, total, w, k);
    }
  }

  lemma ResumeClaims(p: Pool, total: nat, w: nat, k: nat)
    requires w < |p.workers| && p.workers[w].Running?
    requires Claims(p, k) == if k < p.cursor then 1 else 0
    ensures var next := Resume(p, total, w); Claims(next, k) == if k < next.cursor then 1 else 0
  {
    hide Awaited;
    var (worker, cursor) := Claim(p.cursor, total);
    var x := p.workers[w].index;
    AwaitedUpdate(p.workers, w, worker, k);
  }

  /** Work left: unclaimed cases and awaited ones. Each resumed worker takes away exactly one. */
  function Remaining(p: Pool, total: nat): (n: int) { total - p.cursor + |Awaited(p.workers)| }

  lemma ResumeProgress(p: Pool, total: nat, w: nat)
    requires Inv(p, total) && w < |p.workers| && p.workers[w].Running?
    ensures Remaining(Resume(p, total, w), total) == Remaining(p, total) - 1
  {
    var (worker, cursor) := Claim(p.cursor, total);
    AwaitedUpdate(p.workers, w, worker, 0);
  }

  lemma {:induction false} NoneAwaited(workers: seq<Worker>)
    ensures Awaited(workers) == [] <==> forall w :: 0 <= w < |workers| ==> workers[w].Done?
  {
    if workers != [] {
      NoneAwaited(workers[..|workers| - 1]);
      assert forall w :: 0 <= w < |workers| - 1 ==> workers[..|workers| - 1][w] == workers[w];
    }
  }

  /**
   * Safety and progress over every schedule: the invariant holds throughout, a schedule of k
   * results leaves exactly k fewer to come, and as long as a worker is not done one can go on.
   */
  lemma {:induction false} RunInv(p: Pool, total: nat, schedule: seq<nat>)
    requires Inv(p, total) && CanRun(p, total, schedule)
    ensures Inv(Run(p, total, schedule), total)
    ensures Remaining(Run(p, total, schedule), total) == Remaining(p, total) - |schedule|
    ensures |Run(p, total, schedule).workers| == |p.workers|
    decreases |schedule|
  {
    hide Inv, Remaining;
    if schedule != [] {
      ResumeInv(p, total, schedule[0]);
      ResumeProgress(p, total, schedule[0]);
      RunInv(Resume(p, total, schedule[0]), total, schedule[1..]);
    }
  }

  /** A pool whose workers are all done has claimed and run every index exactly once. */
  lemma DoneMeansComplete(p: Pool, total: nat)
    requires Inv(p, total) && AllDone(p) && p.workers != []
    ensures multiset(p.finished) == UpTo(total) && Remaining(p, total) == 0
  {
    NoneAwaited(p.workers);
    assert p.workers[0].Done?;
    forall k: nat
      ensures multiset(p.finished)[k] == UpTo(total)[k]
    {
      UpToCount(total, k);
      assert Claims(p, k) == if k < p.cursor then 1 else 0;
    }
  }

  lemma {:induction false} UpToCount(n: nat, k: nat)
    ensures UpTo(n)[k] == if k < n then 1 else 0
  {
    if n > 0 {
      UpToCount(n - 1, k);
    }
  }

  /**
   * The pool over all interleavings: every schedule that lets the workers finish runs each
   * case index exactly once and consists of exactly one arrival per case; a shorter one can
   * always be continued, so every run finishes.
   */
  lemma EveryInterleavingIsComplete(total: nat, concurrency: int, schedule: seq<nat>)
    requires CanRun(Start(total, WorkerCount(concurrency, total)), total, schedule)
    ensures var end := Run(Start(total, WorkerCount(concurrency, total)), total, schedule);
            && |schedule| <= total
            && (AllDone(end) <==> |schedule| == total)
            && (AllDone(end) ==> multiset(end.finished) == UpTo(total))
            && (!AllDone(end) ==> exists w :: 0 <= w < |end.workers| && end.workers[w].Running?)
  {
    var count := WorkerCount(concurrency, total);
    var start := Start(total, count);
    var end := Run(start, total, schedule);
    StartInv(total, count);
    RunInv(start, total, schedule);
    StartRemaining(total, count);
    NoneAwaited(end.workers);
    if AllDone(end) {
      DoneMeansComplete(end, total);
    }
  }

  lemma {:induction false} StartRemaining(total: nat, count: nat)
    ensures Start(total, count).cursor <= total && Remaining(Start(total, count), total) == total
  {
    if count > 0 {
      hide Awaited;
      AwaitedLast(Start(total, count).workers, 0);
      StartRemaining(total, count - 1);
      var before := Start(total, count - 1);
      assert Start(total, count).workers[..count - 1] == before.workers;
    }
  }

  // ---- the report ------------------------------------------------------------------

  datatype ParityReport = ParityReport(totalCases: nat, passed: int, failed: nat, cases: seq<CaseResult>)

  function Names(expected: seq<CaseResult>): (names: seq<string>)
  {
    seq(|expected|, i requires 0 <= i < |expected| => expected[i].name)
  }

  /** `new Map(cases.map((c, i) => [c.name, i]))` looked up with `?? 0`: a later case wins. */
  function Order(names: seq<string>, name: string): (position: nat)
  {
    if names == [] then 0
    else if names[|names| - 1] == name then |names| - 1
    else Order(names[..|names| - 1], name)
  }

  predicate Sorted(names: seq<string>, results: seq<CaseResult>)
  {
    forall i, j :: 0 <= i < j < |results| ==> Order(names, results[i].name) <= Order(names, results[j].name)
  }

  /** One step of a stable sort: behind everything that does not come later. */
  function InsertStable(names: seq<string>, sorted: seq<CaseResult>, r: CaseResult): (longer: seq<CaseResult>)
    ensures multiset(longer) == multiset(sorted) + multiset{r}
  {
    if sorted == [] then [r]
    else
      var last := |sorted| - 1;
      assert sorted == sorted[..last] + [sorted[last]];
      if Order(names, sorted[last].name) <= Order(names, r.name) then sorted + [r]
      else InsertStable(names, sorted[..last], r) + [sorted[last]]
  }

  /** `results.sort(…)`: stable, by the position of the case's name. */
  function SortResults(names: seq<string>, results: seq<CaseResult>): (sorted: seq<CaseResult>)
    ensures multiset(sorted) == multiset(results)
  {
    if results == [] then []
    else
      var last := |results| - 1;
      assert results == results[..last] + [results[last]];
      InsertStable(names, SortResults(names, results[..last]), results[last])
  }

  function FailedCount(results: seq<CaseResult>): (n: nat)
  {
    if results == [] then 0
    else FailedCount(results[..|results| - 1]) + (if results[|results| - 1].ok then 0 else 1)
  }

  function Report(names: seq<string>, results: seq<CaseResult>): (report: ParityReport)
  {
    var sorted := SortResults(names, results);
    ParityReport(|sorted|, |sorted| - FailedCount(sorted), FailedCount(sorted), sorted)
  }

  /** The results in the order they were pushed; each depends on its case only. */
  function Pushed(expected: seq<CaseResult>, finished: seq<nat>): (results: seq<CaseResult>)
    requires forall k :: 0 <= k < |finished| ==> finished[k] < |expected|
    ensures |results| == |finished|
    ensures forall k :: 0 <= k < |finished| ==> results[k] == expected[finished[k]]
  {
    seq(|finished|, k requires 0 <= k < |finished| => expected[finished[k]])
  }

  lemma {:induction false} InsertSorted(names: seq<string>, sorted: seq<CaseResult>, r: CaseResult)
    requires Sorted(names, sorted)
    ensures Sorted(names, InsertStable(names, sorted, r))
  {
    hide Order;
    if sorted != [] {
      var last := |sorted| - 1;
      if Order(names, sorted[last].name) > Order(names, r.name) {
        var front := InsertStable(names, sorted[..last], r);
        InsertSorted(names, sorted[..last], r);
        forall i | 0 <= i < |front|
          ensures Order(names, front[i].name) <= Order(names, sorted[last].name)
        {
          assert front[i] in multiset(sorted[..last]) + multiset{r};
          assert front[i] in sorted[..last] || front[i] == r;
        }
      }
    }
  }

  lemma {:induction false} SortIsSorted(names: seq<string>, results: seq<CaseResult>)
    ensures Sorted(names, SortResults(names, results))
  {
    if results != [] {
      SortIsSorted(names, results[..|results| - 1]);
      InsertSorted(names, SortResults(names, results[..|results| - 1]), results[|results| - 1]);
    }
  }

  /** Cases that share a name share their result: what distinct names guarantee. */
  predicate NamesDecide(expected: seq<CaseResult>)
  {
    forall i, j :: 0 <= i < |expected| && 0 <= j < |expected| && expected[i].name == expected[j].name
              ==> expected[i] == expected[j]
  }

  predicate KeysDecide(names: seq<string>, results: seq<CaseResult>)
  {
    forall a, b :: a in results && b in results && Order(names, a.name) == Order(names, b.name) ==> a == b
  }

  lemma FrontMultiset<T>(s: seq<T>)
    requires s != []
    ensures multiset(s[..|s| - 1]) == multiset(s) - multiset{s[|s| - 1]}
  {
    assert s == s[..|s| - 1] + [s[|s| - 1]];
  }

  lemma SameMembers<T>(a: seq<T>, b: seq<T>)
    requires multiset(a) == multiset(b)
    ensures |a| == |b| && forall x :: x in a <==> x in b
  {
    assert |multiset(a)| == |a| && |multiset(b)| == |b|;
    assert forall x :: x in a <==> x in multiset(a);
    assert forall x :: x in b <==> x in multiset(b);
  }

  lemma LastAgrees(names: seq<string>, a: seq<CaseResult>, b: seq<CaseResult>)
    requires multiset(a) == multiset(b) && a != []
    requires Sorted(names, a) && Sorted(names, b) && KeysDecide(names, a)
    ensures |a| == |b| && a[|a| - 1] == b[|b| - 1]
  {
    hide Order;
    SameMembers(a, b);
    var x, y := a[|a| - 1], b[|b| - 1];
    assert x in b && y in a;
    var i :| 0 <= i < |b| && b[i] == x;
    var j :| 0 <= j < |a| && a[j] == y;
    assert Order(names, x.name) == Order(names, y.name);
  }

  /** Two sorted arrangements of the same results are the same list when keys decide the results. */
  lemma {:induction false} SortedUnique(names: seq<string>, a: seq<CaseResult>, b: seq<CaseResult>)
    requires multiset(a) == multiset(b) && Sorted(names, a) && Sorted(names, b) && KeysDecide(names, a)
    ensures a == b
    decreases |a|
  {
    hide Sorted, KeysDecide;
    assert |multiset(a)| == |a| && |multiset(b)| == |b|;
    if a != [] {
      var last := |a| - 1;
      LastAgrees(names, a, b);
      FrontMultiset(a);
      FrontMultiset(b);
      FrontLaws(names, a);
      FrontLaws(names, b);
      SortedUnique(names, a[..last], b[..last]);
      assert a == a[..last] + [a[last]] && b == b[..last] + [b[last]];
    }
  }

  lemma FrontLaws(names: seq<string>, a: seq<CaseResult>)
    requires a != []
    ensures Sorted(names, a) ==> Sorted(names, a[..|a| - 1])
    ensures KeysDecide(names, a) ==> KeysDecide(names, a[..|a| - 1])
  {
    hide Order;
    assert forall r :: r in a[..|a| - 1] ==> r in a;
  }

  lemma {:induction false} OrderFinds(names: seq<string>, name: string)
    requires name in names
    ensures Order(names, name) < |names| && names[Order(names, name)] == name
    ensures forall k :: Order(names, name) < k < |names| ==> names[k] != name
  {
    if names[|names| - 1] != name {
      assert name in names[..|names| - 1];
      OrderFinds(names[..|names| - 1], name);
    }
  }

  lemma NamesDecideKeys(expected: seq<CaseResult>, results: seq<CaseResult>)
    requires NamesDecide(expected) && forall r :: r in results ==> r in expected
    ensures KeysDecide(Names(expected), results)
  {
    var names := Names(expected);
    forall a, b | a in results && b in results && Order(names, a.name) == Order(names, b.name)
      ensures a == b
    {
      var i :| 0 <= i < |expected| && expected[i] == a;
      var j :| 0 <= j < |expected| && expected[j] == b;
      assert names[i] == a.name && names[j] == b.name;
      OrderFinds(names, a.name);
      OrderFinds(names, b.name);
    }
  }

  function Indices(n: nat): (s: seq<nat>)
  {
    seq(n, k requires 0 <= k < n => k)
  }

  lemma {:induction false} IndicesAreAll(n: nat)
    ensures multiset(Indices(n)) == UpTo(n)
  {
    if n > 0 {
      IndicesAreAll(n - 1);
      assert Indices(n) == Indices(n - 1) + [n - 1];
    }
  }

  lemma PushedWithout(expected: seq<CaseResult>, b: seq<nat>, j: nat)
    requires j < |b| && forall k :: 0 <= k < |b| ==> b[k] < |expected|
    ensures multiset(b[..j] + b[j + 1..]) == multiset(b) - multiset{b[j]}
    ensures multiset(Pushed(expected, b))
         == multiset(Pushed(expected, b[..j] + b[j + 1..])) + multiset{expected[b[j]]}
  {
    hide Pushed;
    var left, right := b[..j], b[j + 1..];
    assert b == left + [b[j]] + right;
    var x, y := Pushed(expected, left), Pushed(expected, right);
    assert Pushed(expected, left + right) == x + y;
    assert Pushed(expected, b) == x + [expected[b[j]]] + y;
    assert multiset(x + [expected[b[j]]] + y) == multiset(x + y) + multiset{expected[b[j]]};
  }

  lemma FindIn(a: seq<nat>, b: seq<nat>, i: nat) returns (j: nat)
    requires multiset(a) == multiset(b) && i < |a|
    ensures j < |b| && b[j] == a[i]
  {
    SameMembers(a, b);
    assert a[i] in b;
    j :| 0 <= j < |b| && b[j] == a[i];
  }

  /** Pushing the same indices in another order gives the same results up to order. */
  lemma {:induction false} PushedPermuted(expected: seq<CaseResult>, a: seq<nat>, b: seq<nat>)
    requires multiset(a) == multiset(b)
    requires forall k :: 0 <= k < |a| ==> a[k] < |expected|
    requires forall k :: 0 <= k < |b| ==> b[k] < |expected|
    ensures multiset(Pushed(expected, a)) == multiset(Pushed(expected, b))
    decreases |a|
  {
    assert |multiset(a)| == |a| && |multiset(b)| == |b|;
    if a != [] {
      var last := |a| - 1;
      var j := FindIn(a, b, last);
      var rest := b[..j] + b[j + 1..];
      PushedWithout(expected, a, last);
      PushedWithout(expected, b, j);
      assert a[..last] + a[last + 1..] == a[..last];
      assert forall k :: 0 <= k < |rest| ==> rest[k] < |expected|;
      PushedPermuted(expected, a[..last], rest);
    }
  }

  lemma CompleteIndices(total: nat, finished: seq<nat>)
    requires multiset(finished) == UpTo(total)
    ensures forall k :: 0 <= k < |finished| ==> finished[k] < total
  {
    forall k | 0 <= k < |finished|
      ensures finished[k] < total
    {
      assert finished[k] in multiset(finished);
      UpToCount(total, finished[k]);
    }
  }

  lemma SortedAlike(expected: seq<CaseResult>, results: seq<CaseResult>)
    requires NamesDecide(expected) && multiset(results) == multiset(expected)
    ensures SortResults(Names(expected), results) == SortResults(Names(expected), expected)
  {
    hide SortResults, Order, NamesDecide, Sorted, KeysDecide;
    var names := Names(expected);
    var a, b := SortResults(names, results), SortResults(names, expected);
    SortIsSorted(names, results);
    SortIsSorted(names, expected);
    SameMembers(a, expected);
    NamesDecideKeys(expected, a);
    SortedUnique(names, a, b);
  }

  /** The whole report depends on the set of finished indices only. */
  lemma ReportOfComplete(expected: seq<CaseResult>, finished: seq<nat>)
    requires NamesDecide(expected) && multiset(finished) == UpTo(|expected|)
    ensures forall k :: 0 <= k < |finished| ==> finished[k] < |expected|
    ensures Report(Names(expected), Pushed(expected, finished)) == Report(Names(expected), expected)
  {
    hide SortResults, FailedCount, NamesDecide;
    CompleteIndices(|expected|, finished);
    IndicesAreAll(|expected|);
    PushedPermuted(expected, finished, Indices(|expected|));
    assert Pushed(expected, Indices(|expected|)) == expected;
    SortedAlike(expected, Pushed(expected, finished));
  }

  /**
   * Schedule independence: under every interleaving and any concurrency, the finished pool's
   * report is the one a sequential pass gives.
   */
  lemma ScheduleIndependence(expected: seq<CaseResult>, concurrency: int, schedule: seq<nat>)
    requires NamesDecide(expected)
    requires CanRun(Start(|expected|, WorkerCount(concurrency, |expected|)), |expected|, schedule)
    requires AllDone(Run(Start(|expected|, WorkerCount(concurrency, |expected|)), |expected|, schedule))
    ensures var finished := Run(Start(|expected|, WorkerCount(concurrency, |expected|)), |expected|, schedule).finished;
            && (forall k :: 0 <= k < |finished| ==> finished[k] < |expected|)
            && Report(Names(expected), Pushed(expected, finished)) == Report(Names(expected), expected)
  {
    EveryInterleavingIsComplete(|expected|, concurrency, schedule);
    var end := Run(Start(|expected|, WorkerCount(concurrency, |expected|)), |expected|, schedule);
    ReportOfComplete(expected, end.finished);
  }

  predicate DistinctNames(expected: seq<CaseResult>)
  {
    forall i, j :: 0 <= i < j < |expected| ==> expected[i].name != expected[j].name
  }

  /** With distinct names the sequential report lists the cases in their given order. */
  lemma SequentialReport(expected: seq<CaseResult>)
    requires DistinctNames(expected)
    ensures NamesDecide(expected)
    ensures Report(Names(expected), expected).cases == expected
    ensures Report(Names(expected), expected).totalCases == |expected|
    ensures Counted(expected, Report(Names(expected), expected).passed, Report(Names(expected), expected).failed)
  {
    ReportCounts(expected, Names(expected), expected);
    hide Counted, FailedCount;
    var names := Names(expected);
    forall i | 0 <= i < |expected|
      ensures Order(names, expected[i].name) == i
    {
      assert names[i] == expected[i].name;
      OrderFinds(names, expected[i].name);
    }
    SortIsSorted(names, expected);
    NamesDecideKeys(expected, SortResultsMembers(names, expected));
    SortedUnique(names, SortResults(names, expected), expected);
  }

  function SortResultsMembers(names: seq<string>, expected: seq<CaseResult>): (sorted: seq<CaseResult>)
    ensures sorted == SortResults(names, expected)
    ensures forall r :: r in sorted ==> r in expected
  {
    var sorted := SortResults(names, expected);
    assert forall r :: r in sorted ==> r in multiset(sorted);
    sorted
  }

  // ---- the runner ------------------------------------------------------------------

  /** `runParity`'s closure state: the shared cursor, the workers' awaits and the pushed results. */
  class ParityRun {
    const expected: seq<CaseResult>
    var cursor: nat
    var workers: seq<Worker>
    var results: seq<CaseResult>
    ghost var finished: seq<nat>

    ghost predicate Valid()
      reads this
    {
      && Inv(Pool(cursor, workers, finished), |expected|)
      && (forall k :: 0 <= k < |finished| ==> finished[k] < |expected|)
      && results == Pushed(expected, finished)
      && workers != []
    }

    constructor (expected: seq<CaseResult>, concurrency: int)
      ensures Valid() && this.expected == expected && results == []
      ensures Pool(cursor, workers, finished) == Start(|expected|, WorkerCount(concurrency, |expected|))
    {
      var count := WorkerCount(concurrency, |expected|);
      var position, started := 0, [];
      for i := 0 to count
        invariant Pool(position, started, []) == Start(|expected|, i)
      {
        var (worker, next) := Claim(position, |expected|);
        position, started := next, started + [worker];
      }
      StartInv(|expected|, count);
      this.expected := expected;
      cursor, workers, results := position, started, [];
      finished := [];
    }

    /** One awaited result arrives: push it, then claim the next case or stop. */
    method Arrive(w: nat)
      requires Valid() && w < |workers| && workers[w].Running?
      modifies this
      ensures Valid()
      ensures Pool(cursor, workers, finished) == Resume(old(Pool(cursor, workers, finished)), |expected|, w)
      ensures old(workers[w].index) < |expected| && results == old(results) + [expected[old(workers[w].index)]]
    {
      ghost var before := Pool(cursor, workers, finished);
      var index := workers[w].index;
      AwaitedIndex(before, |expected|, w);
      ResumeInv(before, |expected|, w);
      results := results + [expected[index]];
      finished := finished + [index];
      var (worker, next) := Claim(cursor, |expected|);
      cursor, workers := next, workers[w := worker];
    }
  }

  lemma AwaitedIndex(p: Pool, total: nat, w: nat)
    requires Inv(p, total) && w < |p.workers| && p.workers[w].Running?
    ensures p.workers[w].index < total
  {
    AwaitedMember(p.workers, w);
    assert Claims(p, p.workers[w].index) >= 1;
  }

  lemma {:induction false} AwaitedMember(workers: seq<Worker>, w: nat)
    requires w < |workers| && workers[w].Running?
    ensures workers[w].index in multiset(Awaited(workers))
  {
    if w < |workers| - 1 {
      AwaitedMember(workers[..|workers| - 1], w);
    }
  }

  /** The places of the results that passed, or that failed. */
  function PlacesWith(results: seq<CaseResult>, ok: bool): (places: set<nat>)
  {
    set i: nat | i < |results| && results[i].ok == ok
  }

  lemma {:induction false} FailedCountIs(results: seq<CaseResult>)
    ensures FailedCount(results) == |PlacesWith(results, false)|
    ensures |results| - FailedCount(results) == |PlacesWith(results, true)|
  {
    if results != [] {
      var last := |results| - 1;
      FailedCountIs(results[..last]);
      PlacesWithStep(results, true);
      PlacesWithStep(results, false);
      hide PlacesWith;
    }
  }

  lemma PlacesWithStep(results: seq<CaseResult>, ok: bool)
    requires results != []
    ensures var last := |results| - 1;
            && last !in PlacesWith(results[..last], ok)
            && PlacesWith(results, ok)
               == PlacesWith(results[..last], ok) + if results[last].ok == ok then {last} else {}
  {
  }

  lemma {:induction false} FailedCountPermuted(a: seq<CaseResult>, b: seq<CaseResult>)
    requires multiset(a) == multiset(b)
    ensures FailedCount(a) == FailedCount(b)
    decreases |a|
  {
    assert |multiset(a)| == |a| && |multiset(b)| == |b|;
    if a != [] {
      var last := |a| - 1;
      SameMembers(a, b);
      assert a[last] in b;
      var j :| 0 <= j < |b| && b[j] == a[last];
      FrontMultiset(a);
      assert b == b[..j] + [b[j]] + b[j + 1..];
      FailedCountPermuted(a[..last], b[..j] + b[j + 1..]);
      FailedCountWithout(b, j);
    }
  }

  lemma {:induction false} FailedCountWithout(b: seq<CaseResult>, j: nat)
    requires j < |b|
    ensures FailedCount(b) == FailedCount(b[..j] + b[j + 1..]) + (if b[j].ok then 0 else 1)
  {
    hide FailedCount;
    var last := |b| - 1;
    var front := b[..last];
    assert b == front + [b[last]];
    FailedCountSnoc(front, b[last]);
    if j == last {
      assert b[..j] + b[j + 1..] == front;
    } else {
      var inner := front[..j] + front[j + 1..];
      FailedCountWithout(front, j);
      FailedCountSnoc(inner, b[last]);
      assert b[..j] + b[j + 1..] == inner + [b[last]];
    }
  }

  lemma FailedCountSnoc(front: seq<CaseResult>, r: CaseResult)
    ensures FailedCount(front + [r]) == FailedCount(front) + (if r.ok then 0 else 1)
  {
    assert (front + [r])[..|front|] == front;
  }

  /** The two counts are the numbers of the cases that pass and that fail; none fails iff all pass. */
  predicate Counted(expected: seq<CaseResult>, passed: int, failed: int)
  {
    && passed == |PlacesWith(expected, true)| && failed == |PlacesWith(expected, false)|
    && (failed == 0 <==> forall i :: 0 <= i < |expected| ==> expected[i].ok)
  }

  lemma CountsAre(expected: seq<CaseResult>)
    ensures Counted(expected, |expected| - FailedCount(expected), FailedCount(expected))
  {
    hide FailedCount;
    FailedCountIs(expected);
    var failing := PlacesWith(expected, false);
    forall i | 0 <= i < |expected| && failing == {}
      ensures expected[i].ok
    {
      assert i !in failing;
    }
    if failing != {} {
      var i := Member(failing);
      assert !expected[i].ok;
    }
  }

  /** Any arrangement of the cases' results is counted alike. */
  lemma ReportCounts(expected: seq<CaseResult>, names: seq<string>, results: seq<CaseResult>)
    requires multiset(results) == multiset(expected)
    ensures Counted(expected, Report(names, results).passed, Report(names, results).failed)
  {
    hide Counted, FailedCount, SortResults;
    CountsAre(expected);
    FailedCountPermuted(SortResults(names, results), expected);
    assert |multiset(SortResults(names, results))| == |multiset(expected)|;
  }

  /** Whatever order a complete pool pushed its results in: each is there once, sorted, and counted. */
  lemma ReportIsComplete(expected: seq<CaseResult>, finished: seq<nat>)
    requires multiset(finished) == UpTo(|expected|)
    ensures forall k :: 0 <= k < |finished| ==> finished[k] < |expected|
    ensures var report := Report(Names(expected), Pushed(expected, finished));
            && multiset(report.cases) == multiset(expected) && Sorted(Names(expected), report.cases)
            && report.totalCases == |expected| && Counted(expected, report.passed, report.failed)
  {
    hide Counted, SortResults, FailedCount, Sorted;
    CompleteIndices(|expected|, finished);
    IndicesAreAll(|expected|);
    PushedPermuted(expected, finished, Indices(|expected|));
    assert Pushed(expected, Indices(|expected|)) == expected;
    var results := Pushed(expected, finished);
    SortIsSorted(Names(expected), results);
    SameMembers(SortResults(Names(expected), results), expected);
    ReportCounts(expected, Names(expected), results);
  }

  /**
   * `runParity`, with the event loop's choice of the next arrival left open: whatever it picks,
   * the run ends with every case reported once, in the order of the names' positions, and with
   * names that decide the results the report is the sequential one.
   */
  method RunParity(expected: seq<CaseResult>, concurrency: int) returns (report: ParityReport)
    ensures multiset(report.cases) == multiset(expected) && Sorted(Names(expected), report.cases)
    ensures report.totalCases == |expected| && Counted(expected, report.passed, report.failed)
    ensures DistinctNames(expected) ==> report.cases == expected
    ensures NamesDecide(expected) ==> report == Report(Names(expected), expected)
  {
    hide Sorted, SortResults, FailedCount, Order, Awaited, UpTo, NamesDecide, Report, Counted, DistinctNames;
    var run := new ParityRun(expected, concurrency);
    while exists w :: 0 <= w < |run.workers| && run.workers[w].Running?
      invariant run.Valid() && run.expected == expected
      decreases Remaining(Pool(run.cursor, run.workers, run.finished), |expected|)
    {
      var w :| 0 <= w < |run.workers| && run.workers[w].Running?;
      ghost var before := Pool(run.cursor, run.workers, run.finished);
      ResumeProgress(before, |expected|, w);
      ResumeInv(before, |expected|, w);
      run.Arrive(w);
    }
    ghost var end := Pool(run.cursor, run.workers, run.finished);
    DoneMeansComplete(end, |expected|);
    ReportIsComplete(expected, run.finished);
    if NamesDecide(expected) {
      ReportOfComplete(expected, run.finished);
    }
    if DistinctNames(expected) {
      SequentialReport(expected);
      ReportOfComplete(expected, run.finished);
    }
    report := Report(Names(expected), run.results);
  }
}
