/** When the order of arrival shows in `runParity`'s report: which pools have two schedules with two reports. */
module ParitySchedules {
  import opened Wrappers
  import opened ParityCase
  import opened ParityPool

  /** The pool of a run before any result has arrived. */
  function Begin(expected: seq<CaseResult>, concurrency: int): (p: Pool)
  {
    Start(|expected|, WorkerCount(concurrency, |expected|))
  }

  /** An order of arrivals that lets every worker finish. */
  predicate Complete(expected: seq<CaseResult>, concurrency: int, schedule: seq<nat>)
  {
    CanRun(Begin(expected, concurrency), |expected|, schedule)
    && AllDone(Run(Begin(expected, concurrency), |expected|, schedule))
  }

  function FinishedBy(expected: seq<CaseResult>, concurrency: int, schedule: seq<nat>): (finished: seq<nat>)
    requires Complete(expected, concurrency, schedule)
    ensures multiset(finished) == UpTo(|expected|)
    ensures forall k :: 0 <= k < |finished| ==> finished[k] < |expected|
  {
    EveryInterleavingIsComplete(|expected|, concurrency, schedule);
    var finished := Run(Begin(expected, concurrency), |expected|, schedule).finished;
    CompleteIndices(|expected|, finished);
    finished
  }

  /** The report of a run whose results arrive in that order. */
  function ReportBy(expected: seq<CaseResult>, concurrency: int, schedule: seq<nat>): (report: ParityReport)
    requires Complete(expected, concurrency, schedule)
  {
    Report(Names(expected), Pushed(expected, FinishedBy(expected, concurrency, schedule)))
  }

  // ---- holding one case back -------------------------------------------------------

  lemma {:induction false} AwaitedTwice(workers: seq<Worker>, a: nat, b: nat, i: nat)
    requires a < b < |workers| && workers[a] == Running(i) && workers[b] == Running(i)
    ensures multiset(Awaited(workers))[i] >= 2
  {
    var last := |workers| - 1;
    hide Awaited;
    AwaitedLast(workers, i);
    if b < last {
      AwaitedTwice(workers[..last], a, b, i);
    } else {
      AwaitedMember(workers[..last], a);
    }
  }

  lemma {:induction false} AwaitedSource(workers: seq<Worker>, i: nat) returns (w: nat)
    requires multiset(Awaited(workers))[i] >= 1
    ensures w < |workers| && workers[w] == Running(i)
  {
    if workers == [] {
      assert false;
    }
    var last := |workers| - 1;
    AwaitedLast(workers, i);
    hide Awaited;
    if workers[last] == Running(i) {
      w := last;
    } else {
      w := AwaitedSource(workers[..last], i);
    }
  }

  /** When only one case is left awaited, its worker's arrival is the last one. */
  lemma LastArrival(p: Pool, total: nat, i: nat) returns (w: nat)
    requires Inv(p, total) && |p.workers| >= 2 && i < total && i !in p.finished
    requires forall v :: 0 <= v < |p.workers| && p.workers[v].Running? ==> p.workers[v].index == i
    ensures w < |p.workers| && p.workers[w].Running? && AllDone(Resume(p, total, w))
    ensures Resume(p, total, w).finished == p.finished + [i]
  {
    hide Awaited;
    assert Claims(p, i) == if i < p.cursor then 1 else 0;
    forall a, b | 0 <= a < b < |p.workers| && p.workers[a].Running? && p.workers[b].Running?
      ensures false
    {
      AwaitedTwice(p.workers, a, b, i);
    }
    assert p.workers[0].Done? || p.workers[1].Done?;
    assert multiset(p.finished)[i] == 0;
    w := AwaitedSource(p.workers, i);
  }

  lemma OneArrival(p: Pool, total: nat, w: nat)
    requires w < |p.workers| && p.workers[w].Running?
    ensures CanRun(p, total, [w]) && Run(p, total, [w]) == Resume(p, total, w)
  {
    var schedule := [w];
    assert schedule[1..] == [];
    assert CanRun(Resume(p, total, w), total, []);
  }

  /** With two workers or more, any case that has not finished can be made the last to arrive. */
  lemma {:induction false} HoldBack(p: Pool, total: nat, i: nat) returns (schedule: seq<nat>)
    requires Inv(p, total) && |p.workers| >= 2 && i < total && i !in p.finished
    ensures CanRun(p, total, schedule) && AllDone(Run(p, total, schedule))
    ensures var finished := Run(p, total, schedule).finished; finished != [] && finished[|finished| - 1] == i
    decreases Remaining(p, total)
  {
    hide Inv, Remaining, Awaited;
    if w: nat :| w < |p.workers| && p.workers[w].Running? && p.workers[w].index != i {
      var next := Resume(p, total, w);
      ResumeInv(p, total, w);
      ResumeProgress(p, total, w);
      RemainingIsNatural(next, total);
      var rest := HoldBack(next, total, i);
      schedule := [w] + rest;
      assert schedule[0] == w && schedule[1..] == rest;
    } else {
      var w := LastArrival(p, total, i);
      schedule := [w];
      OneArrival(p, total, w);
    }
  }

  lemma RemainingIsNatural(p: Pool, total: nat)
    requires Inv(p, total)
    ensures Remaining(p, total) >= 0
  {
  }

  // ---- a single worker -------------------------------------------------------------

  lemma {:induction false} OneWorkerOnly(p: Pool, total: nat, schedule: seq<nat>)
    requires |p.workers| == 1 && CanRun(p, total, schedule)
    ensures forall k :: 0 <= k < |schedule| ==> schedule[k] == 0
    decreases |schedule|
  {
    if schedule != [] {
      OneWorkerOnly(Resume(p, total, schedule[0]), total, schedule[1..]);
      assert forall k :: 1 <= k < |schedule| ==> schedule[k] == schedule[1..][k - 1];
    }
  }

  // ---- the last result of a name ---------------------------------------------------

  /** The last result whose name has the given position. */
  function LastAt(names: seq<string>, results: seq<CaseResult>, position: nat): (r: Option<CaseResult>)
  {
    if results == [] then None
    else
      var last := results[|results| - 1];
      if Order(names, last.name) == position then Some(last)
      else LastAt(names, results[..|results| - 1], position)
  }

  lemma LastAtSnoc(names: seq<string>, front: seq<CaseResult>, r: CaseResult, position: nat)
    ensures LastAt(names, front + [r], position)
         == if Order(names, r.name) == position then Some(r) else LastAt(names, front, position)
  {
    assert (front + [r])[..|front|] == front;
  }

  lemma {:induction false} InsertKeepsLast(names: seq<string>, sorted: seq<CaseResult>, r: CaseResult, position: nat)
    ensures LastAt(names, InsertStable(names, sorted, r), position)
         == if Order(names, r.name) == position then Some(r) else LastAt(names, sorted, position)
  {
    hide Order;
    if sorted == [] {
      LastAtSnoc(names, [], r, position);
      assert [] + [r] == [r];
    } else {
      var last := sorted[|sorted| - 1];
      LastAtSnoc(names, sorted, r, position);
      if Order(names, last.name) > Order(names, r.name) {
        InsertKeepsLast(names, sorted[..|sorted| - 1], r, position);
        LastAtSnoc(names, InsertStable(names, sorted[..|sorted| - 1], r), last, position);
      }
    }
  }

  /** The sort is stable: the last result of a name stays the last one of that name. */
  lemma {:induction false} SortKeepsLast(names: seq<string>, results: seq<CaseResult>, position: nat)
    ensures LastAt(names, SortResults(names, results), position) == LastAt(names, results, position)
  {
    hide Order, InsertStable;
    if results != [] {
      var last := |results| - 1;
      SortKeepsLast(names, results[..last], position);
      InsertKeepsLast(names, SortResults(names, results[..last]), results[last], position);
    }
  }

  /** A run that pushes a case last reports that case's result as the last one of its name. */
  lemma LastPushedShows(expected: seq<CaseResult>, concurrency: int, schedule: seq<nat>, i: nat)
    requires Complete(expected, concurrency, schedule) && i < |expected|
    requires var finished := FinishedBy(expected, concurrency, schedule);
             finished != [] && finished[|finished| - 1] == i
    ensures LastAt(Names(expected), ReportBy(expected, concurrency, schedule).cases,
                   Order(Names(expected), expected[i].name)) == Some(expected[i])
  {
    hide Complete, Order, SortResults, FailedCount;
    var names, position := Names(expected), Order(Names(expected), expected[i].name);
    var results := Pushed(expected, FinishedBy(expected, concurrency, schedule));
    SortKeepsLast(names, results, position);
  }

  // ---- the exact condition ---------------------------------------------------------

  lemma HeldBackRun(expected: seq<CaseResult>, concurrency: int, i: nat) returns (schedule: seq<nat>)
    requires WorkerCount(concurrency, |expected|) >= 2 && i < |expected|
    ensures Complete(expected, concurrency, schedule)
    ensures LastAt(Names(expected), ReportBy(expected, concurrency, schedule).cases,
                   Order(Names(expected), expected[i].name)) == Some(expected[i])
  {
    hide Inv, Order, Report, Pushed;
    StartInv(|expected|, WorkerCount(concurrency, |expected|));
    schedule := HoldBack(Begin(expected, concurrency), |expected|, i);
    LastPushedShows(expected, concurrency, schedule, i);
  }

  lemma SameReport(expected: seq<CaseResult>, concurrency: int, s: seq<nat>, t: seq<nat>)
    requires Complete(expected, concurrency, s) && Complete(expected, concurrency, t)
    requires WorkerCount(concurrency, |expected|) < 2 || NamesDecide(expected)
    ensures ReportBy(expected, concurrency, s) == ReportBy(expected, concurrency, t)
  {
    hide NamesDecide, Report, Inv, Pushed;
    if NamesDecide(expected) {
      ReportOfComplete(expected, FinishedBy(expected, concurrency, s));
      ReportOfComplete(expected, FinishedBy(expected, concurrency, t));
    } else {
      EveryInterleavingIsComplete(|expected|, concurrency, s);
      EveryInterleavingIsComplete(|expected|, concurrency, t);
      OneWorkerOnly(Begin(expected, concurrency), |expected|, s);
      OneWorkerOnly(Begin(expected, concurrency), |expected|, t);
      assert s == t;
    }
  }

  ghost predicate ScheduleShows(expected: seq<CaseResult>, concurrency: int)
  {
    exists s: seq<nat>, t: seq<nat> ::
      Complete(expected, concurrency, s) && Complete(expected, concurrency, t)
      && ReportBy(expected, concurrency, s) != ReportBy(expected, concurrency, t)
  }

  /**
   * The order of arrival shows in the report, for some two complete schedules, exactly when there are
   * two workers or more and two cases of one name with different results.
   */
  lemma ScheduleShowsIff(expected: seq<CaseResult>, concurrency: int)
    ensures ScheduleShows(expected, concurrency)
       <==> WorkerCount(concurrency, |expected|) >= 2 && !NamesDecide(expected)
  {
    hide Complete, ReportBy, Order, LastAt;
    if WorkerCount(concurrency, |expected|) >= 2 && !NamesDecide(expected) {
      var i, j :| 0 <= i < |expected| && 0 <= j < |expected| && expected[i].name == expected[j].name
                  && expected[i] != expected[j];
      var s := HeldBackRun(expected, concurrency, i);
      var t := HeldBackRun(expected, concurrency, j);
    } else if ScheduleShows(expected, concurrency) {
      var s, t :| Complete(expected, concurrency, s) && Complete(expected, concurrency, t)
                  && ReportBy(expected, concurrency, s) != ReportBy(expected, concurrency, t);
      SameReport(expected, concurrency, s, t);
    }
  }

  /** The smallest such run: two cases of one name that differ in anything the report lists, the input included. */
  lemma TwoOfOneName(first: CaseResult, second: CaseResult)
    requires first.name == second.name && first != second
    ensures ScheduleShows([first, second], 2)
  {
    hide ScheduleShows;
    var expected := [first, second];
    ScheduleShowsIff(expected, 2);
    assert expected[0].name == expected[1].name && expected[0] != expected[1];
  }
}
