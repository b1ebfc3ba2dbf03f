/**
 * The lower / tick / restore protocol of scripts/backfill-history-summaries.ts: a state machine
 * over the databases an operator can target and the one state file between the two phases.
 */
module WatermarkBackfill {
  import opened Wrappers
  import opened Extremes
  import opened IsoWeek
  import opened Aggregation

  /** The state file: null watermarks are None; `loweredTo` None records a verify-only backfill. */
  datatype BackfillState = BackfillState(
    target: string, preWatermark: Option<Instant>, loweredTo: Option<Instant>, windowDays: nat, loweredAt: Instant)

  datatype System = System(dbs: map<string, Db>, file: Option<BackfillState>)

  /** A phase's exit code and what it left behind. */
  datatype Outcome = Outcome(code: nat, system: System)

  function Cutoff(now: Instant, windowDays: nat): (cutoff: Instant) { now - windowDays * DAY_MS }

  /** The recorded lowering is still in effect: the watermark sits at or below the lowered value. */
  predicate StillLowered(db: Db, state: BackfillState)
  {
    state.loweredTo.Some? && db.watermark.Some? && db.watermark.value <= state.loweredTo.value
  }

  function WithWatermark(sys: System, target: string, watermark: Instant): (s: System)
    requires target in sys.dbs
  {
    sys.(dbs := sys.dbs[target := sys.dbs[target].(watermark := Some(watermark))])
  }

  /** `--lower`. Exit 2: the state file belongs to another target. */
  function Lower(sys: System, target: string, now: Instant, windowDays: nat): (r: Outcome)
    requires target in sys.dbs
    ensures r.system.dbs.Keys == sys.dbs.Keys
  {
    var db := sys.dbs[target];
    if sys.file.Some? && sys.file.value.target != target then Outcome(2, sys)
    else if sys.file.Some? && StillLowered(db, sys.file.value) then Outcome(0, sys)
    else
      var cutoff := Cutoff(now, windowDays);
      if Missing(db, cutoff) == {} then Outcome(0, sys)
      else
        var lowered := StartOfIsoWeek(Earliest(db, cutoff));
        if db.watermark.None? || lowered >= db.watermark.value then
          Outcome(0, sys.(file := Some(BackfillState(target, db.watermark, None, windowDays, now))))
        else
          Outcome(0, WithWatermark(sys, target, lowered)
                     .(file := Some(BackfillState(target, db.watermark, Some(lowered), windowDays, now))))
  }

  /** The watermark is below the recorded pre-value of a lowering. */
  predicate BelowPre(db: Db, state: BackfillState)
  {
    state.loweredTo.Some? && state.preWatermark.Some? && db.watermark.Some?
    && db.watermark.value < state.preWatermark.value
  }

  /** `--restore`, with or without `--force`. Exit 2: no state file, or another target's. */
  function Restore(sys: System, target: string, now: Instant, force: bool): (r: Outcome)
    requires target in sys.dbs
    ensures r.system.dbs.Keys == sys.dbs.Keys
  {
    var db := sys.dbs[target];
    if sys.file.None? || sys.file.value.target != target then Outcome(2, sys)
    else
      var state := sys.file.value;
      if Missing(db, Cutoff(now, state.windowDays)) == {} then
        var restored := if BelowPre(db, state) then WithWatermark(sys, target, state.preWatermark.value) else sys;
        Outcome(0, restored.(file := None))
      else if StillLowered(db, state) && !force then Outcome(1, sys)
      else if state.loweredTo.Some? && state.preWatermark.Some? && (force || BelowPre(db, state)) then
        Outcome(1, WithWatermark(sys, target, state.preWatermark.value))
      else Outcome(1, sys)
  }

  /** `--verify`: the coverage query alone. */
  function Verify(db: Db, now: Instant, windowDays: nat): (code: nat)
  {
    if Missing(db, Cutoff(now, windowDays)) == {} then 0 else 1
  }

  // ---- runs ------------------------------------------------------------------------

  datatype Step =
    | LowerStep(target: string, now: Instant, windowDays: nat)
    | RestoreStep(target: string, now: Instant)
    | TickStep(target: string)
    | AppendStep(target: string, observation: Observation)

  /** One step of a run without `--force`. Observations only append; ticks come at any time. */
  function Do(sys: System, step: Step): (next: System)
    requires step.target in sys.dbs
    ensures next.dbs.Keys == sys.dbs.Keys
  {
    var db := sys.dbs[step.target];
    match step
    case LowerStep(target, now, windowDays) => Lower(sys, target, now, windowDays).system
    case RestoreStep(target, now) => Restore(sys, target, now, false).system
    case TickStep(target) => sys.(dbs := sys.dbs[target := Tick(db)])
    case AppendStep(target, o) =>
      sys.(dbs := sys.dbs[target := db.(observations := db.observations + {o})])
  }

  predicate Enabled(sys: System, steps: seq<Step>)
  {
    forall i :: 0 <= i < |steps| ==> steps[i].target in sys.dbs
  }

  function Run(sys: System, steps: seq<Step>): (end: System)
    requires Enabled(sys, steps)
    ensures end.dbs.Keys == sys.dbs.Keys
  {
    if steps == [] then sys
    else
      assert forall i :: 0 <= i < |steps| - 1 ==> steps[..|steps| - 1][i] == steps[i];
      Do(Run(sys, steps[..|steps| - 1]), steps[|steps| - 1])
  }

  // ---- safety over whole runs ------------------------------------------------------

  /** The watermark is some observation's instant or older: the job only ever writes those. */
  predicate WatermarkObserved(db: Db)
  {
    db.watermark.Some? ==> exists o :: o in db.observations && db.watermark.value <= o.at
  }

  /** An open lowered backfill: its target, its values, and where the watermark may stand. */
  predicate OpenIsSafe(sys: System)
  {
    sys.file.Some? && sys.file.value.loweredTo.Some? && sys.file.value.target in sys.dbs ==>
      var state, db := sys.file.value, sys.dbs[sys.file.value.target];
      && state.preWatermark.Some?
      && state.loweredTo.value < state.preWatermark.value
      && (exists o :: o in db.observations && state.preWatermark.value <= o.at)
      && db.watermark.Some?
      && (db.watermark.value == state.loweredTo.value || state.preWatermark.value <= db.watermark.value)
  }

  predicate Inv(sys: System)
  {
    OpenIsSafe(sys) && forall target :: target in sys.dbs ==> WatermarkObserved(sys.dbs[target])
  }

  lemma LowerKeepsInv(sys: System, target: string, now: Instant, windowDays: nat)
    requires Inv(sys) && target in sys.dbs
    ensures Inv(Lower(sys, target, now, windowDays).system)
  {
    hide Missing, StartOfIsoWeek, Earliest;
    var db := sys.dbs[target];
    var cutoff := Cutoff(now, windowDays);
    assert WatermarkObserved(db);
    var next := Lower(sys, target, now, windowDays).system;
    if next != sys && Missing(db, cutoff) != {} {
      if db.watermark.Some? && StartOfIsoWeek(Earliest(db, cutoff)) < db.watermark.value {
        var o :| o in db.observations && db.watermark.value <= o.at;
        assert next.dbs[target].watermark.value <= o.at;
        assert WatermarkObserved(next.dbs[target]);
      }
    }
  }

  lemma RestoreKeepsInv(sys: System, target: string, now: Instant)
    requires Inv(sys) && target in sys.dbs
    ensures Inv(Restore(sys, target, now, false).system)
  {
    hide Missing;
    var db := sys.dbs[target];
    if sys.file.Some? && sys.file.value.target == target && BelowPre(db, sys.file.value) {
      var pre := sys.file.value.preWatermark.value;
      var o :| o in db.observations && pre <= o.at;
      assert WatermarkObserved(db.(watermark := Some(pre)));
    }
  }

  lemma TickKeepsInv(sys: System, target: string)
    requires Inv(sys) && target in sys.dbs
    ensures Inv(sys.(dbs := sys.dbs[target := Tick(sys.dbs[target])]))
  {
    var db := sys.dbs[target];
    var after := Tick(db);
    assert WatermarkObserved(db);
    TickMonotone(db);
    hide Slice, WrittenBuckets, ActiveProducts, Pending;
    if ActiveProducts(db) != {} && IsFinalChunk(db) {
      var o :| o in db.observations && Advanced(db) <= o.at;
      assert WatermarkObserved(after);
      if sys.file.Some? && sys.file.value.loweredTo.Some? && sys.file.value.target == target {
        var pre := sys.file.value.preWatermark.value;
        var newest :| newest in db.observations && pre <= newest.at;
        assert pre <= Advanced(db) by {
          if db.watermark.value < pre {
            assert IsActive(db, newest);
          }
        }
      }
    }
  }

  lemma AppendKeepsInv(sys: System, target: string, o: Observation)
    requires Inv(sys) && target in sys.dbs
    ensures Inv(sys.(dbs := sys.dbs[target := sys.dbs[target].(observations := sys.dbs[target].observations + {o})]))
  {
    var db := sys.dbs[target];
    var after := db.(observations := db.observations + {o});
    assert WatermarkObserved(db);
    assert db.observations <= after.observations;
    if db.watermark.Some? {
      var w :| w in db.observations && db.watermark.value <= w.at;
      assert w in after.observations;
    }
    if sys.file.Some? && sys.file.value.loweredTo.Some? && sys.file.value.target == target {
      var n :| n in db.observations && sys.file.value.preWatermark.value <= n.at;
      assert n in after.observations;
    }
  }

  lemma DoKeepsInv(sys: System, step: Step)
    requires Inv(sys) && step.target in sys.dbs
    ensures Inv(Do(sys, step))
  {
    hide Inv, Lower, Restore, Tick;
    match step
    case LowerStep(target, now, windowDays) => LowerKeepsInv(sys, target, now, windowDays);
    case RestoreStep(target, now) => RestoreKeepsInv(sys, target, now);
    case TickStep(target) => TickKeepsInv(sys, target);
    case AppendStep(target, o) => AppendKeepsInv(sys, target, o);
  }

  /**
   * Over every run of lowers, repeated lowers, ticks, appends and non-forced restores, on any
   * of the databases and at any times: an open lowered backfill's watermark stands at the
   * lowered value or at or above the recorded pre-backfill one.
   */
  lemma {:induction false} RunKeepsInv(sys: System, steps: seq<Step>)
    requires Inv(sys) && Enabled(sys, steps)
    ensures Inv(Run(sys, steps))
  {
    hide Inv, Do;
    if steps != [] {
      var front := steps[..|steps| - 1];
      assert forall i :: 0 <= i < |front| ==> front[i] == steps[i];
      RunKeepsInv(sys, front);
      DoKeepsInv(Run(sys, front), steps[|steps| - 1]);
    }
  }

  /** Only lowers of one database, whatever their instants and windows. */
  predicate OnlyLowers(steps: seq<Step>, target: string)
  {
    forall i :: 0 <= i < |steps| ==> steps[i].LowerStep? && steps[i].target == target
  }

  /** However often a lower is repeated while the recorded lowering is in effect: nothing changes, each exits 0. */
  lemma {:induction false} RepeatedLower(sys: System, target: string, steps: seq<Step>)
    requires target in sys.dbs && sys.file.Some? && sys.file.value.target == target
    requires StillLowered(sys.dbs[target], sys.file.value)
    requires OnlyLowers(steps, target)
    ensures Enabled(sys, steps) && Run(sys, steps) == sys
    ensures forall now: Instant, windowDays: nat :: Lower(sys, target, now, windowDays) == Outcome(0, sys)
  {
    if steps != [] {
      var front := steps[..|steps| - 1];
      assert forall i :: 0 <= i < |front| ==> front[i] == steps[i];
      RepeatedLower(sys, target, front);
    }
  }

  /** Right after a lowering, and until the watermark moves, another lower is such a no-op. */
  lemma LowerTwice(sys: System, target: string, now: Instant, windowDays: nat, later: Instant, otherWindow: nat)
    requires target in sys.dbs
    ensures var first := Lower(sys, target, now, windowDays);
            first.system.dbs != sys.dbs ==> Lower(first.system, target, later, otherWindow) == Outcome(0, first.system)
  {
    hide Missing, StartOfIsoWeek, Earliest;
  }

  /** A restore without `--force` never decreases any watermark, whatever the state file says. */
  lemma RestoreNeverRegresses(sys: System, target: string, now: Instant, any: string)
    requires target in sys.dbs && any in sys.dbs
    ensures var after := Restore(sys, target, now, false).system;
            && after.dbs.Keys == sys.dbs.Keys
            && (sys.dbs[any].watermark.Some?
                ==> after.dbs[any].watermark.Some? && sys.dbs[any].watermark.value <= after.dbs[any].watermark.value)
  {
    hide Missing;
  }

  /** Where an unforced restore leaves the watermark: at the recorded one if that is higher, else where it was. */
  lemma RestoreWatermark(sys: System, target: string, now: Instant)
    requires target in sys.dbs && sys.file.Some? && sys.file.value.target == target
    requires sys.dbs[target].watermark.Some?
    ensures var state, db := sys.file.value, sys.dbs[target];
            var after := Restore(sys, target, now, false).system.dbs[target];
            var covered := Missing(db, Cutoff(now, state.windowDays)) == {};
            && after.watermark.Some? && after == db.(watermark := after.watermark)
            && (covered || !StillLowered(db, state) ==>
                  var raise := state.loweredTo.Some? && state.preWatermark.Some?
                               && db.watermark.value < state.preWatermark.value;
                  after.watermark.value == if raise then state.preWatermark.value else db.watermark.value)
            && (!covered && StillLowered(db, state) ==> after.watermark == db.watermark)
  {
    hide Missing;
  }

  /** With `--force` it regresses exactly when it overwrites a watermark already above the pre-value. */
  lemma ForcedRestoreRegressesIff(sys: System, target: string, now: Instant)
    requires target in sys.dbs && sys.dbs[target].watermark.Some?
    ensures var after := Restore(sys, target, now, true).system.dbs[target].watermark;
            after.Some? && (after.value < sys.dbs[target].watermark.value <==>
              && sys.file.Some? && sys.file.value.target == target
              && sys.file.value.loweredTo.Some? && sys.file.value.preWatermark.Some?
              && Missing(sys.dbs[target], Cutoff(now, sys.file.value.windowDays)) != {}
              && sys.file.value.preWatermark.value < sys.dbs[target].watermark.value)
  {
    hide Missing;
  }

  /** Such a restore: the job has gone past the recorded watermark, a later observation still lacks its bucket. */
  lemma ForcedRestoreRegresses()
    ensures exists sys: System, target: string, now: Instant ::
              && target in sys.dbs && Inv(sys) && sys.file.Some? && sys.file.value.loweredTo.Some?
              && sys.dbs[target].watermark.Some? && Restore(sys, target, now, true).code == 1
              && Restore(sys, target, now, true).system.dbs[target].watermark == sys.file.value.preWatermark
              && sys.file.value.preWatermark.value < sys.dbs[target].watermark.value
  {
    var monday := StartOfIsoWeek(0);
    AnchorLaws(0, 0);
    var o := Observation(1, monday + 2);
    var db := Db(Some(monday + 2), 0, {o}, {});
    var state := BackfillState("t", Some(monday + 1), Some(monday), 0, monday + 1);
    var sys := System(map["t" := db], Some(state));
    assert o in db.observations;
    assert 1 in Observed(db, Cutoff(monday + 2, 0)) && 1 in Missing(db, Cutoff(monday + 2, 0));
    assert Inv(sys);
    assert Restore(sys, "t", monday + 2, true).system.dbs["t"].watermark == Some(monday + 1);
  }

  /** When a lowered backfill's restore returns 0, coverage holds and the watermark is back at or above pre. */
  lemma CompletedRestore(sys: System, target: string, now: Instant)
    requires Inv(sys) && target in sys.dbs
    requires sys.file.Some? && sys.file.value.loweredTo.Some?
    requires Restore(sys, target, now, false).code == 0
    ensures var state, after := sys.file.value, Restore(sys, target, now, false).system;
            && state.preWatermark.Some? && after.dbs[target].watermark.Some?
            && state.preWatermark.value <= after.dbs[target].watermark.value
            && after.file.None?
            && Missing(after.dbs[target], Cutoff(now, state.windowDays)) == {}
  {
    var state := sys.file.value;
    var after := Restore(sys, target, now, false).system;
    ObservedOnly(sys.dbs[target], after.dbs[target], Cutoff(now, state.windowDays));
  }

  // ---- gap closing -----------------------------------------------------------------

  /** No lowering is in effect: there is no state file, or a stale one of this very target. */
  predicate Fresh(sys: System, target: string)
    requires target in sys.dbs
  {
    sys.file.Some? ==> sys.file.value.target == target && !StillLowered(sys.dbs[target], sys.file.value)
  }

  /** Where a fresh lower leaves the watermark: at the Monday of the earliest gap, or where it was if not above it. */
  function LoweredWatermark(db: Db, cutoff: Instant): (watermark: Option<Instant>)
  {
    if Missing(db, cutoff) == {} || db.watermark.None? then db.watermark
    else
      var monday := StartOfIsoWeek(Earliest(db, cutoff));
      Some(if monday < db.watermark.value then monday else db.watermark.value)
  }

  /** Whatever branch it takes, a fresh lower sets that watermark, and every gap is reached from it. */
  lemma LowerReaches(sys: System, target: string, now: Instant, windowDays: nat)
    requires target in sys.dbs && Fresh(sys, target)
    ensures var db, cutoff := sys.dbs[target], Cutoff(now, windowDays);
            var after := Lower(sys, target, now, windowDays).system.dbs[target];
            && after == db.(watermark := LoweredWatermark(db, cutoff))
            && Missing(after, cutoff) == Missing(db, cutoff)
            && Reaches(after, cutoff)
  {
    hide Missing, Earliest, StartOfIsoWeek;
    var db, cutoff := sys.dbs[target], Cutoff(now, windowDays);
    var after := Lower(sys, target, now, windowDays).system.dbs[target];
    ObservedOnly(db, after, cutoff);
    if Missing(db, cutoff) != {} {
      AnchorLaws(Earliest(db, cutoff), Earliest(db, cutoff));
    }
  }

  /**
   * Gap closing: after a fresh lower, in all its branches, a pass with appends between its ticks
   * leaves missing exactly the products at or below the cursor of a pass that was in flight, and
   * those that are appended where the pass does not come by any more.
   */
  lemma LowerThenPass(
      sys: System, target: string, now: Instant, windowDays: nat, turns: seq<set<Observation>>)
    requires target in sys.dbs && Fresh(sys, target)
    ensures var lowered := Lower(sys, target, now, windowDays).system.dbs[target];
            var cutoff := Cutoff(now, windowDays);
            var behind := set p | p in Missing(sys.dbs[target], cutoff) && p <= sys.dbs[target].cursor;
            && Missing(Pass(lowered, turns), cutoff) == behind + Overtaken(lowered, turns, cutoff)
            && Overtaken(lowered, turns, cutoff) <= Appended(turns) - Missing(sys.dbs[target], cutoff)
            && (Missing(Pass(lowered, turns), cutoff) == {}
                <==> (forall p :: p in Missing(sys.dbs[target], cutoff) ==> p > sys.dbs[target].cursor)
                     && Overtaken(lowered, turns, cutoff) == {})
  {
    hide Lower, Pass, Missing, Reaches, Cutoff, LoweredWatermark, Fresh, Appended, IsBehind, ActiveProducts, Last;
    LowerReaches(sys, target, now, windowDays);
    PassCloses(Lower(sys, target, now, windowDays).system.dbs[target], turns, Cutoff(now, windowDays));
    NoneBehind(Missing(sys.dbs[target], Cutoff(now, windowDays)), sys.dbs[target].cursor);
  }

  lemma NoneBehind(missing: set<int>, cursor: nat)
    ensures (set p | p in missing && p <= cursor) == {} <==> forall p :: p in missing ==> p > cursor
  {
    var behind := set p | p in missing && p <= cursor;
    forall p | p in missing && behind == {}
      ensures p > cursor
    {
      assert p !in behind;
    }
    if forall p :: p in missing ==> p > cursor {
      assert behind == {};
    }
  }

  /** What the tick after a fresh lower finds: the lowered watermark, and what was appended meanwhile. */
  function LoweredDb(db: Db, cutoff: Instant, more: set<Observation>): (lowered: Db)
  {
    db.(watermark := LoweredWatermark(db, cutoff), observations := db.observations + more)
  }

  /**
   * The script's procedure waits for one tick only. That closes every gap exactly when, from the
   * lowered watermark, one tick suffices: a condition on the database before the lower and on what
   * is appended until the tick. When nothing is, its first half is about the cursor alone.
   */
  lemma LowerThenTick(sys: System, target: string, now: Instant, windowDays: nat, more: set<Observation>)
    requires target in sys.dbs && Fresh(sys, target)
    ensures var db, cutoff := sys.dbs[target], Cutoff(now, windowDays);
            var lowered := Lower(sys, target, now, windowDays).system.dbs[target];
            && (Missing(Tick(Fed(lowered, [more])), cutoff) == {}
                <==> OneTickSuffices(LoweredDb(db, cutoff, more), cutoff))
            && (Missing(db, cutoff) <= Pending(LoweredDb(db, cutoff, {}))
                <==> forall p :: p in Missing(db, cutoff) ==> p > db.cursor)
  {
    hide Lower, Tick, Missing, Reaches, Cutoff, OneTickSuffices, LoweredWatermark, Fresh, Pending;
    LowerReaches(sys, target, now, windowDays);
    var lowered := Lower(sys, target, now, windowDays).system.dbs[target];
    OneTickClosesIff(Fed(lowered, [more]), Cutoff(now, windowDays));
    ReachedIsPending(lowered, Cutoff(now, windowDays));
    assert lowered.observations + {} == lowered.observations;
  }

  // ---- what the two phases hand over -----------------------------------------------

  /** A lower that finds a gap records its own run in full, whether it had to move the watermark or not. */
  lemma LowerRecords(sys: System, target: string, now: Instant, windowDays: nat)
    requires target in sys.dbs
    ensures var db, after := sys.dbs[target], Lower(sys, target, now, windowDays).system;
            && (Fresh(sys, target) && Missing(db, Cutoff(now, windowDays)) != {} ==>
                  && after.file.Some? && after.file.value.target == target
                  && after.file.value.preWatermark == db.watermark
                  && after.file.value.loweredTo
                     == (if after.dbs[target].watermark == db.watermark then None else after.dbs[target].watermark)
                  && after.file.value.windowDays == windowDays && after.file.value.loweredAt == now)
            && (!Fresh(sys, target) || Missing(db, Cutoff(now, windowDays)) == {} ==> after == sys)
  {
    hide Missing, StartOfIsoWeek, Earliest;
  }

  /** Nothing but the aggregation job and the ingestion, on any of the databases. */
  predicate OnlyJob(steps: seq<Step>)
  {
    forall i :: 0 <= i < |steps| ==> steps[i].TickStep? || steps[i].AppendStep?
  }

  lemma {:induction false} JobKeepsFile(sys: System, steps: seq<Step>)
    requires Enabled(sys, steps) && OnlyJob(steps)
    ensures Run(sys, steps).file == sys.file
  {
    hide Tick;
    if steps != [] {
      var front := steps[..|steps| - 1];
      assert forall i :: 0 <= i < |front| ==> front[i] == steps[i];
      JobKeepsFile(sys, front);
    }
  }

  /**
   * The two phases together: after a lower that found a gap, and whatever the job and the ingestion
   * did since, a restore succeeds exactly when no product is missing in the lower's own window, and
   * only then is the backfill closed. Until one succeeds it stays open.
   */
  lemma LowerThenRestore(
      sys: System, target: string, now: Instant, windowDays: nat, steps: seq<Step>, later: Instant, force: bool)
    requires target in sys.dbs && Fresh(sys, target) && Missing(sys.dbs[target], Cutoff(now, windowDays)) != {}
    requires Enabled(Lower(sys, target, now, windowDays).system, steps) && OnlyJob(steps)
    ensures var lowered := Lower(sys, target, now, windowDays).system;
            var ready := Run(lowered, steps);
            var covered := Missing(ready.dbs[target], Cutoff(later, windowDays)) == {};
            var restore := Restore(ready, target, later, force);
            && restore.code == (if covered then 0 else 1)
            && restore.system.file == (if covered then None else lowered.file)
  {
    hide Missing, Tick, Lower, Cutoff, StillLowered, BelowPre, Run;
    LowerRecords(sys, target, now, windowDays);
    JobKeepsFile(Lower(sys, target, now, windowDays).system, steps);
  }

  // ---- recovery --------------------------------------------------------------------

  function WithDb(sys: System, target: string, db: Db): (s: System) { sys.(dbs := sys.dbs[target := db]) }

  /** The databases after a lower, a pass over the target and some more appends. */
  function LowerAndSweep(
      sys: System, target: string, now: Instant, windowDays: nat, turns: seq<set<Observation>>, more: set<Observation>)
      : (next: System)
    requires target in sys.dbs
    ensures next.dbs.Keys == sys.dbs.Keys
  {
    var first := Lower(sys, target, now, windowDays).system;
    var swept := Pass(first.dbs[target], turns);
    WithDb(first, target, swept.(observations := swept.observations + more))
  }

  /** After a pass over a lowering that found a gap, the next lower is a fresh one and no pass is in flight. */
  lemma PassLeavesFresh(
      sys: System, target: string, now: Instant, windowDays: nat, turns: seq<set<Observation>>, more: set<Observation>)
    requires Inv(sys) && target in sys.dbs && Fresh(sys, target)
    requires Missing(sys.dbs[target], Cutoff(now, windowDays)) != {}
    ensures var next := LowerAndSweep(sys, target, now, windowDays, turns, more);
            && Fresh(next, target) && next.dbs[target].cursor == 0
            && next.dbs[target].observations <= sys.dbs[target].observations + Arrivals(turns) + more
  {
    hide Missing, Earliest, StartOfIsoWeek, Pass, Reaches, ActiveProducts, Arrivals;
    var cutoff := Cutoff(now, windowDays);
    var first := Lower(sys, target, now, windowDays).system;
    LowerReaches(sys, target, now, windowDays);
    LowerKeepsInv(sys, target, now, windowDays);
    var lowered := first.dbs[target];
    var p := Member(Missing(lowered, cutoff));
    ReachedIsActive(lowered, cutoff, p);
    PassAdvances(lowered, turns);
    if first.file.value.loweredTo.Some? {
      var o :| o in lowered.observations && first.file.value.preWatermark.value <= o.at;
      assert IsActive(lowered, o);
    }
  }

  /**
   * The recovery: when a lower found a gap, then whatever pass was in flight and whatever was
   * appended during the first pass and since, a second lower and pass close every gap there was at
   * the second lower; only what that pass overtakes itself stays missing, and nothing if nothing
   * is appended while it runs.
   */
  lemma SecondRoundCloses(
      sys: System, target: string, now: Instant, windowDays: nat, turns: seq<set<Observation>>, more: set<Observation>,
      later: Instant, otherWindow: nat, again: seq<set<Observation>>)
    requires Inv(sys) && target in sys.dbs && Fresh(sys, target)
    requires Missing(sys.dbs[target], Cutoff(now, windowDays)) != {}
    requires forall o :: o in sys.dbs[target].observations + Arrivals(turns) + more ==> o.product > 0
    ensures var next := LowerAndSweep(sys, target, now, windowDays, turns, more);
            var lowered := Lower(next, target, later, otherWindow).system.dbs[target];
            var cutoff := Cutoff(later, otherWindow);
            && Missing(Pass(lowered, again), cutoff) == Overtaken(lowered, again, cutoff)
            && Overtaken(lowered, again, cutoff) <= Appended(again) - Missing(next.dbs[target], cutoff)
  {
    hide Lower, Pass, Missing, Cutoff, Inv, Fresh, Overtaken, Appended, Arrivals, LowerAndSweep;
    var next := LowerAndSweep(sys, target, now, windowDays, turns, more);
    var cutoff := Cutoff(later, otherWindow);
    PassLeavesFresh(sys, target, now, windowDays, turns, more);
    LowerThenPass(next, target, later, otherWindow, again);
    forall p | p in Missing(next.dbs[target], cutoff)
      ensures p > 0
    {
      MissingIsObserved(next.dbs[target], cutoff, p);
    }
    NoneBehind(Missing(next.dbs[target], cutoff), next.dbs[target].cursor);
  }

  lemma MissingIsObserved(db: Db, cutoff: Instant, p: int)
    requires p in Missing(db, cutoff)
    ensures exists o :: o in db.observations && o.product == p
  {
  }

  // ---- where the promises end ------------------------------------------------------

  /** `--lower` cut off between its two writes: the watermark is lowered, the state file is not written. */
  function LowerCutShort(sys: System, target: string, now: Instant, windowDays: nat): (s: System)
    requires target in sys.dbs
  {
    Lower(sys, target, now, windowDays).system.(file := sys.file)
  }

  /**
   * What makes a cut-off lower unsafe: it lowered over a stale lowered state file of this target,
   * to a Monday below that file's recorded watermark and other than its lowered one.
   */
  predicate CutShortBreaks(sys: System, target: string, now: Instant, windowDays: nat)
    requires target in sys.dbs
  {
    var db, cutoff := sys.dbs[target], Cutoff(now, windowDays);
    && sys.file.Some? && sys.file.value.target == target && sys.file.value.loweredTo.Some?
    && !StillLowered(db, sys.file.value)
    && Missing(db, cutoff) != {} && db.watermark.Some?
    && var monday := StartOfIsoWeek(Earliest(db, cutoff));
       && monday < db.watermark.value
       && monday != sys.file.value.loweredTo.value
       && sys.file.value.preWatermark.Some? && monday < sys.file.value.preWatermark.value
  }

  /** The cut-off lower leaves a safe system exactly when it does not break it in this way. */
  lemma CutShortIsSafeIff(sys: System, target: string, now: Instant, windowDays: nat)
    requires Inv(sys) && target in sys.dbs
    ensures Inv(LowerCutShort(sys, target, now, windowDays)) <==> !CutShortBreaks(sys, target, now, windowDays)
  {
    hide Missing, StartOfIsoWeek, Earliest;
    LowerKeepsInv(sys, target, now, windowDays);
  }

  /** Such a system: the watermark ends between the recorded values. */
  lemma CutShortOverStaleState()
    ensures exists sys: System, target: string, now: Instant ::
              target in sys.dbs && Inv(sys) && !Inv(LowerCutShort(sys, target, now, 365))
  {
    var week := 7 * DAY_MS;
    var monday := StartOfIsoWeek(100 * week);
    AnchorLaws(100 * week, 100 * week);
    var o := Observation(1, monday);
    var newest := Observation(2, monday + 3 * week);
    var db := Db(Some(monday + 2 * week), 0, {o, newest}, {Bucket(2, Day(monday + 3 * week))});
    var state := BackfillState("t", Some(monday + week), Some(monday - week), 365, 0);
    var sys := System(map["t" := db], Some(state));
    var now := monday + 4 * week;
    var cutoff := Cutoff(now, 365);
    assert newest in db.observations && o in db.observations;
    assert Inv(sys);
    assert 1 in Observed(db, cutoff);
    assert 1 !in Summarized(db, cutoff);
    assert Bucket(2, Day(monday + 3 * week)) in db.buckets && 2 in Summarized(db, cutoff);
    assert forall x :: x in db.observations && x.product in Missing(db, cutoff) ==> x == o;
    assert Earliest(db, cutoff) in UnsummarizedInstants(db, cutoff);
    assert Earliest(db, cutoff) == monday;
    var after := LowerCutShort(sys, "t", now, 365);
    assert after.dbs["t"].watermark == Some(monday);
    assert !OpenIsSafe(after);
    assert !Inv(after);
  }

  /** `--restore` cut off between its two writes: the watermark is restored, the state file is still there. */
  function RestoreCutShort(sys: System, target: string, now: Instant): (s: System)
    requires target in sys.dbs
  {
    Restore(sys, target, now, false).system.(file := sys.file)
  }

  /**
   * Running a cut-off restore again, at whatever later instant: the watermark stays where the first
   * run put it, and the run completes the backfill iff coverage holds at its own cutoff.
   */
  lemma CutShortRestoreResumes(sys: System, target: string, now: Instant, later: Instant)
    requires Inv(sys) && target in sys.dbs && sys.file.Some? && sys.file.value.target == target
    requires Missing(sys.dbs[target], Cutoff(now, sys.file.value.windowDays)) == {}
    ensures var cut, whole := RestoreCutShort(sys, target, now), Restore(sys, target, now, false).system;
            && Inv(cut)
            && Restore(cut, target, later, false)
               == if Missing(sys.dbs[target], Cutoff(later, sys.file.value.windowDays)) == {} then Outcome(0, whole)
                  else Outcome(1, cut)
  {
    hide Missing;
    var cut := RestoreCutShort(sys, target, now);
    RestoreKeepsInv(sys, target, now);
    ObservedOnly(sys.dbs[target], cut.dbs[target], Cutoff(later, sys.file.value.windowDays));
    if BelowPre(sys.dbs[target], sys.file.value) {
      var pre := sys.file.value.preWatermark.value;
      var o :| o in sys.dbs[target].observations && pre <= o.at;
      assert WatermarkObserved(sys.dbs[target].(watermark := Some(pre)));
    }
  }

  /** The invariant the coverage query measures, said row by row. */
  predicate EveryProductSummarized(db: Db, cutoff: Instant)
  {
    forall o :: o in db.observations && cutoff <= o.at ==> HasBucket(db, o.product, Day(cutoff))
  }

  predicate HasBucket(db: Db, product: nat, from: int)
  {
    exists b :: b in db.buckets && b.product == product && from <= b.day
  }

  // ---- the script ------------------------------------------------------------------

  /** What the script's phases read and overwrite: the databases behind the backends, and the state file. */
  class Backfill {
    var dbs: map<string, Db>
    var file: Option<BackfillState>

    /** The repository-parity upsert: the job's own watermark row and nothing else. */
    method UpsertWatermark(target: string, watermark: Instant)
      requires target in dbs
      modifies this
      ensures System(dbs, file) == WithWatermark(old(System(dbs, file)), target, watermark)
    {
      dbs := dbs[target := dbs[target].(watermark := Some(watermark))];
    }

    /** `runLower`. */
    method RunLower(target: string, now: Instant, windowDays: nat) returns (code: nat)
      requires target in dbs
      modifies this
      ensures Outcome(code, System(dbs, file)) == Lower(old(System(dbs, file)), target, now, windowDays)
    {
      hide Missing, Earliest, StartOfIsoWeek;
      if file.Some? {
        var open := file.value;
        if open.target == target {
          var current := dbs[target].watermark;
          var stillLowered := open.loweredTo.Some? && current.Some? && current.value <= open.loweredTo.value;
          if stillLowered {
            return 0;
          }
        } else {
          return 2;
        }
      }
      var cutoff := now - windowDays * DAY_MS;
      var watermark := dbs[target].watermark;
      if Missing(dbs[target], cutoff) == {} {
        return 0;
      }
      var lowered := StartOfIsoWeek(Earliest(dbs[target], cutoff));
      if watermark.None? || lowered >= watermark.value {
        file := Some(BackfillState(target, watermark, None, windowDays, now));
        return 0;
      }
      UpsertWatermark(target, lowered);
      file := Some(BackfillState(target, watermark, Some(lowered), windowDays, now));
      return 0;
    }

    /** `runRestore`. */
    method RunRestore(target: string, now: Instant, force: bool) returns (code: nat)
      requires target in dbs
      modifies this
      ensures Outcome(code, System(dbs, file)) == Restore(old(System(dbs, file)), target, now, force)
    {
      hide Missing;
      if file.None? {
        return 2;
      }
      var state := file.value;
      if state.target != target {
        return 2;
      }
      var cutoff := now - state.windowDays * DAY_MS;
      var watermark, pre, loweredTo := dbs[target].watermark, state.preWatermark, state.loweredTo;
      var verified := Missing(dbs[target], cutoff) == {};
      if verified {
        if loweredTo.Some? && pre.Some? && watermark.Some? && watermark.value < pre.value {
          UpsertWatermark(target, pre.value);
        }
        file := None;
        return 0;
      }
      var notRescannedYet := loweredTo.Some? && watermark.Some? && watermark.value <= loweredTo.value;
      if notRescannedYet && !force {
        return 1;
      }
      if loweredTo.Some? && pre.Some? && (force || (watermark.Some? && watermark.value < pre.value)) {
        UpsertWatermark(target, pre.value);
      }
      return 1;
    }

    /** `runVerify`: reads only. */
    method RunVerify(target: string, now: Instant, windowDays: nat) returns (code: nat)
      requires target in dbs
      ensures code == 0 <==> EveryProductSummarized(dbs[target], now - 86_400_000 * windowDays)
      ensures code == Verify(dbs[target], now, windowDays)
    {
      var db, cutoff := dbs[target], Cutoff(now, windowDays);
      code := if Missing(db, cutoff) == {} then 0 else 1;
      if code == 0 {
        forall o | o in db.observations && cutoff <= o.at
          ensures HasBucket(db, o.product, Day(cutoff))
        {
          assert o.product in Observed(db, cutoff);
          assert o.product !in Missing(db, cutoff);
        }
      } else {
        var p :| p in Missing(db, cutoff);
        var o :| o in db.observations && cutoff <= o.at && o.product == p;
        assert forall b :: b in db.buckets && Day(cutoff) <= b.day ==> b.product in Summarized(db, cutoff);
      }
    }
  }
}
