/**
 * `runAudit` of scripts/nonalcoholic-catalog-audit.ts: enumerate the unheld rows without a positive
 * ABV, then hold them chunk by chunk, while an ingester keeps upserting rows between the statements.
 */
module HoldAudit {
  import opened Wrappers
  import opened Chunking
  import opened Extremes

  /** The columns of `product_master` the audit reads or writes. */
  datatype Row = Row(abv: Option<real>, hold: Option<string>)

  type Table = map<int, Row>

  /** `NONALCOHOLIC_HOLD_REASON`. */
  const HOLD_REASON := "nonalcoholic_in_alcohol_category"

  const APPLY_CHUNK: nat := 500

  /** `AFFECTED_WHERE`. */
  predicate Affected(r: Row)
  {
    r.hold.None? && (r.abv.None? || r.abv.value <= 0.0)
  }

  /** The shared listing universe's condition on a row. */
  predicate Listed(r: Row)
  {
    r.hold.None? && r.abv.Some? && r.abv.value > 0.0
  }

  /** Each row is held, listed or affected, and only one of them: a missing ABV counts as none. */
  lemma AffectedIsTheRest(r: Row)
    ensures Affected(r) <==> r.hold.None? && !Listed(r)
    ensures r.hold.None? && r.abv.None? ==> Affected(r)
    ensures r.hold.None? && r.abv.Some? ==> (Listed(r) <==> r.abv.value > 0.0)
    ensures r.hold.Some? ==> !Affected(r) && !Listed(r)
  {
  }

  function AffectedIds(t: Table): (ids: set<int>)
  {
    set id | id in t && Affected(t[id])
  }

  function HeldIds(t: Table): (ids: set<int>)
  {
    set id | id in t && t[id].hold.Some?
  }

  /** `ORDER BY id ASC` over the affected rows. */
  ghost predicate Enumerates(ids: seq<int>, t: Table)
  {
    (forall i, j :: 0 <= i < j < |ids| ==> ids[i] < ids[j])
    && (forall id :: id in ids <==> id in AffectedIds(t))
  }

  /** What happens to the table: the audit's guarded update, or the ingester writing a whole row. */
  datatype Event = Audit(ids: seq<int>) | Put(id: int, row: Row)

  /** `UPDATE … SET review_hold_reason = … WHERE review_hold_reason IS NULL AND id IN (…)`. */
  function Hold(t: Table, ids: seq<int>): (after: Table)
  {
    map id | id in t ::
      if id in ids && t[id].hold.None? then t[id].(hold := Some(HOLD_REASON)) else t[id]
  }

  function Step(t: Table, e: Event): (after: Table)
  {
    match e
    case Audit(ids) => Hold(t, ids)
    case Put(id, row) => t[id := row]
  }

  function Run(t: Table, events: seq<Event>): (after: Table)
  {
    if events == [] then t else Step(Run(t, events[..|events| - 1]), events[|events| - 1])
  }

  /** The ingester's part of a run. */
  function Ingested(events: seq<Event>): (puts: seq<Event>)
  {
    if events == [] then []
    else
      var last := events[|events| - 1];
      Ingested(events[..|events| - 1]) + if last.Put? then [last] else []
  }

  /** Some update named the row, and the ingester has not written it since. */
  predicate Marked(events: seq<Event>, id: int)
  {
    events != [] &&
    match events[|events| - 1]
    case Audit(ids) => id in ids || Marked(events[..|events| - 1], id)
    case Put(i, _) => i != id && Marked(events[..|events| - 1], id)
  }

  /** The audit's updates name rows that were there when it enumerated. */
  predicate AuditsWithin(events: seq<Event>, ids: set<int>)
  {
    forall k :: 0 <= k < |events| && events[k].Audit? ==>
      forall i :: 0 <= i < |events[k].ids| ==> events[k].ids[i] in ids
  }

  /** What the run leaves of a row, given what the ingester alone would have left. */
  function Overlay(alone: Row, marked: bool): (r: Row)
  {
    if alone.hold.None? && marked then alone.(hold := Some(HOLD_REASON)) else alone
  }

  // ---- Any interleaving ----

  lemma {:induction false} KeysStay(t: Table, events: seq<Event>)
    ensures t.Keys <= Run(t, events).Keys
  {
    if events != [] {
      KeysStay(t, events[..|events| - 1]);
    }
  }

  /**
   * Whatever the interleaving, the table is the one the ingester alone would have left, except that
   * an unheld row carries the audit's reason exactly when an update named it after its last write.
   */
  lemma {:induction false} Attribution(t: Table, events: seq<Event>)
    requires AuditsWithin(events, t.Keys)
    ensures Run(t, events).Keys == Run(t, Ingested(events)).Keys
    ensures forall id :: id in Run(t, events) ==>
              Run(t, events)[id] == Overlay(Run(t, Ingested(events))[id], Marked(events, id))
  {
    if events != [] {
      var front, last := events[..|events| - 1], events[|events| - 1];
      assert AuditsWithin(front, t.Keys);
      Attribution(t, front);
      match last
      case Audit(ids) =>
        KeysStay(t, front);
        assert Ingested(events) == Ingested(front);
      case Put(i, row) =>
        assert Ingested(events) == Ingested(front) + [last];
        assert Ingested(events)[..|Ingested(events)| - 1] == Ingested(front);
    }
  }

  /** A mark goes back to an update that named the row, so only enumerated rows can carry one. */
  lemma {:induction false} MarkedWasNamed(events: seq<Event>, ids: set<int>, id: int)
    requires AuditsWithin(events, ids) && Marked(events, id)
    ensures id in ids
  {
    var front, last := events[..|events| - 1], events[|events| - 1];
    assert AuditsWithin(front, ids);
    if last.Audit? && id in last.ids {
      var i :| 0 <= i < |last.ids| && last.ids[i] == id;
    } else {
      MarkedWasNamed(front, ids, id);
    }
  }

  /** No hold the ingester set is overwritten, and rows that were not enumerated are as it left them. */
  lemma OnlyEnumeratedRowsChange(t: Table, events: seq<Event>, id: int)
    requires AuditsWithin(events, AffectedIds(t)) && id in Run(t, events)
    ensures id in Run(t, Ingested(events))
    ensures var alone, after := Run(t, Ingested(events))[id], Run(t, events)[id];
            after.abv == alone.abv
            && (alone.hold.Some? ==> after == alone)
            && (id !in AffectedIds(t) ==> after == alone)
            && (after != alone ==> after.hold == Some("nonalcoholic_in_alcohol_category"))
  {
    assert AuditsWithin(events, t.Keys);
    Attribution(t, events);
    if Marked(events, id) {
      MarkedWasNamed(events, AffectedIds(t), id);
    }
  }

  /** One update never touches a held row, an unnamed row or an ABV, and adds or drops no row. */
  lemma HoldIsGuarded(t: Table, ids: seq<int>)
    ensures Hold(t, ids).Keys == t.Keys
    ensures forall id :: id in t ==> Hold(t, ids)[id].abv == t[id].abv
    ensures forall id :: id in t && (t[id].hold.Some? || id !in ids) ==> Hold(t, ids)[id] == t[id]
    ensures HeldIds(Hold(t, ids)) == HeldIds(t) + set id | id in ids && id in t
    ensures forall id :: id in t && id in ids && t[id].hold.None? ==>
              Hold(t, ids)[id].hold == Some("nonalcoholic_in_alcohol_category")
    ensures Hold(Hold(t, ids), ids) == Hold(t, ids)
  {
    var again := Hold(Hold(t, ids), ids);
    assert forall id :: id in t ==> again[id] == Hold(t, ids)[id];
  }

  /** The applied count: the holds of the ingester, plus the unheld rows that carry the mark. */
  lemma HeldExactly(t: Table, events: seq<Event>)
    requires AuditsWithin(events, t.Keys)
    ensures HeldIds(Run(t, events))
         == HeldIds(Run(t, Ingested(events)))
            + set id | id in Run(t, Ingested(events)) && Marked(events, id)
    ensures AffectedIds(Run(t, events))
         == set id | id in AffectedIds(Run(t, Ingested(events))) && !Marked(events, id)
  {
    hide Run, Ingested, Marked;
    Attribution(t, events);
    var after, alone := Run(t, events), Run(t, Ingested(events));
    assert after.Keys == alone.Keys;
    var held := set id | id in alone && Marked(events, id);
    var left := set id | id in AffectedIds(alone) && !Marked(events, id);
    forall id: int | id in after
      ensures id in HeldIds(after) <==> id in HeldIds(alone) + held
      ensures id in AffectedIds(after) <==> id in left
    {
      assert after[id] == Overlay(alone[id], Marked(events, id));
      assert id in held <==> Marked(events, id);
      assert id in left <==> id in AffectedIds(alone) && !Marked(events, id);
    }
    assert HeldIds(after) <= after.Keys && HeldIds(alone) + held <= after.Keys;
    assert AffectedIds(after) <= after.Keys && left <= after.Keys;
  }

  // ---- The run of the script ----

  function Puts(rows: seq<(int, Row)>): (events: seq<Event>)
  {
    seq(|rows|, k requires 0 <= k < |rows| => Put(rows[k].0, rows[k].1))
  }

  /** The first `k` statements, each preceded by the ingester's turn. */
  function Upto(chunks: seq<seq<int>>, turns: nat -> seq<(int, Row)>, k: nat): (events: seq<Event>)
    requires k <= |chunks|
  {
    if k == 0 then [] else Upto(chunks, turns, k - 1) + Puts(turns(k - 1)) + [Audit(chunks[k - 1])]
  }

  /** All statements, and the ingester's turn before the closing report. */
  function History(ids: seq<int>, turns: nat -> seq<(int, Row)>): (events: seq<Event>)
  {
    var chunks := Chunks(ids, APPLY_CHUNK);
    Upto(chunks, turns, |chunks|) + Puts(turns(|chunks|))
  }

  /** No statement of the run names more than five hundred rows. */
  lemma StatementsAreSmall(ids: seq<int>, turns: nat -> seq<(int, Row)>, k: nat)
    requires k < |History(ids, turns)| && History(ids, turns)[k].Audit?
    ensures 1 <= |History(ids, turns)[k].ids| <= 500
  {
    var chunks := Chunks(ids, APPLY_CHUNK);
    ChunksAreFull(ids, APPLY_CHUNK);
    UptoIsSmall(chunks, turns, |chunks|);
  }

  lemma {:induction false} UptoIsSmall(chunks: seq<seq<int>>, turns: nat -> seq<(int, Row)>, n: nat)
    requires n <= |chunks| && forall c :: 0 <= c < |chunks| ==> 1 <= |chunks[c]| <= 500
    ensures forall k :: 0 <= k < |Upto(chunks, turns, n)| && Upto(chunks, turns, n)[k].Audit? ==>
              1 <= |Upto(chunks, turns, n)[k].ids| <= 500
  {
    if n > 0 {
      UptoIsSmall(chunks, turns, n - 1);
    }
  }

  lemma {:induction false} RunAppend(t: Table, a: seq<Event>, b: seq<Event>)
    ensures Run(t, a + b) == Run(Run(t, a), b)
    ensures |b| == 1 ==> Run(t, a + b) == Step(Run(t, a), b[0])
  {
    if b == [] {
      assert a + b == a;
    } else {
      RunAppend(t, a, b[..|b| - 1]);
      assert (a + b)[..|a + b| - 1] == a + b[..|b| - 1];
    }
  }

  lemma {:induction false} UptoWithin(chunks: seq<seq<int>>, turns: nat -> seq<(int, Row)>, k: nat, ids: set<int>)
    requires k <= |chunks|
    requires forall c, i :: 0 <= c < |chunks| && 0 <= i < |chunks[c]| ==> chunks[c][i] in ids
    ensures AuditsWithin(Upto(chunks, turns, k), ids)
  {
    if k > 0 {
      UptoWithin(chunks, turns, k - 1, ids);
    }
  }

  /** The script's statements name enumerated rows only. */
  lemma HistoryWithin(t: Table, ids: seq<int>, turns: nat -> seq<(int, Row)>)
    requires Enumerates(ids, t)
    ensures AuditsWithin(History(ids, turns), AffectedIds(t))
    ensures AuditsWithin(History(ids, turns), t.Keys)
  {
    var chunks := Chunks(ids, APPLY_CHUNK);
    ChunksPartition(ids, APPLY_CHUNK);
    forall c, i | 0 <= c < |chunks| && 0 <= i < |chunks[c]|
      ensures chunks[c][i] in AffectedIds(t)
    {
      InFlattenIff(chunks, chunks[c][i]);
    }
    UptoWithin(chunks, turns, |chunks|, AffectedIds(t));
    assert AuditsWithin(History(ids, turns), AffectedIds(t));
    assert AffectedIds(t) <= t.Keys;
  }

  /** An ingester that stays out of one row leaves the mark of every statement on it. */
  lemma {:induction false} MarkedUpto(
      chunks: seq<seq<int>>, turns: nat -> seq<(int, Row)>, k: nat, id: int)
    requires k <= |chunks|
    requires forall j, r :: 0 <= j && 0 <= r < |turns(j)| ==> turns(j)[r].0 != id
    ensures Marked(Upto(chunks, turns, k), id) <==> exists c :: 0 <= c < k && id in chunks[c]
  {
    if k > 0 {
      MarkedUpto(chunks, turns, k - 1, id);
      var before := Upto(chunks, turns, k - 1);
      MarkedThrough(before, Puts(turns(k - 1)), id);
      var events := Upto(chunks, turns, k);
      assert events[..|events| - 1] == before + Puts(turns(k - 1));
    }
  }

  lemma {:induction false} MarkedThrough(events: seq<Event>, puts: seq<Event>, id: int)
    requires forall k :: 0 <= k < |puts| ==> puts[k].Put? && puts[k].id != id
    ensures Marked(events + puts, id) <==> Marked(events, id)
  {
    if puts == [] {
      assert events + puts == events;
    } else {
      MarkedThrough(events, puts[..|puts| - 1], id);
      assert (events + puts)[..|events + puts| - 1] == events + puts[..|puts| - 1];
    }
  }

  /** A row the ingester stays out of is held by the run iff it was enumerated. */
  lemma UntouchedIsMarkedIff(t: Table, ids: seq<int>, turns: nat -> seq<(int, Row)>, id: int)
    requires Enumerates(ids, t)
    requires forall j, r :: 0 <= j && 0 <= r < |turns(j)| ==> turns(j)[r].0 != id
    ensures Marked(History(ids, turns), id) <==> id in AffectedIds(t)
  {
    hide AffectedIds;
    var chunks := Chunks(ids, APPLY_CHUNK);
    MarkedUpto(chunks, turns, |chunks|, id);
    MarkedThrough(Upto(chunks, turns, |chunks|), Puts(turns(|chunks|)), id);
    ChunksPartition(ids, APPLY_CHUNK);
    InFlattenIff(chunks, id);
  }

  function Quiet(k: nat): (rows: seq<(int, Row)>) { [] }

  lemma {:induction false} QuietIngestsNothing(chunks: seq<seq<int>>, k: nat)
    requires k <= |chunks|
    ensures Ingested(Upto(chunks, Quiet, k)) == []
  {
    if k > 0 {
      QuietIngestsNothing(chunks, k - 1);
      var events := Upto(chunks, Quiet, k);
      assert events == Upto(chunks, Quiet, k - 1) + [Audit(chunks[k - 1])];
      assert events[..|events| - 1] == Upto(chunks, Quiet, k - 1);
    }
  }

  /** With nobody else writing: every affected row is held, none remains, and the count says so. */
  lemma QuietRun(t: Table, ids: seq<int>)
    requires Enumerates(ids, t)
    ensures var after := Run(t, History(ids, Quiet));
            after.Keys == t.Keys
            && AffectedIds(after) == {}
            && HeldIds(after) == HeldIds(t) + AffectedIds(t)
            && |HeldIds(after)| - |HeldIds(t)| == |ids|
            && (forall id :: id in t && id !in ids ==> after[id] == t[id])
  {
    var events := History(ids, Quiet);
    var chunks := Chunks(ids, APPLY_CHUNK);
    assert events == Upto(chunks, Quiet, |chunks|);
    QuietIngestsNothing(chunks, |chunks|);
    assert Run(t, Ingested(events)) == t;
    HistoryWithin(t, ids, Quiet);
    forall id
      ensures Marked(events, id) <==> id in AffectedIds(t)
    {
      UntouchedIsMarkedIff(t, ids, Quiet, id);
    }
    QuietTable(t, events, ids);
  }

  lemma QuietTable(t: Table, events: seq<Event>, ids: seq<int>)
    requires Enumerates(ids, t) && AuditsWithin(events, t.Keys)
    requires Run(t, Ingested(events)) == t
    requires forall id :: Marked(events, id) <==> id in AffectedIds(t)
    ensures Run(t, events).Keys == t.Keys
    ensures AffectedIds(Run(t, events)) == {}
    ensures HeldIds(Run(t, events)) == HeldIds(t) + AffectedIds(t)
    ensures |HeldIds(Run(t, events))| - |HeldIds(t)| == |ids|
    ensures forall id :: id in t && id !in ids ==> Run(t, events)[id] == t[id]
  {
    hide Run, Ingested, Marked;
    Attribution(t, events);
    HeldExactly(t, events);
    assert HeldIds(t) !! AffectedIds(t);
    DistinctCount(ids, AffectedIds(t));
  }

  lemma {:induction false} DistinctCount(ids: seq<int>, s: set<int>)
    requires forall i, j :: 0 <= i < j < |ids| ==> ids[i] < ids[j]
    requires forall id :: id in ids <==> id in s
    ensures |ids| == |s|
  {
    if ids != [] {
      var last := |ids| - 1;
      var rest := s - {ids[last]};
      forall id
        ensures id in ids[..last] <==> id in rest
      {
        if id in rest {
          var i :| 0 <= i < |ids| && ids[i] == id;
          assert ids[..last][i] == id;
        }
      }
      DistinctCount(ids[..last], rest);
      assert s == rest + {ids[last]};
    } else if s != {} {
      var x := Member(s);
    }
  }

  /** The guard re-checks the hold, not the ABV: a row corrected after the enumeration is held all the same. */
  lemma CorrectedRowIsHeld(id: int, abv: real)
    requires abv > 0.0
    ensures var t: Table := map[id := Row(Some(0.0), None)];
            var events := [Put(id, Row(Some(abv), None)), Audit([id])];
            Enumerates([id], t)
            && id in Run(t, Ingested(events)) && Listed(Run(t, Ingested(events))[id])
            && id in Run(t, events) && Run(t, events)[id] == Row(Some(abv), Some(HOLD_REASON))
  {
    var t: Table := map[id := Row(Some(0.0), None)];
    var put, hold := Put(id, Row(Some(abv), None)), Audit([id]);
    assert [put, hold][..1] == [put] && [put][..0] == [];
    assert Run(t, [put]) == t[id := put.row];
    assert Ingested([put]) == [put] && Ingested([put, hold]) == [put];
    assert Hold(t[id := put.row], [id])[id] == Row(Some(abv), Some(HOLD_REASON));
  }

  /** An ingester that rewrites a held row without a reason lifts its hold: the row is affected again. */
  lemma RewriteLiftsHold(id: int, row: Row)
    requires Affected(row)
    ensures var t: Table := map[id := Row(Some(0.0), None)];
            var audit, put := Audit([id]), Put(id, row);
            && Enumerates([id], t)
            && HeldIds(Run(t, [audit])) == {id} && AffectedIds(Run(t, [audit])) == {}
            && HeldIds(Run(t, [audit, put])) == {} && AffectedIds(Run(t, [audit, put])) == {id}
  {
    var t: Table := map[id := Row(Some(0.0), None)];
    var audit, put := Audit([id]), Put(id, row);
    assert [audit, put][..1] == [audit] && [audit][..0] == [];
    assert Run(t, [audit]) == Hold(t, [id]) == map[id := Row(Some(0.0), Some(HOLD_REASON))];
    assert Run(t, [audit, put]) == map[id := row];
  }

  // ---- The imperative form ----

  datatype Report = Report(heldRows: nat, affected: seq<int>)

  datatype Outcome = NothingToApply | DryRun(affected: nat) | Applied(applied: int, remaining: nat)

  class Database {
    var table: Table

    /** The two queries of `collectAuditReport` that the run depends on. */
    method CollectReport() returns (report: Report)
      ensures Enumerates(report.affected, table)
      ensures report.heldRows == |HeldIds(table)|
    {
      var rest := AffectedIds(table);
      var ids: seq<int> := [];
      while rest != {}
        invariant rest <= AffectedIds(table)
        invariant forall i, j :: 0 <= i < j < |ids| ==> ids[i] < ids[j]
        invariant forall i, x :: 0 <= i < |ids| && x in rest ==> ids[i] < x
        invariant forall id :: id in ids || id in rest <==> id in AffectedIds(table)
        decreases rest
      {
        var m := Least(rest);
        ids, rest := ids + [m], rest - {m};
      }
      report := Report(|HeldIds(table)|, ids);
    }

    /** One statement of `buildApplySql`, executed. */
    method Execute(ids: seq<int>)
      modifies this
      ensures table == Hold(old(table), ids)
    {
      table := map id | id in table ::
        if id in ids && table[id].hold.None? then table[id].(hold := Some(HOLD_REASON)) else table[id];
    }

    /** The ingester's turn between two statements. */
    method Ingest(rows: seq<(int, Row)>)
      modifies this
      ensures table == Run(old(table), Puts(rows))
    {
      ghost var events := Puts(rows);
      var k := 0;
      while k < |rows|
        invariant 0 <= k <= |rows|
        invariant table == Run(old(table), events[..k])
      {
        assert events[..k + 1][..k] == events[..k];
        table := table[rows[k].0 := rows[k].1];
        k := k + 1;
      }
      assert events[..k] == events;
    }

    method RunAudit(apply: bool, turns: nat -> seq<(int, Row)>) returns (before: Report, outcome: Outcome)
      modifies this
      ensures Enumerates(before.affected, old(table)) && before.heldRows == |HeldIds(old(table))|
      ensures outcome.Applied? <==> apply && before.affected != []
      ensures outcome.NothingToApply? <==> before.affected == []
      ensures outcome.DryRun? ==> outcome.affected == |before.affected|
      ensures !outcome.Applied? ==> table == old(table)
      ensures outcome.Applied? ==>
                && table == Run(old(table), History(before.affected, turns))
                && outcome.applied == |HeldIds(table)| - |HeldIds(old(table))|
                && outcome.remaining == |AffectedIds(table)|
    {
      before := CollectReport();
      if before.affected == [] {
        return before, NothingToApply;
      }
      if !apply {
        return before, DryRun(|before.affected|);
      }
      var chunks := ChunkIds(before.affected, APPLY_CHUNK);
      var k := 0;
      while k < |chunks|
        invariant 0 <= k <= |chunks|
        invariant table == Run(old(table), Upto(chunks, turns, k))
      {
        ghost var past := Upto(chunks, turns, k);
        RunAppend(old(table), past, Puts(turns(k)));
        RunAppend(old(table), past + Puts(turns(k)), [Audit(chunks[k])]);
        Ingest(turns(k));
        Execute(chunks[k]);
        k := k + 1;
      }
      RunAppend(old(table), Upto(chunks, turns, k), Puts(turns(k)));
      Ingest(turns(k));
      var after := CollectReport();
      DistinctCount(after.affected, AffectedIds(table));
      outcome := Applied(after.heldRows - before.heldRows, |after.affected|);
    }
  }

  /** Run again at once: the second apply enumerates nothing, so it writes nothing. */
  method ApplyTwice(db: Database) returns (first: Outcome, second: Outcome)
    modifies db
    ensures second == NothingToApply
    ensures first.Applied? ==> first.applied == |AffectedIds(old(db.table))| && first.remaining == 0
    ensures db.table.Keys == old(db.table).Keys && AffectedIds(db.table) == {}
    ensures HeldIds(db.table) == HeldIds(old(db.table)) + AffectedIds(old(db.table))
  {
    var t0 := db.table;
    var before, again;
    before, first := db.RunAudit(true, Quiet);
    QuietRun(t0, before.affected);
    DistinctCount(before.affected, AffectedIds(t0));
    var t1 := db.table;
    again, second := db.RunAudit(true, Quiet);
    DistinctCount(again.affected, AffectedIds(t1));
  }
}
