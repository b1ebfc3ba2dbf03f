/** Classification, write plan and count verification of scripts/classify-product-name-quality.ts. */
module NameQuality {
  import opened Wrappers
  import opened Chunking
  import opened Extremes

  datatype Quality = Acceptable | Quarantined

  /** `name_quality` as stored: a text that need not be one of the two known ones. */
  const OK := "ok"
  const QUARANTINED := "quarantined"

  datatype Stripped = Stripped(displayName: string, annotation: Option<string>)

  /**
   * The canonical gate of packages/data-acquisition/src/services/name-quality.ts, its regular
   * expressions left uninterpreted: the annotation stripper, the informativeness test it applies
   * to the stripped name, and whether a raw name is blank.
   */
  datatype Gate = Gate(strip: string -> Stripped, informative: string -> bool, blank: string -> bool)

  /** `classifyNameQuality`: the test runs on the name without its annotations. */
  function Classify(g: Gate, name: string): (q: Quality)
  {
    if g.informative(g.strip(name).displayName) then Acceptable else Quarantined
  }

  /** A stripped name holds no annotation any more and is left alone. */
  ghost predicate StripIsStable(g: Gate)
  {
    forall name :: g.strip(g.strip(name).displayName) == Stripped(g.strip(name).displayName, None)
  }

  /** A name that is empty after trimming is never informative. */
  ghost predicate BlankIsUninformative(g: Gate)
  {
    forall name :: g.blank(name) ==> Classify(g, name).Quarantined?
  }

  /** A product_master row: what the script reads, and nothing it does not. */
  datatype Row = Row(id: int, name: string, storedQuality: string, storedAnnotation: Option<string>)

  datatype ClassifiedRow = ClassifiedRow(
    raw: Row, quality: Quality, empty: bool, displayName: string, annotation: Option<string>)

  function ClassifyRow(g: Gate, raw: Row): (c: ClassifiedRow)
  {
    var s := g.strip(raw.name);
    ClassifiedRow(raw, Classify(g, raw.name), g.blank(raw.name), s.displayName, s.annotation)
  }

  function ClassifyAll(g: Gate, rows: seq<Row>): (c: seq<ClassifiedRow>)
    ensures |c| == |rows| && forall i :: 0 <= i < |rows| ==> c[i] == ClassifyRow(g, rows[i])
  {
    seq(|rows|, i requires 0 <= i < |rows| => ClassifyRow(g, rows[i]))
  }

  // ---- statistics ------------------------------------------------------------------

  function Count(rows: seq<ClassifiedRow>, p: ClassifiedRow -> bool): (n: nat)
    ensures n <= |rows|
  {
    if rows == [] then 0 else Count(rows[..|rows| - 1], p) + (if p(rows[|rows| - 1]) then 1 else 0)
  }

  predicate IsQuarantined(r: ClassifiedRow) { r.quality.Quarantined? }
  predicate IsAccepted(r: ClassifiedRow) { r.quality.Acceptable? }
  predicate IsEmpty(r: ClassifiedRow) { r.empty }
  predicate IsNonInformative(r: ClassifiedRow) { r.quality.Quarantined? && !r.empty }
  predicate IsAnnotated(r: ClassifiedRow) { r.annotation.Some? }

  datatype CatalogStats = CatalogStats(
    total: nat, empty: nat, nonInformative: int, quarantined: nat, annotated: nat, ok: int)

  function ComputeStats(rows: seq<ClassifiedRow>): (s: CatalogStats)
  {
    var empty := Count(rows, IsEmpty);
    var quarantined := Count(rows, IsQuarantined);
    CatalogStats(|rows|, empty, quarantined - empty, quarantined,
                 Count(rows, IsAnnotated), |rows| - quarantined)
  }

  lemma {:induction false} CountIs(rows: seq<ClassifiedRow>, p: ClassifiedRow -> bool)
    ensures Count(rows, p) == |Places(rows, p)|
  {
    if rows != [] {
      CountIs(rows[..|rows| - 1], p);
      OneMorePlace(rows, p);
    }
  }

  lemma BlankCount(g: Gate, table: seq<Row>)
    ensures Count(ClassifyAll(g, table), IsEmpty) == |set i: nat | i < |table| && g.blank(table[i].name)|
  {
    var rows := ClassifyAll(g, table);
    var p: ClassifiedRow -> bool := IsEmpty;
    CountIs(rows, p);
    assert Places(rows, p) == set i: nat | i < |table| && g.blank(table[i].name);
  }

  lemma RejectedCount(g: Gate, table: seq<Row>)
    ensures Count(ClassifyAll(g, table), IsQuarantined)
         == |set i: nat | i < |table| && !g.informative(g.strip(table[i].name).displayName)|
  {
    var rows := ClassifyAll(g, table);
    var p: ClassifiedRow -> bool := IsQuarantined;
    CountIs(rows, p);
    assert Places(rows, p)
        == set i: nat | i < |table| && !g.informative(g.strip(table[i].name).displayName);
  }

  lemma AnnotatedCount(g: Gate, table: seq<Row>)
    ensures Count(ClassifyAll(g, table), IsAnnotated)
         == |set i: nat | i < |table| && g.strip(table[i].name).annotation.Some?|
  {
    var rows := ClassifyAll(g, table);
    var p: ClassifiedRow -> bool := IsAnnotated;
    CountIs(rows, p);
    assert Places(rows, p)
        == set i: nat | i < |table| && g.strip(table[i].name).annotation.Some?;
  }

  /** What the figures are figures of: blank names, names the gate rejects, names with an annotation. */
  lemma StatsAre(g: Gate, table: seq<Row>)
    ensures var s := ComputeStats(ClassifyAll(g, table));
            && s.total == |table|
            && s.empty == |set i: nat | i < |table| && g.blank(table[i].name)|
            && s.quarantined == |set i: nat | i < |table| && !g.informative(g.strip(table[i].name).displayName)|
            && s.annotated == |set i: nat | i < |table| && g.strip(table[i].name).annotation.Some?|
  {
    hide Count, IsEmpty, IsQuarantined, IsAnnotated;
    BlankCount(g, table);
    RejectedCount(g, table);
    AnnotatedCount(g, table);
  }

  /** The split is a real one: `nonInformative` counts the quarantined rows that are not empty, `ok` the others. */
  lemma {:induction false} StatsSplit(g: Gate, rows: seq<Row>)
    requires BlankIsUninformative(g)
    ensures ComputeStats(ClassifyAll(g, rows)).nonInformative
         == Count(ClassifyAll(g, rows), IsNonInformative)
    ensures ComputeStats(ClassifyAll(g, rows)).ok
         == Count(ClassifyAll(g, rows), IsAccepted)
  {
    if rows != [] {
      var last := |rows| - 1;
      StatsSplit(g, rows[..last]);
      assert ClassifyAll(g, rows)[..last] == ClassifyAll(g, rows[..last]);
    }
  }

  // ---- the write plan --------------------------------------------------------------

  /** Classified quarantined, stored as something else. */
  predicate NeedsQuarantine(c: ClassifiedRow) { c.quality.Quarantined? && c.raw.storedQuality != QUARANTINED }

  /** Classified annotated, stored name or annotation different. */
  predicate NeedsRewrite(c: ClassifiedRow)
  {
    c.annotation.Some? && (c.raw.storedAnnotation != c.annotation || c.raw.name != c.displayName)
  }

  function QuarantineIds(rows: seq<ClassifiedRow>): (ids: seq<int>)
  {
    if rows == [] then []
    else
      QuarantineIds(rows[..|rows| - 1])
      + (if NeedsQuarantine(rows[|rows| - 1]) then [rows[|rows| - 1].raw.id] else [])
  }

  function AnnotatedRows(rows: seq<ClassifiedRow>): (annotated: seq<ClassifiedRow>)
    ensures forall c :: c in annotated ==> c in rows && NeedsRewrite(c)
  {
    if rows == [] then []
    else
      AnnotatedRows(rows[..|rows| - 1]) + (if NeedsRewrite(rows[|rows| - 1]) then [rows[|rows| - 1]] else [])
  }

  const CHUNK_IDS := 100
  const EXEC_CHUNK_STATEMENTS := 50

  /** `UPDATE … SET name_quality = 'quarantined' WHERE id IN (…)`, or one row's name and annotation. */
  datatype Statement = QuarantineIn(ids: seq<int>) | RewriteRow(id: int, name: string, annotation: string)

  function QuarantineStatements(chunks: seq<seq<int>>): (s: seq<Statement>)
  {
    if chunks == [] then [] else [QuarantineIn(chunks[0])] + QuarantineStatements(chunks[1..])
  }

  function RewriteStatements(rows: seq<ClassifiedRow>): (s: seq<Statement>)
    requires forall c :: c in rows ==> NeedsRewrite(c)
  {
    if rows == [] then []
    else
      assert rows[0] in rows && NeedsRewrite(rows[0]);
      [RewriteRow(rows[0].raw.id, rows[0].displayName, rows[0].annotation.value)] + RewriteStatements(rows[1..])
  }

  /** `allStatements(buildWritePlan(rows))`: the IN-lists first, then the rewrites. */
  function Plan(rows: seq<ClassifiedRow>): (statements: seq<Statement>)
  {
    QuarantineStatements(Chunks(QuarantineIds(rows), CHUNK_IDS)) + RewriteStatements(AnnotatedRows(rows))
  }

  // ---- executing it ----------------------------------------------------------------

  /** One statement's effect on one row. */
  function Touch(row: Row, s: Statement): (r: Row)
  {
    match s
    case QuarantineIn(ids) => if row.id in ids then row.(storedQuality := QUARANTINED) else row
    case RewriteRow(id, name, annotation) =>
      if row.id == id then row.(name := name, storedAnnotation := Some(annotation)) else row
  }

  function TouchAll(row: Row, statements: seq<Statement>): (r: Row)
    decreases |statements|
  {
    if statements == [] then row else TouchAll(Touch(row, statements[0]), statements[1..])
  }

  /** The table after a list of statements. */
  function Execute(table: seq<Row>, statements: seq<Statement>): (after: seq<Row>)
  {
    seq(|table|, i requires 0 <= i < |table| => TouchAll(table[i], statements))
  }

  lemma {:induction false} TouchAppend(row: Row, a: seq<Statement>, b: seq<Statement>)
    ensures TouchAll(row, a + b) == TouchAll(TouchAll(row, a), b)
    decreases |a|
  {
    if a == [] {
      assert a + b == b;
    } else {
      TouchAppend(Touch(row, a[0]), a[1..], b);
      assert (a + b)[1..] == a[1..] + b;
    }
  }

  /** The database the backend writes to. */
  class Backend {
    var table: seq<Row>
    /** The sizes of the `execute` calls so far. */
    var calls: seq<nat>

    /** One `execute` call with a batch of statements. */
    method ExecuteBatch(batch: seq<Statement>)
      modifies this
      ensures table == Execute(old(table), batch) && calls == old(calls) + [|batch|]
    {
      table, calls := Execute(table, batch), calls + [|batch|];
    }

    /** The apply loop: `EXEC_CHUNK_STATEMENTS` statements a batch; the batching does not show. */
    method ApplyPlan(statements: seq<Statement>)
      modifies this
      ensures table == Execute(old(table), statements)
      ensures old(calls) <= calls && forall c :: |old(calls)| <= c < |calls| ==> 1 <= calls[c] <= 50
    {
      var i := 0;
      ghost var before := table;
      assert Drop(statements, 0) == statements;
      assert Execute(table, []) == table;
      while i < |statements|
        invariant 0 <= i
        invariant |table| == |before|
        invariant old(calls) <= calls && forall c :: |old(calls)| <= c < |calls| ==> 1 <= calls[c] <= 50
        invariant forall k :: 0 <= k < |table| ==>
                    TouchAll(table[k], Drop(statements, i)) == TouchAll(before[k], statements)
        decreases |statements| - i
      {
        var batch := Slice(statements, i, EXEC_CHUNK_STATEMENTS);
        assert batch + Drop(statements, i + EXEC_CHUNK_STATEMENTS) == Drop(statements, i);
        ghost var now := table;
        forall k | 0 <= k < |table|
          ensures TouchAll(TouchAll(table[k], batch), Drop(statements, i + EXEC_CHUNK_STATEMENTS))
               == TouchAll(before[k], statements)
        {
          TouchAppend(table[k], batch, Drop(statements, i + EXEC_CHUNK_STATEMENTS));
        }
        ExecuteBatch(batch);
        i := i + EXEC_CHUNK_STATEMENTS;
      }
    }
  }

  // ---- what the plan does ----------------------------------------------------------

  predicate DistinctIds(rows: seq<Row>)
  {
    forall i, j :: 0 <= i < j < |rows| ==> rows[i].id != rows[j].id
  }

  lemma {:induction false} QuarantineIdsExactly(rows: seq<ClassifiedRow>, id: int)
    ensures id in QuarantineIds(rows) <==> exists c :: c in rows && NeedsQuarantine(c) && c.raw.id == id
  {
    if rows != [] {
      var last := |rows| - 1;
      QuarantineIdsExactly(rows[..last], id);
      assert forall c :: c in rows <==> c in rows[..last] || c == rows[last];
    }
  }

  lemma {:induction false} AnnotatedExactly(rows: seq<ClassifiedRow>, c: ClassifiedRow)
    ensures c in AnnotatedRows(rows) <==> c in rows && NeedsRewrite(c)
  {
    if rows != [] {
      var last := |rows| - 1;
      AnnotatedExactly(rows[..last], c);
      assert c in rows <==> c in rows[..last] || c == rows[last];
    }
  }

  /** The chunked IN-lists together quarantine exactly the listed ids. */
  lemma {:induction false} TouchQuarantine(row: Row, chunks: seq<seq<int>>)
    ensures TouchAll(row, QuarantineStatements(chunks))
         == if row.id in Flatten(chunks) then row.(storedQuality := QUARANTINED) else row
    decreases |chunks|
  {
    if chunks != [] {
      TouchQuarantine(Touch(row, QuarantineIn(chunks[0])), chunks[1..]);
      assert QuarantineStatements(chunks)[1..] == QuarantineStatements(chunks[1..]);
      assert row.id in Flatten(chunks) <==> row.id in chunks[0] || row.id in Flatten(chunks[1..]);
    }
  }

  lemma {:induction false} TouchForeign(row: Row, rows: seq<ClassifiedRow>)
    requires forall c :: c in rows ==> NeedsRewrite(c) && c.raw.id != row.id
    ensures TouchAll(row, RewriteStatements(rows)) == row
  {
    if rows != [] {
      TouchForeign(row, rows[1..]);
      assert RewriteStatements(rows)[1..] == RewriteStatements(rows[1..]);
    }
  }

  /** Rewrites of distinct rows: the one for this row, if any, is what it ends up with. */
  lemma {:induction false} TouchRewrite(row: Row, rows: seq<ClassifiedRow>, c: ClassifiedRow)
    requires forall d :: d in rows ==> NeedsRewrite(d)
    requires forall d :: d in rows && d.raw.id == row.id ==> d == c
    requires c.raw.id == row.id && NeedsRewrite(c)
    ensures TouchAll(row, RewriteStatements(rows))
         == if c in rows then row.(name := c.displayName, storedAnnotation := c.annotation) else row
    decreases |rows|
  {
    if rows != [] {
      assert RewriteStatements(rows)[1..] == RewriteStatements(rows[1..]);
      assert c in rows <==> c == rows[0] || c in rows[1..];
      TouchRewrite(Touch(row, RewriteStatements(rows)[0]), rows[1..], c);
    }
  }

  /** A row after the plan: quarantined if the gate rejects its name, stripped if that was annotated. */
  function Planned(g: Gate, row: Row): (after: Row)
  {
    var s := g.strip(row.name);
    Row(row.id,
        if s.annotation.Some? then s.displayName else row.name,
        if g.informative(s.displayName) then row.storedQuality else "quarantined",
        if s.annotation.Some? then s.annotation else row.storedAnnotation)
  }

  /** The plan has a statement for a row exactly when it has something to change about it. */
  lemma PlanIsMinimal(g: Gate, row: Row)
    ensures NeedsQuarantine(ClassifyRow(g, row)) <==> Planned(g, row).storedQuality != row.storedQuality
    ensures NeedsRewrite(ClassifyRow(g, row))
       <==> Planned(g, row).name != row.name || Planned(g, row).storedAnnotation != row.storedAnnotation
  {
  }

  lemma PlanEffect(g: Gate, table: seq<Row>, i: nat)
    requires DistinctIds(table) && i < |table|
    ensures Execute(table, Plan(ClassifyAll(g, table)))[i] == Planned(g, table[i])
  {
    var rows := ClassifyAll(g, table);
    var row, c := table[i], rows[i];
    var chunks := Chunks(QuarantineIds(rows), CHUNK_IDS);
    var annotated := AnnotatedRows(rows);
    ChunksPartition(QuarantineIds(rows), CHUNK_IDS);
    TouchAppend(row, QuarantineStatements(chunks), RewriteStatements(annotated));
    TouchQuarantine(row, chunks);
    QuarantineIdsExactly(rows, row.id);
    OnlyOne(g, table, i);
    assert row.id in QuarantineIds(rows) <==> NeedsQuarantine(c);
    var marked := if NeedsQuarantine(c) then row.(storedQuality := QUARANTINED) else row;
    AnnotatedExactly(rows, c);
    if NeedsRewrite(c) {
      TouchRewrite(marked, annotated, c);
    } else {
      TouchForeign(marked, annotated);
    }
  }

  lemma OnlyOne(g: Gate, table: seq<Row>, i: nat)
    requires DistinctIds(table) && i < |table|
    ensures ClassifyAll(g, table)[i] in ClassifyAll(g, table)
    ensures forall c :: c in ClassifyAll(g, table) && c.raw.id == table[i].id ==> c == ClassifyAll(g, table)[i]
  {
  }

  // ---- convergence -----------------------------------------------------------------

  lemma {:induction false} NothingToQuarantine(rows: seq<ClassifiedRow>)
    ensures QuarantineIds(rows) == [] <==> forall i :: 0 <= i < |rows| ==> !NeedsQuarantine(rows[i])
  {
    if rows != [] {
      NothingToQuarantine(rows[..|rows| - 1]);
      assert forall i :: 0 <= i < |rows| - 1 ==> rows[..|rows| - 1][i] == rows[i];
    }
  }

  lemma {:induction false} NothingToRewrite(rows: seq<ClassifiedRow>)
    ensures AnnotatedRows(rows) == [] <==> forall i :: 0 <= i < |rows| ==> !NeedsRewrite(rows[i])
  {
    if rows != [] {
      NothingToRewrite(rows[..|rows| - 1]);
      assert forall i :: 0 <= i < |rows| - 1 ==> rows[..|rows| - 1][i] == rows[i];
    }
  }

  /** A plan is empty exactly when no row needs either write. */
  lemma EmptyPlan(rows: seq<ClassifiedRow>)
    ensures Plan(rows) == [] <==> forall i :: 0 <= i < |rows| ==> !NeedsQuarantine(rows[i]) && !NeedsRewrite(rows[i])
  {
    NothingToQuarantine(rows);
    NothingToRewrite(rows);
    if QuarantineIds(rows) != [] {
      ChunksAreFull(QuarantineIds(rows), CHUNK_IDS);
      assert QuarantineStatements(Chunks(QuarantineIds(rows), CHUNK_IDS)) != [];
    }
  }

  /** A rewritten row is settled: its new name asks for no further rewrite and no later quarantine. */
  predicate Settles(g: Gate, row: Row)
  {
    var c := ClassifyRow(g, row);
    NeedsRewrite(c) ==>
      var again := g.strip(c.displayName);
      && (again.annotation.Some? ==> again.annotation == c.annotation && again.displayName == c.displayName)
      && (Classify(g, c.displayName).Quarantined? ==> c.quality.Quarantined? || row.storedQuality == QUARANTINED)
  }

  /** Re-planning after an apply yields no statement, exactly when every rewritten name settles. */
  lemma ReplanEmptyIff(g: Gate, table: seq<Row>)
    requires DistinctIds(table)
    ensures Plan(ClassifyAll(g, Execute(table, Plan(ClassifyAll(g, table))))) == []
       <==> forall i :: 0 <= i < |table| ==> Settles(g, table[i])
  {
    hide Plan;
    var after := Execute(table, Plan(ClassifyAll(g, table)));
    EmptyPlan(ClassifyAll(g, after));
    forall i | 0 <= i < |table|
      ensures !NeedsQuarantine(ClassifyRow(g, after[i])) && !NeedsRewrite(ClassifyRow(g, after[i]))
              <==> Settles(g, table[i])
    {
      PlanEffect(g, table, i);
    }
  }

  /** With a stable stripper the script is idempotent: a second apply writes nothing. */
  lemma ApplyConverges(g: Gate, table: seq<Row>)
    requires DistinctIds(table) && StripIsStable(g)
    ensures Plan(ClassifyAll(g, Execute(table, Plan(ClassifyAll(g, table))))) == []
  {
    hide Plan, ClassifyAll, Execute;
    forall i | 0 <= i < |table|
      ensures Settles(g, table[i])
    {
      assert g.strip(g.strip(table[i].name).displayName) == Stripped(g.strip(table[i].name).displayName, None);
    }
    ReplanEmptyIff(g, table);
  }

  lemma {:induction false} QuarantineIdsDistinct(g: Gate, table: seq<Row>)
    requires DistinctIds(table)
    ensures forall i, j :: 0 <= i < j < |QuarantineIds(ClassifyAll(g, table))| ==>
              QuarantineIds(ClassifyAll(g, table))[i] != QuarantineIds(ClassifyAll(g, table))[j]
  {
    hide Classify;
    if table != [] {
      var last := |table| - 1;
      var rows := ClassifyAll(g, table);
      QuarantineIdsDistinct(g, table[..last]);
      assert rows[..last] == ClassifyAll(g, table[..last]);
      QuarantineIdsExactly(rows[..last], table[last].id);
      assert forall c :: c in rows[..last] ==> c.raw.id != table[last].id;
    }
  }

  /**
   * The quarantine IN-lists hold exactly the ids of the rows that need it, each at exactly one place,
   * and none is empty or longer than the chunk.
   */
  lemma PlannedIdsOnce(g: Gate, table: seq<Row>)
    requires DistinctIds(table)
    ensures var chunks := Chunks(QuarantineIds(ClassifyAll(g, table)), CHUNK_IDS);
            && (forall i :: 0 <= i < |table| ==>
                  (NeedsQuarantine(ClassifyRow(g, table[i])) <==>
                   exists c :: 0 <= c < |chunks| && table[i].id in chunks[c]))
            && (forall c, k, d, l ::
                  0 <= c < |chunks| && 0 <= k < |chunks[c]| && 0 <= d < |chunks| && 0 <= l < |chunks[d]|
                  && chunks[c][k] == chunks[d][l]
                  ==> c == d && k == l)
            && (forall c :: 0 <= c < |chunks| ==> 1 <= |chunks[c]| <= 100)
  {
    hide Classify, NeedsQuarantine, Chunks, QuarantineIds;
    var rows := ClassifyAll(g, table);
    var ids := QuarantineIds(rows);
    var chunks := Chunks(ids, CHUNK_IDS);
    ChunksPartition(ids, CHUNK_IDS);
    ChunksAreFull(ids, CHUNK_IDS);
    QuarantineIdsDistinct(g, table);
    forall c, k, d, l | 0 <= c < |chunks| && 0 <= k < |chunks[c]| && 0 <= d < |chunks| && 0 <= l < |chunks[d]|
                        && chunks[c][k] == chunks[d][l]
      ensures c == d && k == l
    {
      PlacesAreDistinct(chunks, c, k, d, l);
    }
    forall i | 0 <= i < |table|
      ensures NeedsQuarantine(ClassifyRow(g, table[i])) <==> exists c :: 0 <= c < |chunks| && table[i].id in chunks[c]
    {
      QuarantineIdsExactly(rows, table[i].id);
      OnlyOne(g, table, i);
      InFlattenIff(chunks, table[i].id);
    }
  }

  // ---- verification by counts ------------------------------------------------------

  function CountStored(table: seq<Row>, quality: string): (n: nat)
  {
    if table == [] then 0
    else CountStored(table[..|table| - 1], quality) + (if table[|table| - 1].storedQuality == quality then 1 else 0)
  }

  /** The post-write check: both counts match and no third quality value is present. */
  predicate Verified(stats: CatalogStats, table: seq<Row>)
  {
    && CountStored(table, OK) == stats.ok
    && CountStored(table, QUARANTINED) == stats.quarantined
    && forall i :: 0 <= i < |table| ==> table[i].storedQuality == OK || table[i].storedQuality == QUARANTINED
  }

  lemma CountStoredIs(table: seq<Row>, quality: string)
    ensures CountStored(table, quality) == |set i: nat | i < |table| && table[i].storedQuality == quality|
  {
    var p := (row: Row) => row.storedQuality == quality;
    CountStoredPlaces(table, quality, p);
    assert Places(table, p) == set i: nat | i < |table| && table[i].storedQuality == quality;
  }

  lemma {:induction false} CountStoredPlaces(table: seq<Row>, quality: string, p: Row -> bool)
    requires forall row :: p(row) <==> row.storedQuality == quality
    ensures CountStored(table, quality) == |Places(table, p)|
  {
    if table != [] {
      CountStoredPlaces(table[..|table| - 1], quality, p);
      OneMorePlace(table, p);
    }
  }

  /** What the check compares: how many rows are stored ok and quarantined, and that there is nothing else. */
  lemma VerifiedIs(stats: CatalogStats, table: seq<Row>)
    ensures Verified(stats, table)
       <==> && |set i: nat | i < |table| && table[i].storedQuality == "ok"| == stats.ok
            && |set i: nat | i < |table| && table[i].storedQuality == "quarantined"| == stats.quarantined
            && forall i :: 0 <= i < |table| ==>
                 table[i].storedQuality == "ok" || table[i].storedQuality == "quarantined"
  {
    hide CountStored;
    CountStoredIs(table, "ok");
    CountStoredIs(table, "quarantined");
  }

  function QuarantinedCount(g: Gate, table: seq<Row>): (n: nat)
  {
    Count(ClassifyAll(g, table), IsQuarantined)
  }

  /** Every row the gate accepts was stored as ok. */
  predicate AcceptedStoredOk(g: Gate, table: seq<Row>)
  {
    forall i :: 0 <= i < |table| && Classify(g, table[i].name).Acceptable? ==> table[i].storedQuality == OK
  }

  lemma {:induction false} CountsMatch(g: Gate, table: seq<Row>, after: seq<Row>)
    requires |after| == |table|
    requires forall i :: 0 <= i < |table| ==>
               after[i].storedQuality
               == if Classify(g, table[i].name).Quarantined? then QUARANTINED else table[i].storedQuality
    ensures CountStored(after, OK) + QuarantinedCount(g, table) <= |table|
    ensures CountStored(after, OK) + QuarantinedCount(g, table) == |table| <==> AcceptedStoredOk(g, table)
    ensures AcceptedStoredOk(g, table) ==> CountStored(after, QUARANTINED) == QuarantinedCount(g, table)
  {
    hide Classify, CountStored, QuarantinedCount, ClassifyAll, AcceptedStoredOk, OK, QUARANTINED;
    CountStep(g, table, after);
    if table != [] {
      var last := |table| - 1;
      CountsMatch(g, table[..last], after[..last]);
    }
  }

  /** What the last row adds to each count. */
  lemma CountStep(g: Gate, table: seq<Row>, after: seq<Row>)
    requires |after| == |table|
    ensures OK != QUARANTINED
    ensures table == [] ==> QuarantinedCount(g, table) == 0 && AcceptedStoredOk(g, table)
                            && CountStored(after, OK) == 0 && CountStored(after, QUARANTINED) == 0
    ensures table != [] ==>
              var last := |table| - 1;
              && QuarantinedCount(g, table)
                 == QuarantinedCount(g, table[..last]) + (if Classify(g, table[last].name).Quarantined? then 1 else 0)
              && (AcceptedStoredOk(g, table)
                  <==> AcceptedStoredOk(g, table[..last])
                       && (Classify(g, table[last].name).Acceptable? ==> table[last].storedQuality == OK))
    ensures forall quality :: table != [] ==>
              CountStored(after, quality)
              == CountStored(after[..|after| - 1], quality)
                 + (if after[|after| - 1].storedQuality == quality then 1 else 0)
  {
    hide Classify;
    assert |OK| != |QUARANTINED|;
    if table != [] {
      assert ClassifyAll(g, table)[..|table| - 1] == ClassifyAll(g, table[..|table| - 1]);
      assert forall i :: 0 <= i < |table| - 1 ==> table[..|table| - 1][i] == table[i];
    }
  }

  /**
   * Without concurrent writers the verification passes iff every row the gate accepts was
   * stored ok; with stored qualities in {ok, quarantined}: iff no stored-quarantined row
   * classifies ok.
   */
  lemma VerificationExact(g: Gate, table: seq<Row>)
    requires DistinctIds(table)
    ensures var after := Execute(table, Plan(ClassifyAll(g, table)));
            Verified(ComputeStats(ClassifyAll(g, table)), after) <==> AcceptedStoredOk(g, table)
    ensures AcceptedStoredOk(g, table)
       <==> forall i :: 0 <= i < |table| && g.informative(g.strip(table[i].name).displayName)
                        ==> table[i].storedQuality == "ok"
    ensures (forall i :: 0 <= i < |table| ==> table[i].storedQuality == OK || table[i].storedQuality == QUARANTINED)
        ==> (AcceptedStoredOk(g, table)
             <==> !exists i :: 0 <= i < |table| && table[i].storedQuality == QUARANTINED
                               && Classify(g, table[i].name).Acceptable?)
  {
    hide Plan, ClassifyAll, CountStored;
    var after := Execute(table, Plan(ClassifyAll(g, table)));
    forall i | 0 <= i < |table|
      ensures after[i].storedQuality
           == if Classify(g, table[i].name).Quarantined? then QUARANTINED else table[i].storedQuality
    {
      PlanEffect(g, table, i);
    }
    CountsMatch(g, table, after);
    assert QuarantinedCount(g, table) == ComputeStats(ClassifyAll(g, table)).quarantined;
    CountStep(g, table, after);
  }
}
