/** `transformRows` of scripts/etl-pg-to-d1.ts, and the artifact of one table from end to end. */
module EtlRows {
  import opened Wrappers
  import opened Chunking
  import opened SqlValues
  import opened SqlReader
  import opened InsertStatements

  type PgRow = map<string, PgValue>

  /** A CHECK-constrained column and the value set of its migration. */
  datatype CheckSet = CheckSet(column: string, allowed: seq<string>)

  datatype TableSpec = TableSpec(name: string, columns: seq<string>, checks: seq<CheckSet>)

  /** One offending value: its row, its column, and whether the CHECK set or the transform refused it. */
  datatype Offender = Offender(row: nat, column: string, byCheck: bool)

  datatype RowsResult =
    | SchemaDrift
    | MissingKind(column: string)
    | Offending(offenders: seq<Offender>)
    | Transformed(tuples: seq<seq<string>>)

  /** `row[column]`: a missing property is undefined. */
  function Cell(row: PgRow, column: string): (value: PgValue)
  {
    if column in row then row[column] else PgNull
  }

  /** `checkEnumValue`: only a text of the set passes; NULL is refused too. */
  predicate PassesCheck(check: CheckSet, row: PgRow)
  {
    Cell(row, check.column).PgString? && Cell(row, check.column).s in check.allowed
  }

  function CheckOffenders(checks: seq<CheckSet>, row: PgRow, index: nat): (offenders: seq<Offender>)
  {
    if checks == [] then []
    else
      var last := |checks| - 1;
      CheckOffenders(checks[..last], row, index)
      + (if PassesCheck(checks[last], row) then [] else [Offender(index, checks[last].column, true)])
  }

  /** The refused columns of a row and the literals of the others, in column order. */
  function TransformOffenders(js: Coercions, kinds: map<string, Kind>, columns: seq<string>, row: PgRow, index: nat)
    : (offenders: seq<Offender>)
    requires forall i :: 0 <= i < |columns| ==> columns[i] in kinds
  {
    if columns == [] then []
    else
      var last := |columns| - 1;
      TransformOffenders(js, kinds, columns[..last], row, index)
      + (if TransformValue(js, kinds[columns[last]], Cell(row, columns[last])).Some? then []
         else [Offender(index, columns[last], false)])
  }

  function Tuple(js: Coercions, kinds: map<string, Kind>, columns: seq<string>, row: PgRow): (tuple: seq<string>)
    requires forall i :: 0 <= i < |columns| ==> columns[i] in kinds
  {
    if columns == [] then []
    else
      var last := |columns| - 1;
      var sql := TransformValue(js, kinds[columns[last]], Cell(row, columns[last]));
      Tuple(js, kinds, columns[..last], row) + (if sql.Some? then [sql.value] else [])
  }

  predicate KindsComplete(spec: TableSpec, kinds: map<string, Kind>)
  {
    forall c :: 0 <= c < |spec.columns| ==> spec.columns[c] in kinds
  }

  function AllOffenders(js: Coercions, spec: TableSpec, kinds: map<string, Kind>, rows: seq<PgRow>)
    : (offenders: seq<Offender>)
    requires KindsComplete(spec, kinds)
  {
    if rows == [] then []
    else
      var last := |rows| - 1;
      AllOffenders(js, spec, kinds, rows[..last])
      + CheckOffenders(spec.checks, rows[last], last)
      + TransformOffenders(js, kinds, spec.columns, rows[last], last)
  }

  function Tuples(js: Coercions, kinds: map<string, Kind>, columns: seq<string>, rows: seq<PgRow>)
    : (tuples: seq<seq<string>>)
    requires forall i :: 0 <= i < |columns| ==> columns[i] in kinds
    ensures |tuples| == |rows|
    ensures forall i :: 0 <= i < |rows| ==> tuples[i] == Tuple(js, kinds, columns, rows[i])
  {
    seq(|rows|, i requires 0 <= i < |rows| => Tuple(js, kinds, columns, rows[i]))
  }

  /** The result's columns and the registry's are the same set. */
  predicate NoDrift(columns: seq<string>, pgFields: seq<string>)
  {
    (forall c :: c in columns ==> c in pgFields) && (forall c :: c in pgFields ==> c in columns)
  }

  lemma DriftIsDifference(columns: seq<string>, pgFields: seq<string>)
    ensures NoDrift(columns, pgFields) <==> (set c | c in columns) == (set c | c in pgFields)
  {
    var a, b := set c | c in columns, set c | c in pgFields;
    if a == b {
      assert forall c :: c in columns ==> c in b;
      assert forall c :: c in pgFields ==> c in a;
    }
  }

  /** The CHECK validation of one row, on the raw values. */
  method CheckRow(checks: seq<CheckSet>, row: PgRow, index: nat) returns (offenders: seq<Offender>)
    ensures offenders == CheckOffenders(checks, row, index)
  {
    offenders := [];
    for k := 0 to |checks|
      invariant offenders == CheckOffenders(checks[..k], row, index)
    {
      assert checks[..k + 1][..k] == checks[..k];
      if !PassesCheck(checks[k], row) {
        offenders := offenders + [Offender(index, checks[k].column, true)];
      }
    }
    assert checks[..|checks|] == checks;
  }

  /** The transform of one row: a refused value is listed and leaves no cell. */
  method TransformRow(js: Coercions, kinds: map<string, Kind>, columns: seq<string>, row: PgRow, index: nat)
    returns (missing: Option<string>, tuple: seq<string>, offenders: seq<Offender>)
    ensures missing.Some? <==> exists c :: 0 <= c < |columns| && columns[c] !in kinds
    ensures missing.Some? ==> missing.value in columns && missing.value !in kinds
    ensures missing.None? ==> offenders == TransformOffenders(js, kinds, columns, row, index)
    ensures missing.None? ==> tuple == Tuple(js, kinds, columns, row)
  {
    missing, tuple, offenders := None, [], [];
    for c := 0 to |columns|
      invariant forall k :: 0 <= k < c ==> columns[k] in kinds
      invariant offenders == TransformOffenders(js, kinds, columns[..c], row, index)
      invariant tuple == Tuple(js, kinds, columns[..c], row)
    {
      var column := columns[c];
      if column !in kinds {
        missing := Some(column);
        return;
      }
      assert columns[..c + 1][..c] == columns[..c];
      var sql := TransformValue(js, kinds[column], Cell(row, column));
      if sql.Some? {
        tuple := tuple + [sql.value];
      } else {
        offenders := offenders + [Offender(index, column, false)];
      }
    }
    assert columns[..|columns|] == columns;
  }

  /** `transformRows`: drift first, then every row, then every refusal reported at once. */
  method TransformRows(
      js: Coercions, spec: TableSpec, kinds: map<string, Kind>, rows: seq<PgRow>, pgFields: seq<string>)
    returns (r: RowsResult)
    ensures r.SchemaDrift? <==> (set c | c in spec.columns) != (set c | c in pgFields)
    ensures r.MissingKind? ==> rows != [] && !KindsComplete(spec, kinds)
    ensures !r.SchemaDrift? && rows != [] && !KindsComplete(spec, kinds) ==> r.MissingKind?
    ensures r.MissingKind? ==> r.column in spec.columns && r.column !in kinds
    ensures r.Offending? ==> KindsComplete(spec, kinds) && r.offenders == AllOffenders(js, spec, kinds, rows) != []
    ensures r.Transformed? && rows != [] ==> KindsComplete(spec, kinds)
    ensures r.Transformed? && KindsComplete(spec, kinds)
        ==> AllOffenders(js, spec, kinds, rows) == [] && r.tuples == Tuples(js, kinds, spec.columns, rows)
  {
    hide CheckOffenders, TransformOffenders, Tuple, NoDrift;
    DriftIsDifference(spec.columns, pgFields);
    if !NoDrift(spec.columns, pgFields) {
      return SchemaDrift;
    }
    var offenders: seq<Offender> := [];
    var tuples: seq<seq<string>> := [];
    for i := 0 to |rows|
      invariant i > 0 ==> KindsComplete(spec, kinds)
      invariant i == 0 ==> offenders == []
      invariant KindsComplete(spec, kinds) ==> offenders == AllOffenders(js, spec, kinds, rows[..i])
      invariant KindsComplete(spec, kinds) ==> tuples == Tuples(js, kinds, spec.columns, rows[..i])
    {
      var refused := CheckRow(spec.checks, rows[i], i);
      var missing, tuple, failed := TransformRow(js, kinds, spec.columns, rows[i], i);
      if missing.Some? {
        return MissingKind(missing.value);
      }
      assert rows[..i + 1][..i] == rows[..i];
      offenders := offenders + refused + failed;
      tuples := tuples + [tuple];
    }
    assert rows[..|rows|] == rows;
    r := if offenders != [] then Offending(offenders) else Transformed(tuples);
  }

  // ---- what the result means -------------------------------------------------------

  /** Every value of the row has an exact D1 counterpart and its CHECK columns hold allowed values. */
  predicate Acceptable(js: Coercions, spec: TableSpec, kinds: map<string, Kind>, row: PgRow)
    requires KindsComplete(spec, kinds)
  {
    && (forall k :: 0 <= k < |spec.checks| ==> PassesCheck(spec.checks[k], row))
    && HasMeanings(js, kinds, spec.columns, row)
  }

  predicate HasMeanings(js: Coercions, kinds: map<string, Kind>, columns: seq<string>, row: PgRow)
    requires forall i :: 0 <= i < |columns| ==> columns[i] in kinds
  {
    forall c :: 0 <= c < |columns| ==> Meaning(js, kinds[columns[c]], Cell(row, columns[c])).Some?
  }

  /** The D1 row that the Postgres row means. */
  function Meanings(js: Coercions, kinds: map<string, Kind>, columns: seq<string>, row: PgRow): (d: seq<D1Value>)
    requires forall i :: 0 <= i < |columns| ==> columns[i] in kinds
    requires HasMeanings(js, kinds, columns, row)
    ensures |d| == |columns|
    ensures forall c :: 0 <= c < |columns| ==> d[c] == Meaning(js, kinds[columns[c]], Cell(row, columns[c])).value
  {
    seq(|columns|, c requires 0 <= c < |columns| => Meaning(js, kinds[columns[c]], Cell(row, columns[c])).value)
  }

  lemma {:induction false} NoCheckOffender(checks: seq<CheckSet>, row: PgRow, index: nat)
    ensures CheckOffenders(checks, row, index) == [] <==> forall k :: 0 <= k < |checks| ==> PassesCheck(checks[k], row)
  {
    if checks != [] {
      NoCheckOffender(checks[..|checks| - 1], row, index);
      assert forall k :: 0 <= k < |checks| - 1 ==> checks[..|checks| - 1][k] == checks[k];
    }
  }

  lemma {:induction false} NoTransformOffender(
      js: Coercions, kinds: map<string, Kind>, columns: seq<string>, row: PgRow, index: nat)
    requires forall i :: 0 <= i < |columns| ==> columns[i] in kinds
    ensures TransformOffenders(js, kinds, columns, row, index) == [] <==> HasMeanings(js, kinds, columns, row)
    ensures HasMeanings(js, kinds, columns, row)
        ==> DenotesRow(Tuple(js, kinds, columns, row), Meanings(js, kinds, columns, row))
  {
    hide TransformValue, Meaning, Denotes;
    if columns != [] {
      var last := |columns| - 1;
      var front := columns[..last];
      NoTransformOffender(js, kinds, front, row, index);
      TransformIsExact(js, kinds[columns[last]], Cell(row, columns[last]));
      assert forall c :: 0 <= c < last ==> front[c] == columns[c];
      if HasMeanings(js, kinds, columns, row) {
        assert HasMeanings(js, kinds, front, row);
        assert Meanings(js, kinds, columns, row)
            == Meanings(js, kinds, front, row) + [Meaning(js, kinds[columns[last]], Cell(row, columns[last])).value];
      }
    }
  }

  /** The report is complete: nothing is listed exactly when every row is acceptable. */
  lemma {:induction false} NoOffender(js: Coercions, spec: TableSpec, kinds: map<string, Kind>, rows: seq<PgRow>)
    requires KindsComplete(spec, kinds)
    ensures AllOffenders(js, spec, kinds, rows) == []
       <==> forall i :: 0 <= i < |rows| ==> Acceptable(js, spec, kinds, rows[i])
  {
    hide HasMeanings, PassesCheck, CheckOffenders, TransformOffenders;
    if rows != [] {
      var last := |rows| - 1;
      NoOffender(js, spec, kinds, rows[..last]);
      NoCheckOffender(spec.checks, rows[last], last);
      NoTransformOffender(js, kinds, spec.columns, rows[last], last);
      assert forall i :: 0 <= i < last ==> rows[..last][i] == rows[i];
    }
  }

  /** A CHECK column of the row that holds anything but a text of its set. */
  predicate FailsCheck(check: CheckSet, row: PgRow)
  {
    check.column !in row
    || match row[check.column]
       case PgString(s) => s !in check.allowed
       case _ => true
  }

  /** What a row's refusals are, given the row. */
  predicate IsRefused(js: Coercions, spec: TableSpec, kinds: map<string, Kind>, row: PgRow, o: Offender)
    requires KindsComplete(spec, kinds)
  {
    if o.byCheck then
      exists k :: 0 <= k < |spec.checks| && spec.checks[k].column == o.column && FailsCheck(spec.checks[k], row)
    else o.column in spec.columns && Meaning(js, kinds[o.column], Cell(row, o.column)).None?
  }

  lemma {:induction false} CheckOffendersAre(checks: seq<CheckSet>, row: PgRow, index: nat, o: Offender)
    ensures o in CheckOffenders(checks, row, index)
       <==> o.row == index && o.byCheck
            && exists k :: 0 <= k < |checks| && checks[k].column == o.column && FailsCheck(checks[k], row)
  {
    if checks != [] {
      var last := |checks| - 1;
      var front := checks[..last];
      CheckOffendersAre(front, row, index, o);
      hide FailsCheck, PassesCheck;
      CheckFails(checks[last], row);
      assert forall k :: 0 <= k < last ==> front[k] == checks[k];
    }
  }

  lemma CheckFails(check: CheckSet, row: PgRow)
    ensures FailsCheck(check, row) <==> !PassesCheck(check, row)
  {
  }

  lemma {:induction false} TransformOffendersAre(
      js: Coercions, kinds: map<string, Kind>, columns: seq<string>, row: PgRow, index: nat, o: Offender)
    requires forall i :: 0 <= i < |columns| ==> columns[i] in kinds
    ensures o in TransformOffenders(js, kinds, columns, row, index)
       <==> o.row == index && !o.byCheck && o.column in columns
            && Meaning(js, kinds[o.column], Cell(row, o.column)).None?
  {
    hide TransformValue, Meaning;
    if columns != [] {
      var last := |columns| - 1;
      TransformOffendersAre(js, kinds, columns[..last], row, index, o);
      TransformIsExact(js, kinds[columns[last]], Cell(row, columns[last]));
    }
  }

  /** The report is exact: each entry names a row and a column that a CHECK set or the transform refuses there. */
  lemma {:induction false} ReportIsExact(
      js: Coercions, spec: TableSpec, kinds: map<string, Kind>, rows: seq<PgRow>, o: Offender)
    requires KindsComplete(spec, kinds)
    ensures o in AllOffenders(js, spec, kinds, rows)
       <==> o.row < |rows| && IsRefused(js, spec, kinds, rows[o.row], o)
  {
    hide CheckOffenders, TransformOffenders, FailsCheck, Meaning;
    if rows != [] {
      var last := |rows| - 1;
      ReportIsExact(js, spec, kinds, rows[..last], o);
      CheckOffendersAre(spec.checks, rows[last], last, o);
      TransformOffendersAre(js, kinds, spec.columns, rows[last], last, o);
    }
  }

  /** The D1 rows the Postgres rows mean. */
  function MeaningRows(js: Coercions, kinds: map<string, Kind>, columns: seq<string>, rows: seq<PgRow>)
      : (d: seq<seq<D1Value>>)
    requires forall i :: 0 <= i < |columns| ==> columns[i] in kinds
    requires forall i :: 0 <= i < |rows| ==> HasMeanings(js, kinds, columns, rows[i])
    ensures |d| == |rows| && forall i :: 0 <= i < |rows| ==> d[i] == Meanings(js, kinds, columns, rows[i])
  {
    seq(|rows|, i requires 0 <= i < |rows| => Meanings(js, kinds, columns, rows[i]))
  }

  lemma TuplesDenote(js: Coercions, kinds: map<string, Kind>, columns: seq<string>, rows: seq<PgRow>)
    requires columns != [] && forall i :: 0 <= i < |columns| ==> columns[i] in kinds
    requires forall i :: 0 <= i < |rows| ==> HasMeanings(js, kinds, columns, rows[i])
    ensures DenotesRows(Tuples(js, kinds, columns, rows), MeaningRows(js, kinds, columns, rows))
  {
    hide HasMeanings, Denotes, Tuple;
    forall i | 0 <= i < |rows|
      ensures Tuples(js, kinds, columns, rows)[i] != []
      ensures DenotesRow(Tuples(js, kinds, columns, rows)[i], MeaningRows(js, kinds, columns, rows)[i])
    {
      NoTransformOffender(js, kinds, columns, rows[i], 0);
    }
  }

  /**
   * A table from end to end: when the transform reports no offender, reading the artifact back
   * yields exactly the rows that the Postgres rows mean, in order and in full batches.
   */
  lemma ArtifactRoundTrip(js: Coercions, spec: TableSpec, kinds: map<string, Kind>, rows: seq<PgRow>,
                          comment: seq<string>, batchSize: nat)
    requires spec.columns != [] && KindsComplete(spec, kinds)
    requires IsComment(comment) && NoChar(spec.name, '"')
    requires forall i :: 0 <= i < |spec.columns| ==> NoChar(spec.columns[i], '"')
    requires 1 <= batchSize && AllOffenders(js, spec, kinds, rows) == []
    ensures forall i :: 0 <= i < |rows| ==> HasMeanings(js, kinds, spec.columns, rows[i])
    ensures var batches := Chunks(Tuples(js, kinds, spec.columns, rows), batchSize);
            var read := ReadScript(Script(comment, Statements(spec.name, spec.columns, batches)));
            && read.Some?
            && RowsOf(read.value) == MeaningRows(js, kinds, spec.columns, rows)
            && (forall i :: 0 <= i < |read.value| ==>
                  && read.value[i].table == spec.name && read.value[i].columns == spec.columns
                  && 1 <= |read.value[i].rows| <= batchSize
                  && (i < |read.value| - 1 ==> |read.value[i].rows| == batchSize))
  {
    hide HasMeanings, ReadScript, Script, Statements, Chunks, AllOffenders, Tuples, IsComment, DenotesRows;
    NoOffender(js, spec, kinds, rows);
    assert forall i :: 0 <= i < |rows| ==> Acceptable(js, spec, kinds, rows[i]);
    TuplesDenote(js, kinds, spec.columns, rows);
    var meant := MeaningRows(js, kinds, spec.columns, rows);
    ScriptRoundTrip(comment, spec.name, spec.columns, Tuples(js, kinds, spec.columns, rows), meant, batchSize);
    RowsOfInserts(spec.name, spec.columns, Chunks(meant, batchSize));
    ChunksPartition(meant, batchSize);
    ChunksAreFull(meant, batchSize);
    InsertTargets(spec.name, spec.columns, Chunks(meant, batchSize));
  }

  lemma {:induction false} InsertTargets(table: string, columns: seq<string>, batches: seq<seq<seq<D1Value>>>)
    ensures forall i :: 0 <= i < |batches| ==>
              && Inserts(table, columns, batches)[i].table == table
              && Inserts(table, columns, batches)[i].columns == columns
  {
    if batches != [] {
      InsertTargets(table, columns, batches[1..]);
    }
  }
}
