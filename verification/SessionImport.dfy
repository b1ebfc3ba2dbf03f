/** Importing the ordered sessions: `INSERT OR IGNORE` row by row under the rotation foreign key. */
module SessionImport {
  import opened Wrappers
  import opened SessionRotation

  type Table = map<int, Session>

  /** A row is ignored when its primary key or its unique token hash is taken. */
  function InsertOrIgnore(table: Table, row: Session): (t: Table)
  {
    if row.id in table || exists id :: id in table && table[id].tokenHash == row.tokenHash then table
    else table[row.id := row]
  }

  function Import(table: Table, rows: seq<Session>): (t: Table)
  {
    if rows == [] then table else InsertOrIgnore(Import(table, rows[..|rows| - 1]), rows[|rows| - 1])
  }

  /** Every stored predecessor is stored. */
  predicate ForeignKeyHolds(table: Table)
  {
    forall id :: id in table && table[id].parent.Some? ==> table[id].parent.value in table
  }

  predicate DistinctHashes(rows: seq<Session>)
  {
    forall i, j :: 0 <= i < j < |rows| ==> rows[i].tokenHash != rows[j].tokenHash
  }

  /** Everything stored is a row of this batch, under its own id: what an earlier import leaves. */
  predicate PartOf(table: Table, rows: seq<Session>)
  {
    forall id :: id in table ==> table[id] in rows && table[id].id == id
  }

  predicate UniqueHashes(table: Table)
  {
    forall id, other :: id in table && other in table && table[id].tokenHash == table[other].tokenHash ==> id == other
  }

  /** The statement keeps both keys of the table and every stored row, and adds the row when both are free. */
  lemma InsertKeepsKeys(table: Table, row: Session)
    requires UniqueHashes(table)
    ensures UniqueHashes(InsertOrIgnore(table, row))
    ensures forall id :: id in table ==> id in InsertOrIgnore(table, row) && InsertOrIgnore(table, row)[id] == table[id]
    ensures row.id !in table && (forall id :: id in table ==> table[id].tokenHash != row.tokenHash)
        ==> row.id in InsertOrIgnore(table, row) && InsertOrIgnore(table, row)[row.id] == row
    ensures InsertOrIgnore(table, row).Keys <= table.Keys + {row.id}
  {
  }

  lemma HashFree(table: Table, rows: seq<Session>, row: Session)
    requires DistinctIds(rows) && DistinctHashes(rows) && PartOf(table, rows) && row in rows
    ensures row.id in table ==> table[row.id] == row
    ensures row.id !in table ==> InsertOrIgnore(table, row) == table[row.id := row]
  {
    if row.id !in table {
      forall id | id in table
        ensures table[id].tokenHash != row.tokenHash
      {
        var i :| 0 <= i < |rows| && rows[i] == table[id];
        var j :| 0 <= j < |rows| && rows[j] == row;
        assert i != j;
      }
    }
  }

  /** What is in the table after the first `k` rows: the earlier content and those rows. */
  lemma {:induction false} AfterPrefix(table: Table, rows: seq<Session>, k: nat)
    requires DistinctIds(rows) && DistinctHashes(rows) && PartOf(table, rows) && k <= |rows|
    ensures PartOf(Import(table, rows[..k]), rows)
    ensures Import(table, rows[..k]).Keys == table.Keys + Ids(rows[..k])
  {
    if k == 0 {
      assert Ids(rows[..0]) == {};
    } else {
      AfterPrefix(table, rows, k - 1);
      assert rows[..k][..k - 1] == rows[..k - 1];
      assert Ids(rows[..k]) == Ids(rows[..k - 1]) + {rows[k - 1].id};
      HashFree(Import(table, rows[..k - 1]), rows, rows[k - 1]);
    }
  }

  /** The foreign key holds after every single row, from any valid earlier state of this import. */
  lemma {:induction false} ForeignKeyAfterEveryRow(table: Table, rows: seq<Session>, k: nat)
    requires DistinctIds(rows) && DistinctHashes(rows) && ParentsFirst(rows)
    requires PartOf(table, rows) && ForeignKeyHolds(table) && k <= |rows|
    ensures ForeignKeyHolds(Import(table, rows[..k]))
  {
    if k > 0 {
      ForeignKeyAfterEveryRow(table, rows, k - 1);
      AfterPrefix(table, rows, k - 1);
      assert rows[..k][..k - 1] == rows[..k - 1];
      HashFree(Import(table, rows[..k - 1]), rows, rows[k - 1]);
    }
  }

  /** Two tables of this batch with the same ids are the same table. */
  lemma SameIdsSameTable(a: Table, b: Table, rows: seq<Session>)
    requires DistinctIds(rows) && PartOf(a, rows) && PartOf(b, rows) && a.Keys == b.Keys
    ensures a == b
  {
    forall id | id in a
      ensures a[id] == b[id]
    {
      var i :| 0 <= i < |rows| && rows[i] == a[id];
      var j :| 0 <= j < |rows| && rows[j] == b[id];
      assert i == j;
    }
  }

  /**
   * Idempotence in full: from whatever part of the batch an earlier, interrupted or complete
   * import left behind, importing the batch gives the same table as importing it once.
   */
  lemma ImportConverges(table: Table, rows: seq<Session>)
    requires DistinctIds(rows) && DistinctHashes(rows) && PartOf(table, rows)
    ensures Import(table, rows) == Import(map[], rows)
    ensures forall r :: r in rows ==> r.id in Import(table, rows) && Import(table, rows)[r.id] == r
  {
    hide Import, InsertOrIgnore, DistinctHashes, DistinctIds, Ids, PartOf;
    assert rows[..|rows|] == rows;
    AfterPrefix(table, rows, |rows|);
    PartIds(table, rows);
    PartIds(map[], rows);
    AfterPrefix(map[], rows, |rows|);
    SameIdsSameTable(Import(table, rows), Import(map[], rows), rows);
    forall r | r in rows
      ensures r.id in Import(table, rows) && Import(table, rows)[r.id] == r
    {
      HashFree(Import(table, rows), rows, r);
      PartIds(table, rows);
    }
  }

  lemma PartIds(table: Table, rows: seq<Session>)
    ensures PartOf(table, rows) ==> table.Keys <= Ids(rows)
    ensures PartOf(map[], rows)
    ensures forall r :: r in rows ==> r.id in Ids(rows)
  {
    if PartOf(table, rows) {
      forall id | id in table
        ensures id in Ids(rows)
      {
        assert table[id] in rows && table[id].id == id;
      }
    }
  }

  /** Any prefix first and then everything, or everything twice: the table of one import. */
  lemma PrefixThenAll(rows: seq<Session>, k: nat)
    requires DistinctIds(rows) && DistinctHashes(rows) && k <= |rows|
    ensures Import(Import(map[], rows[..k]), rows) == Import(map[], rows)
    ensures Import(Import(map[], rows), rows) == Import(map[], rows)
  {
    AfterPrefix(map[], rows, k);
    AfterPrefix(map[], rows, |rows|);
    assert rows[..|rows|] == rows;
    ImportConverges(Import(map[], rows[..k]), rows);
    ImportConverges(Import(map[], rows), rows);
  }

  /**
   * The cutover of the sessions table: order the batch, then import it row by row. Every intermediate
   * table satisfies the foreign key and the final one holds every source row; a batch that cannot be
   * ordered fails with the ordering's stuck ids.
   */
  method ImportSessions(rows: seq<Session>) returns (table: Result<Table, seq<int>>, order: seq<Session>)
    requires DistinctHashes(rows)
    ensures table.Ok? <==> DistinctIds(rows) && forall row :: row in rows ==> Rooted(rows, row)
    ensures table.Err? ==> table.error == Stuck(rows, rows)
    ensures table.Ok? ==>
              && multiset(order) == multiset(rows) && table.value == Import(map[], order)
              && (forall k :: 0 <= k <= |order| ==> ForeignKeyHolds(Import(map[], order[..k])))
    ensures table.Ok? ==>
              table.value.Keys == Ids(rows) && forall r :: r in rows ==> r.id in table.value && table.value[r.id] == r
  {
    hide Rooted, ParentsFirst, DistinctHashes, DistinctIds, ForeignKeyHolds, InsertOrIgnore, Ids, Stuck, PartOf;
    var ordering, sweeps := OrderSessions(rows);
    order := [];
    if ordering.Err? {
      return Err(ordering.error), order;
    }
    order := ordering.value;
    PermutedBatch(rows, order);
    var t: Table := map[];
    for i := 0 to |order|
      invariant t == Import(map[], order[..i])
      invariant forall k :: 0 <= k <= i ==> ForeignKeyHolds(Import(map[], order[..k]))
    {
      assert order[..i + 1][..i] == order[..i];
      ForeignKeyAfterEveryRow(map[], order, i + 1);
      t := InsertOrIgnore(t, order[i]);
    }
    assert order[..|order|] == order;
    AfterPrefix(map[], order, |order|);
    ImportConverges(map[], order);
    table := Ok(t);
  }

  lemma PermutedBatch(rows: seq<Session>, ordered: seq<Session>)
    requires DistinctHashes(rows) && multiset(rows) == multiset(ordered) && DistinctIds(ordered)
    ensures DistinctHashes(ordered)
    ensures forall r :: r in ordered <==> r in rows
    ensures Ids(ordered) == Ids(rows)
    ensures ForeignKeyHolds(map[]) && PartOf(map[], ordered)
  {
    assert forall r :: r in rows <==> r in multiset(rows);
    assert forall r :: r in ordered <==> r in multiset(ordered);
    forall i, j | 0 <= i < j < |ordered|
      ensures ordered[i].tokenHash != ordered[j].tokenHash
    {
      assert ordered[i] in multiset(rows) && ordered[j] in multiset(rows);
      assert ordered[i] in rows && ordered[j] in rows;
      var k :| 0 <= k < |rows| && rows[k] == ordered[i];
      var l :| 0 <= l < |rows| && rows[l] == ordered[j];
      assert k != l;
    }
  }
}
