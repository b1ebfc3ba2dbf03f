/** `readCatalog` of scripts/classify-product-name-quality.ts: paging through the catalog by id cursor. */
module CatalogPaging {
  import opened Wrappers
  import opened Chunking
  import opened NameQuality

  /** A record as the query returns it; a name that is no string makes it malformed. */
  datatype Record = Record(id: int, name: Option<string>, nameQuality: Option<string>, nameAnnotation: Option<string>)

  /** `ORDER BY id` over a primary key. */
  predicate Ascending(table: seq<Record>)
  {
    forall i, j :: 0 <= i < j < |table| ==> table[i].id < table[j].id
  }

  /** The records with an id above the cursor, in id order. */
  function Above(table: seq<Record>, cursor: int): (rest: seq<Record>)
  {
    if table == [] || table[0].id > cursor then table else Above(table[1..], cursor)
  }

  /** `WHERE id > cursor ORDER BY id LIMIT size`. */
  function Page(table: seq<Record>, cursor: int, size: nat): (page: seq<Record>)
  {
    var rest := Above(table, cursor);
    if |rest| <= size then rest else rest[..size]
  }

  predicate IsGood(r: Record) { r.name.Some? }

  /** The row as classified: a missing quality counts as ok. */
  function RowOf(r: Record): (row: Row)
    requires IsGood(r)
  {
    Row(r.id, r.name.value, if r.nameQuality.Some? then r.nameQuality.value else OK, r.nameAnnotation)
  }

  /** The well-formed records of a list, classified, in order. */
  function GoodRows(g: Gate, records: seq<Record>): (rows: seq<ClassifiedRow>)
  {
    if records == [] then []
    else
      var last := |records| - 1;
      GoodRows(g, records[..last])
      + (if IsGood(records[last]) then [ClassifyRow(g, RowOf(records[last]))] else [])
  }

  function BadIds(records: seq<Record>): (ids: seq<int>)
  {
    if records == [] then []
    else BadIds(records[..|records| - 1]) + (if IsGood(records[|records| - 1]) then [] else [records[|records| - 1].id])
  }

  /** How many records a page advances over: up to and including its last well-formed one. */
  function Advance(page: seq<Record>): (n: nat)
    ensures n <= |page|
    ensures n > 0 ==> IsGood(page[n - 1])
    ensures forall i :: n <= i < |page| ==> !IsGood(page[i])
  {
    if page == [] then 0 else if IsGood(page[|page| - 1]) then |page| else Advance(page[..|page| - 1])
  }

  function FirstPage(rest: seq<Record>, size: nat): (page: seq<Record>)
  {
    if |rest| <= size then rest else rest[..size]
  }

  /** What the paging classifies of the records still above the cursor. */
  function Scan(g: Gate, rest: seq<Record>, size: nat): (rows: seq<ClassifiedRow>)
    requires size >= 1
    decreases |rest|
  {
    var page := FirstPage(rest, size);
    var n := Advance(page);
    if n == 0 || |page| < size then GoodRows(g, page)
    else GoodRows(g, page) + Scan(g, rest[n..], size)
  }

  /** What it lists as malformed; a malformed record at a page's end is listed again by the next page. */
  function ScanBad(rest: seq<Record>, size: nat): (ids: seq<int>)
    requires size >= 1
    decreases |rest|
  {
    var page := FirstPage(rest, size);
    var n := Advance(page);
    if n == 0 || |page| < size then BadIds(page) else BadIds(page) + ScanBad(rest[n..], size)
  }

  lemma {:induction false} AboveIsSuffix(table: seq<Record>, cursor: int) returns (k: nat)
    requires Ascending(table)
    ensures k <= |table| && Above(table, cursor) == table[k..]
    ensures forall i :: 0 <= i < k ==> table[i].id <= cursor
    ensures forall i :: k <= i < |table| ==> table[i].id > cursor
  {
    if table == [] || table[0].id > cursor {
      k := 0;
    } else {
      var inner := AboveIsSuffix(table[1..], cursor);
      k := inner + 1;
      assert table[1..][inner..] == table[k..];
      assert forall i :: 0 <= i < |table| - 1 ==> table[1..][i] == table[i + 1];
    }
  }

  /** Moving the cursor to the page's last well-formed id leaves exactly the records behind it. */
  lemma AdvanceCursor(table: seq<Record>, cursor: int, n: nat)
    requires Ascending(table) && 0 < n <= |Above(table, cursor)|
    ensures Above(table, Above(table, cursor)[n - 1].id) == Above(table, cursor)[n..]
    ensures Above(table, cursor)[n - 1].id > cursor
  {
    var rest := Above(table, cursor);
    var next := rest[n - 1].id;
    var k := AboveIsSuffix(table, cursor);
    var l := AboveIsSuffix(table, next);
    assert table[k + n - 1] == rest[n - 1];
    assert table[k + n - 1].id <= next && (k + n < |table| ==> next < table[k + n].id);
    assert k + n - 1 < l <= k + n;
    assert table[k..][n..] == table[k + n..];
  }

  /**
   * `readCatalog`: pages until one is empty, brings no progress, or is short. The result is what
   * `Scan` says, from the records with positive ids.
   */
  method ReadCatalog(g: Gate, table: seq<Record>, pageSize: nat)
    returns (rows: seq<ClassifiedRow>, malformed: seq<int>)
    requires Ascending(table) && pageSize >= 1
    ensures rows == Scan(g, Above(table, 0), pageSize)
    ensures malformed == ScanBad(Above(table, 0), pageSize)
  {
    hide Scan, ScanBad, GoodRows, BadIds, Above, Ascending;
    rows, malformed := [], [];
    var cursor := 0;
    while true
      invariant cursor >= 0
      invariant rows + Scan(g, Above(table, cursor), pageSize) == Scan(g, Above(table, 0), pageSize)
      invariant malformed + ScanBad(Above(table, cursor), pageSize) == ScanBad(Above(table, 0), pageSize)
      decreases |Above(table, cursor)|
    {
      var page := Page(table, cursor, pageSize);
      ScanStep(g, table, cursor, pageSize);
      if |page| == 0 {
        break;
      }
      PageIds(table, cursor, pageSize);
      var pageRows, pageMalformed, maxId := ReadPage(g, page, cursor);
      rows, malformed := rows + pageRows, malformed + pageMalformed;
      if maxId <= cursor {
        break;
      }
      cursor := maxId;
      if |page| < pageSize {
        break;
      }
    }
  }

  lemma ScanUnfold(g: Gate, rest: seq<Record>, size: nat)
    requires size >= 1
    ensures var page := FirstPage(rest, size);
            var n := Advance(page);
            if n == 0 || |page| < size then
              Scan(g, rest, size) == GoodRows(g, page) && ScanBad(rest, size) == BadIds(page)
            else Scan(g, rest, size) == GoodRows(g, page) + Scan(g, rest[n..], size)
                 && ScanBad(rest, size) == BadIds(page) + ScanBad(rest[n..], size)
  {
    hide GoodRows, BadIds;
  }

  /** One turn of the paging loop, as the scan sees it. */
  lemma ScanStep(g: Gate, table: seq<Record>, cursor: int, size: nat)
    requires Ascending(table) && size >= 1 && cursor >= 0
    ensures var page := Page(table, cursor, size);
            var n := Advance(page);
            var scan, bad := Scan(g, Above(table, cursor), size), ScanBad(Above(table, cursor), size);
            && (page == [] ==> scan == [] && bad == [])
            && (n > 0 ==> page[n - 1].id > cursor)
            && (if n == 0 || |page| < size then scan == GoodRows(g, page) && bad == BadIds(page)
                else
                  var next := page[n - 1].id;
                  && scan == GoodRows(g, page) + Scan(g, Above(table, next), size)
                  && bad == BadIds(page) + ScanBad(Above(table, next), size)
                  && |Above(table, next)| < |Above(table, cursor)|)
  {
    hide Above, GoodRows, BadIds, Ascending, Scan, ScanBad, Advance;
    var page := Page(table, cursor, size);
    var n := Advance(page);
    assert page == FirstPage(Above(table, cursor), size);
    NothingRead(g);
    ScanUnfold(g, Above(table, cursor), size);
    if n > 0 {
      AdvanceCursor(table, cursor, n);
      assert page[n - 1] == Above(table, cursor)[n - 1];
    }
  }

  lemma NothingRead(g: Gate)
    ensures GoodRows(g, []) == [] && BadIds([]) == []
  {
  }

  lemma PageIds(table: seq<Record>, cursor: int, size: nat)
    requires Ascending(table) && cursor >= 0
    ensures Ascending(Page(table, cursor, size))
    ensures forall i :: 0 <= i < |Page(table, cursor, size)| ==> Page(table, cursor, size)[i].id > cursor
  {
    var k := AboveIsSuffix(table, cursor);
    var page := Page(table, cursor, size);
    assert forall i :: 0 <= i < |page| ==> page[i] == table[k + i];
  }

  /** One page: classify the well-formed records, list the others, remember the largest good id. */
  method ReadPage(g: Gate, page: seq<Record>, ghost cursor: int)
    returns (rows: seq<ClassifiedRow>, malformed: seq<int>, maxId: int)
    requires Ascending(page) && cursor >= 0 && forall i :: 0 <= i < |page| ==> page[i].id > cursor
    ensures rows == GoodRows(g, page) && malformed == BadIds(page)
    ensures maxId == if Advance(page) == 0 then 0 else page[Advance(page) - 1].id
  {
    hide ClassifyRow;
    rows, malformed, maxId := [], [], 0;
    for i := 0 to |page|
      invariant rows == GoodRows(g, page[..i]) && malformed == BadIds(page[..i])
      invariant maxId == if Advance(page[..i]) == 0 then 0 else page[Advance(page[..i]) - 1].id
    {
      var record := page[i];
      assert page[..i + 1][..i] == page[..i];
      if !IsGood(record) {
        malformed := malformed + [record.id];
        continue;
      }
      if record.id > maxId {
        maxId := record.id;
      }
      rows := rows + [ClassifyRow(g, RowOf(record))];
    }
    assert page[..|page|] == page;
  }

  // ---- what the scan covers --------------------------------------------------------

  lemma {:induction false} GoodRowsAppend(g: Gate, a: seq<Record>, b: seq<Record>)
    ensures GoodRows(g, a + b) == GoodRows(g, a) + GoodRows(g, b)
  {
    hide ClassifyRow;
    if b == [] {
      assert a + b == a;
    } else {
      var last := |b| - 1;
      GoodRowsAppend(g, a, b[..last]);
      assert (a + b)[..|a + b| - 1] == a + b[..last];
    }
  }

  lemma {:induction false} NoGoodRows(g: Gate, records: seq<Record>)
    ensures GoodRows(g, records) == [] <==> forall i :: 0 <= i < |records| ==> !IsGood(records[i])
  {
    if records != [] {
      NoGoodRows(g, records[..|records| - 1]);
      assert forall i :: 0 <= i < |records| - 1 ==> records[..|records| - 1][i] == records[i];
    }
  }

  /** A full page's worth of malformed records in a row, with a well-formed one after it. */
  predicate Blocked(rest: seq<Record>, size: nat)
  {
    exists i, j :: 0 <= i && i + size <= j < |rest| && IsGood(rest[j]) && AllBad(rest, i, size)
  }

  predicate AllBad(rest: seq<Record>, i: nat, size: nat)
    requires i + size <= |rest|
  {
    forall k :: i <= k < i + size ==> !IsGood(rest[k])
  }

  /** The page's good rows are those of the records the cursor advances over. */
  lemma PageIsPrefix(g: Gate, rest: seq<Record>, size: nat)
    requires size >= 1
    ensures var page := FirstPage(rest, size);
            && GoodRows(g, page) == GoodRows(g, rest[..Advance(page)])
            && GoodRows(g, rest) == GoodRows(g, page) + GoodRows(g, rest[Advance(page)..])
  {
    var page := FirstPage(rest, size);
    var n := Advance(page);
    assert page == rest[..n] + page[n..];
    GoodRowsAppend(g, rest[..n], page[n..]);
    NoGoodRows(g, page[n..]);
    assert rest == rest[..n] + rest[n..];
    GoodRowsAppend(g, rest[..n], rest[n..]);
  }

  /**
   * The paging equals a full scan exactly when the table is not blocked: no page-sized run of
   * malformed records stands before a well-formed one. A blocked table loses rows.
   */
  lemma {:induction false} ScanIsFullIff(g: Gate, rest: seq<Record>, size: nat)
    requires size >= 1
    ensures |Scan(g, rest, size)| <= |GoodRows(g, rest)|
    ensures Scan(g, rest, size) == GoodRows(g, rest) <==> !Blocked(rest, size)
    ensures Scan(g, rest, size) <= GoodRows(g, rest)
    decreases |rest|
  {
    hide GoodRows;
    var page := FirstPage(rest, size);
    var n := Advance(page);
    PageIsPrefix(g, rest, size);
    if n == 0 {
      NoGoodRows(g, rest);
      NoGoodRows(g, page);
      BlockedAtFront(rest, size);
    } else if |page| < size {
      assert page == rest;
      NoGoodRows(g, rest[n..]);
      assert forall i :: 0 <= i < |rest| - n ==> rest[n..][i] == page[n + i];
    } else {
      ScanIsFullIff(g, rest[n..], size);
      BlockedBehind(rest, size, n);
    }
  }

  lemma BlockedAtFront(rest: seq<Record>, size: nat)
    requires size >= 1 && Advance(FirstPage(rest, size)) == 0
    ensures Blocked(rest, size) <==> exists j :: 0 <= j < |rest| && IsGood(rest[j])
  {
    var page := FirstPage(rest, size);
    assert forall i :: 0 <= i < |page| ==> !IsGood(page[i]) && page[i] == rest[i];
    if j :| 0 <= j < |rest| && IsGood(rest[j]) {
      assert j >= size;
      assert AllBad(rest, 0, size);
    }
  }

  lemma BlockedBehind(rest: seq<Record>, size: nat, n: nat)
    requires 0 < n <= size <= |rest| && IsGood(rest[n - 1])
    ensures Blocked(rest, size) <==> Blocked(rest[n..], size)
  {
    var tail := rest[n..];
    if Blocked(rest, size) {
      var i, j :| 0 <= i && i + size <= j < |rest| && IsGood(rest[j]) && AllBad(rest, i, size);
      assert i >= n;
      assert AllBad(tail, i - n, size);
      assert tail[j - n] == rest[j];
    }
    if Blocked(tail, size) {
      var i, j :| 0 <= i && i + size <= j < |tail| && IsGood(tail[j]) && AllBad(tail, i, size);
      forall k | i + n <= k < i + n + size
        ensures !IsGood(rest[k])
      {
        assert rest[k] == tail[k - n];
      }
      assert AllBad(rest, i + n, size);
      assert rest[j + n] == tail[j];
    }
  }

  /** A catalog of string names: every positive id is classified exactly once, in id order. */
  lemma WellFormedCatalog(g: Gate, table: seq<Record>, size: nat)
    requires Ascending(table) && size >= 1
    requires forall i :: 0 <= i < |table| && table[i].id > 0 ==> IsGood(table[i])
    ensures Scan(g, Above(table, 0), size) == GoodRows(g, Above(table, 0))
    ensures |GoodRows(g, Above(table, 0))| == |Above(table, 0)|
    ensures forall i :: 0 <= i < |Above(table, 0)| ==>
              var r := Above(table, 0)[i];
              && IsGood(r)
              && GoodRows(g, Above(table, 0))[i]
                 == ClassifyRow(g, Row(r.id, r.name.value, if r.nameQuality.Some? then r.nameQuality.value else "ok",
                                       r.nameAnnotation))
  {
    hide Scan, GoodRows, Above, ClassifyRow;
    var k := AboveIsSuffix(table, 0);
    var rest := Above(table, 0);
    assert forall i :: 0 <= i < |rest| ==> rest[i] == table[k + i];
    ScanIsFullIff(g, rest, size);
    AllGood(g, rest);
    if Blocked(rest, size) {
      BlockedHasBad(rest, size);
    }
  }

  lemma BlockedHasBad(rest: seq<Record>, size: nat)
    requires size >= 1 && Blocked(rest, size)
    ensures exists k :: 0 <= k < |rest| && !IsGood(rest[k])
  {
    var i, j :| 0 <= i && i + size <= j < |rest| && IsGood(rest[j]) && AllBad(rest, i, size);
    assert !IsGood(rest[i]);
  }

  lemma {:induction false} AllGood(g: Gate, records: seq<Record>)
    requires forall i :: 0 <= i < |records| ==> IsGood(records[i])
    ensures |GoodRows(g, records)| == |records|
    ensures forall i :: 0 <= i < |records| ==> GoodRows(g, records)[i] == ClassifyRow(g, RowOf(records[i]))
  {
    hide ClassifyRow;
    if records != [] {
      AllGood(g, records[..|records| - 1]);
      assert forall i :: 0 <= i < |records| - 1 ==> records[..|records| - 1][i] == records[i];
    }
  }

  predicate HasId(records: seq<Record>, id: int)
  {
    exists k :: 0 <= k < |records| && records[k].id == id
  }

  lemma {:induction false} GoodRowsAscend(g: Gate, records: seq<Record>)
    requires Ascending(records)
    ensures forall i :: 0 <= i < |GoodRows(g, records)| ==> HasId(records, GoodRows(g, records)[i].raw.id)
    ensures forall i, j :: 0 <= i < j < |GoodRows(g, records)| ==>
              GoodRows(g, records)[i].raw.id < GoodRows(g, records)[j].raw.id
  {
    if records != [] {
      var last := |records| - 1;
      GoodRowsAscend(g, records[..last]);
      var front := GoodRows(g, records[..last]);
      assert HasId(records, records[last].id);
      forall i | 0 <= i < |front|
        ensures front[i].raw.id < records[last].id && HasId(records, front[i].raw.id)
      {
        assert HasId(records[..last], front[i].raw.id);
        var k :| 0 <= k < last && records[..last][k].id == front[i].raw.id;
        assert records[k] == records[..last][k];
      }
    }
  }

  /** With any malformed records present, no row is ever classified twice. */
  lemma NeverTwice(g: Gate, table: seq<Record>, size: nat)
    requires Ascending(table) && size >= 1
    ensures forall i, j :: 0 <= i < j < |Scan(g, Above(table, 0), size)| ==>
              Scan(g, Above(table, 0), size)[i].raw.id < Scan(g, Above(table, 0), size)[j].raw.id
  {
    var k := AboveIsSuffix(table, 0);
    var rest := Above(table, 0);
    ScanIsFullIff(g, rest, size);
    GoodRowsAscend(g, rest);
    var scan, all := Scan(g, rest, size), GoodRows(g, rest);
    assert forall i :: 0 <= i < |scan| ==> scan[i] == all[i];
  }

  // ---- the list of malformed records -----------------------------------------------

  /** Every full page the walk goes on behind ends in a well-formed record. */
  predicate PagesEndWell(rest: seq<Record>, size: nat)
    requires size >= 1
    decreases |rest|
  {
    |rest| < size || Advance(rest[..size]) == 0 || (IsGood(rest[size - 1]) && PagesEndWell(rest[size..], size))
  }

  /** The malformed records' ids, in order. */
  lemma {:induction false} BadIdsLaws(records: seq<Record>)
    requires Ascending(records)
    ensures forall i :: 0 <= i < |records| && !IsGood(records[i]) ==> records[i].id in BadIds(records)
    ensures forall id :: id in BadIds(records) ==> HasId(records, id)
    ensures NoRepeat(BadIds(records))
  {
    if records != [] {
      var last := |records| - 1;
      var front := records[..last];
      assert forall i :: 0 <= i < last ==> front[i] == records[i];
      BadIdsLaws(front);
      forall id | id in BadIds(records)
        ensures HasId(records, id) && (id in BadIds(front) ==> id < records[last].id)
      {
        if id in BadIds(front) {
          assert HasId(front, id);
        } else {
          assert records[last].id == id;
        }
      }
    }
  }

  lemma AscendingParts(rest: seq<Record>, n: nat, size: nat)
    requires Ascending(rest) && n <= |rest|
    ensures Ascending(rest[n..]) && Ascending(FirstPage(rest, size))
    ensures forall id :: HasId(rest[n..], id) ==> HasId(rest, id)
    ensures forall id :: HasId(FirstPage(rest, size), id) ==> HasId(rest, id)
    ensures forall i, id :: 0 <= i < n && HasId(rest[n..], id) ==> rest[i].id < id
  {
    var page := FirstPage(rest, size);
    assert forall i :: 0 <= i < |page| ==> page[i] == rest[i];
    assert forall i :: 0 <= i < |rest| - n ==> rest[n..][i] == rest[n + i];
  }

  lemma {:induction false} ScanBadIsInside(rest: seq<Record>, size: nat)
    requires size >= 1 && Ascending(rest)
    ensures forall id :: id in ScanBad(rest, size) ==> HasId(rest, id)
    decreases |rest|
  {
    hide Ascending, HasId;
    var page := FirstPage(rest, size);
    var n := Advance(page);
    AscendingParts(rest, n, size);
    BadIdsLaws(page);
    if n > 0 && |page| == size {
      ScanBadIsInside(rest[n..], size);
    }
  }

  /** A page that goes on behind malformed records has its successor list them once more. */
  lemma TailIsRepeated(rest: seq<Record>, size: nat)
    requires size >= 1 && Ascending(rest) && size <= |rest|
    requires 0 < Advance(rest[..size]) < size
    ensures !NoRepeat(ScanBad(rest, size))
  {
    hide Ascending, NoRepeat, BadIds, HasId;
    var page, n := rest[..size], Advance(rest[..size]);
    assert FirstPage(rest, size) == page;
    AscendingParts(rest, n, size);
    var tail := rest[n..];
    var next := FirstPage(tail, size);
    AscendingParts(tail, 0, size);
    assert next[0] == tail[0] == page[n];
    BadIdsLaws(page);
    BadIdsLaws(next);
    ScanStarts(tail, size);
    RepeatedAcross(BadIds(page), ScanBad(tail, size), page[n].id);
  }

  lemma ScanStarts(rest: seq<Record>, size: nat)
    requires size >= 1
    ensures forall id :: id in BadIds(FirstPage(rest, size)) ==> id in ScanBad(rest, size)
  {
  }

  lemma RepeatedAcross(a: seq<int>, b: seq<int>, x: int)
    requires x in a && x in b
    ensures !NoRepeat(a + b)
  {
    var i :| 0 <= i < |a| && a[i] == x;
    var j :| 0 <= j < |b| && b[j] == x;
    assert (a + b)[i] == (a + b)[|a| + j];
  }

  /**
   * Each malformed record is listed at most once exactly when every full page that is not the last
   * one read ends in a well-formed record.
   */
  lemma {:induction false} ListedOnceIff(rest: seq<Record>, size: nat)
    requires size >= 1 && Ascending(rest)
    ensures NoRepeat(ScanBad(rest, size)) <==> PagesEndWell(rest, size)
    decreases |rest|
  {
    hide Ascending, HasId;
    var page := FirstPage(rest, size);
    var n := Advance(page);
    AscendingParts(rest, n, size);
    BadIdsLaws(page);
    if |rest| >= size {
      assert page == rest[..size];
      if n == size {
        var first, more := BadIds(page), ScanBad(rest[n..], size);
        ListedOnceIff(rest[n..], size);
        ScanBadIsInside(rest[n..], size);
        PagesApart(rest, size);
        RepeatSplits(first, more);
      } else if n > 0 {
        TailIsRepeated(rest, size);
      }
    }
  }

  lemma PagesApart(rest: seq<Record>, size: nat)
    requires size >= 1 && Ascending(rest) && size <= |rest|
    ensures forall a, b :: a in BadIds(rest[..size]) && HasId(rest[size..], b) ==> a != b
  {
    AscendingParts(rest, size, size);
    BadIdsLaws(rest[..size]);
    forall a, b | a in BadIds(rest[..size]) && HasId(rest[size..], b)
      ensures a != b
    {
      assert HasId(rest[..size], a);
      var i :| 0 <= i < size && rest[..size][i].id == a;
      assert rest[i].id == a;
    }
  }

  lemma RepeatSplits(a: seq<int>, b: seq<int>)
    requires NoRepeat(a) && forall x, y :: x in a && y in b ==> x != y
    ensures NoRepeat(a + b) <==> NoRepeat(b)
  {
    var all := a + b;
    if NoRepeat(all) {
      forall i, j | 0 <= i < j < |b|
        ensures b[i] != b[j]
      {
        assert all[|a| + i] == b[i] && all[|a| + j] == b[j];
      }
    }
    if NoRepeat(b) {
      forall i, j | 0 <= i < j < |all|
        ensures all[i] != all[j]
      {
        if i < |a| <= j {
          assert all[i] in a && all[j] in b;
        } else if |a| <= i {
          assert all[i] == b[i - |a|] && all[j] == b[j - |a|];
        }
      }
    }
  }

  // ---- failing catalogs at the script's page size ----------------------------------

  function Named(id: int): (r: Record) { Record(id, Some("Karhu"), None, None) }

  function Nameless(id: int): (r: Record) { Record(id, None, None, None) }

  /** A page of ids from 1 on, with a malformed last record. */
  function PageWithBadEnd(size: nat): (table: seq<Record>)
    requires size >= 1
  {
    seq(size - 1, (i: int) => Named(i + 1)) + [Nameless(size)]
  }

  lemma {:induction false} AllGoodLists(records: seq<Record>)
    requires forall i :: 0 <= i < |records| ==> IsGood(records[i])
    ensures BadIds(records) == [] && Advance(records) == |records|
  {
    if records != [] {
      AllGoodLists(records[..|records| - 1]);
    }
  }

  lemma OneMoreBad(front: seq<Record>, bad: Record)
    requires !IsGood(bad)
    ensures BadIds(front + [bad]) == BadIds(front) + [bad.id] && Advance(front + [bad]) == Advance(front)
  {
    assert (front + [bad])[..|front|] == front;
  }

  lemma PositiveIds(table: seq<Record>)
    requires table != [] && table[0].id > 0
    ensures Above(table, 0) == table
  {
  }

  lemma NamelessLast(goods: seq<Record>, bad: Record, size: nat)
    requires |goods| == size - 1 >= 1 && !IsGood(bad)
    requires forall i :: 0 <= i < |goods| ==> IsGood(goods[i])
    ensures ScanBad(goods + [bad], size) == [bad.id, bad.id]
  {
    var rest := goods + [bad];
    AllGoodLists(goods);
    OneMoreBad(goods, bad);
    OneMoreBad([], bad);
    assert FirstPage(rest, size) == rest;
    var tail := rest[size - 1..];
    assert tail == [bad] && [] + [bad] == [bad] && FirstPage(tail, size) == tail;
  }

  /** Such a page has its last id listed twice, whatever the page size from two on. */
  lemma MalformedListedTwice(size: nat)
    requires size >= 2
    ensures var table := PageWithBadEnd(size); Ascending(table) && ScanBad(Above(table, 0), size) == [size, size]
  {
    hide Above, ScanBad;
    PositiveIds(PageWithBadEnd(size));
    NamelessLast(seq(size - 1, (i: int) => Named(i + 1)), Nameless(size), size);
  }

  lemma MalformedListedTwiceByScript()
    ensures ScanBad(Above(PageWithBadEnd(5000), 0), 5000) == [5000, 5000]
  {
    hide PageWithBadEnd, ScanBad, Above;
    MalformedListedTwice(5000);
  }

  /** A page of malformed records with a well-formed one behind it. */
  function BlockedCatalog(size: nat): (table: seq<Record>)
  {
    seq(size, (i: int) => Nameless(i + 1)) + [Named(size + 1)]
  }

  lemma BlockedIsLost(g: Gate, size: nat)
    requires size >= 1
    ensures var table := BlockedCatalog(size);
            && Ascending(table) && Blocked(table, size) && Scan(g, Above(table, 0), size) == []
            && GoodRows(g, table) == [ClassifyRow(g, RowOf(Named(size + 1)))]
  {
    var bads := seq(size, (i: int) => Nameless(i + 1));
    var good := Named(size + 1);
    var table := bads + [good];
    hide Scan, GoodRows, ClassifyRow, Above;
    PositiveIds(table);
    assert table[..size] == bads;
    assert FirstPage(table, size) == bads;
    NoGoodRows(g, bads);
    assert AllBad(table, 0, size) && table[size] == good;
    ScanUnfold(g, table, size);
    GoodRowsLast(g, bads, good);
  }

  /** The script classifies nothing of such a catalog: its one well-formed row is never read. */
  lemma BlockedByScript(g: Gate)
    ensures var table := BlockedCatalog(5000);
            && Ascending(table) && Blocked(table, 5000)
            && Scan(g, Above(table, 0), 5000) == []
            && GoodRows(g, table) == [ClassifyRow(g, RowOf(Named(5001)))]
  {
    hide BlockedCatalog, Scan, GoodRows, Blocked, Ascending, ClassifyRow, Named, Above;
    BlockedIsLost(g, 5000);
  }

  lemma GoodRowsLast(g: Gate, front: seq<Record>, last: Record)
    requires IsGood(last)
    ensures GoodRows(g, front + [last]) == GoodRows(g, front) + [ClassifyRow(g, RowOf(last))]
  {
    assert (front + [last])[..|front|] == front;
  }
}
