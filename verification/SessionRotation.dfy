/** `orderSessionsByRotation` of scripts/etl-pg-to-d1.ts: parents before the sessions they rotated into. */
module SessionRotation {
  import opened Wrappers
  import opened Extremes

  /** A sessions row: its id, its `rotated_from_id`, its unique token hash, and the other columns. */
  datatype Session = Session(id: int, parent: Option<int>, tokenHash: string, columns: seq<string>)

  function Ids(rows: seq<Session>): (ids: set<int>) { set r | r in rows :: r.id }

  predicate DistinctIds(rows: seq<Session>)
  {
    forall i, j :: 0 <= i < j < |rows| ==> rows[i].id != rows[j].id
  }

  /** A rotation chain inside the batch, from its first row up to a row without a predecessor. */
  predicate IsChain(rows: seq<Session>, chain: seq<Session>)
  {
    && chain != []
    && (forall i :: 0 <= i < |chain| ==> chain[i] in rows)
    && (forall i :: 0 <= i < |chain| - 1 ==> chain[i].parent == Some(chain[i + 1].id))
    && chain[|chain| - 1].parent.None?
  }

  /** The row's chain of predecessors reaches a root without leaving the batch. */
  ghost predicate Rooted(rows: seq<Session>, row: Session)
  {
    exists chain :: IsChain(rows, chain) && chain[0] == row
  }

  /** Some row under this id is rooted. */
  ghost predicate RootedId(rows: seq<Session>, id: int)
  {
    exists r :: r in rows && r.id == id && Rooted(rows, r)
  }

  /** Every row's predecessor stands strictly before it. */
  predicate ParentsFirst(ordered: seq<Session>)
  {
    forall i :: 0 <= i < |ordered| && ordered[i].parent.Some? ==> ordered[i].parent.value in Ids(ordered[..i])
  }

  /** The state the sweeps keep: what is placed, in an order that is already valid. */
  ghost predicate Placed(rows: seq<Session>, ordered: seq<Session>, placed: set<int>)
  {
    && placed == Ids(ordered)
    && (forall r :: r in ordered ==> r in rows)
    && DistinctIds(ordered)
    && ParentsFirst(ordered)
    && forall id :: id in placed ==> RootedId(rows, id)
  }

  /** A row that cannot be placed yet, or already is. */
  predicate Settled(row: Session, placed: set<int>)
  {
    row.id in placed || (row.parent.Some? && row.parent.value !in placed)
  }

  /** The ids in row order that no rooted row carries: what the error lists. */
  ghost function Stuck(rows: seq<Session>, suspects: seq<Session>): (ids: seq<int>)
  {
    if suspects == [] then []
    else
      var last := |suspects| - 1;
      Stuck(rows, suspects[..last]) + (if RootedId(rows, suspects[last].id) then [] else [suspects[last].id])
  }

  lemma ExtendChain(rows: seq<Session>, row: Session, parent: Session)
    requires row in rows && row.parent == Some(parent.id) && Rooted(rows, parent)
    ensures Rooted(rows, row)
  {
    var chain :| IsChain(rows, chain) && chain[0] == parent;
    assert IsChain(rows, [row] + chain);
  }

  lemma PlaceableIsRooted(rows: seq<Session>, placed: set<int>, row: Session)
    requires forall id :: id in placed ==> RootedId(rows, id)
    requires row in rows && (row.parent.None? || row.parent.value in placed)
    ensures RootedId(rows, row.id)
  {
    if row.parent.None? {
      assert IsChain(rows, [row]);
    } else {
      assert RootedId(rows, row.parent.value);
      var parent :| parent in rows && parent.id == row.parent.value && Rooted(rows, parent);
      ExtendChain(rows, row, parent);
    }
  }

  lemma AppendKeepsOrder(ordered: seq<Session>, row: Session)
    requires ParentsFirst(ordered) && (row.parent.None? || row.parent.value in Ids(ordered))
    ensures ParentsFirst(ordered + [row])
  {
    var next := ordered + [row];
    forall i | 0 <= i < |next| && next[i].parent.Some?
      ensures next[i].parent.value in Ids(next[..i])
    {
      assert next[..i] == ordered[..i];
      assert ordered[..|ordered|] == ordered;
    }
  }

  /** Placing a row whose predecessor is placed, or that has none, keeps the state. */
  lemma PlaceKeeps(rows: seq<Session>, ordered: seq<Session>, placed: set<int>, row: Session)
    requires Placed(rows, ordered, placed) && row in rows && row.id !in placed
    requires row.parent.None? || row.parent.value in placed
    ensures Placed(rows, ordered + [row], placed + {row.id})
  {
    hide RootedId, ParentsFirst;
    PlaceableIsRooted(rows, placed, row);
    AppendKeepsOrder(ordered, row);
    assert Ids(ordered + [row]) == placed + {row.id};
  }

  /** Once nothing moves any more, every rooted id has been placed. */
  lemma {:induction false} SettledIsComplete(rows: seq<Session>, placed: set<int>, chain: seq<Session>)
    requires forall r :: r in rows ==> Settled(r, placed)
    requires IsChain(rows, chain)
    ensures chain[0].id in placed
  {
    if |chain| > 1 {
      SettledIsComplete(rows, placed, chain[1..]);
    }
  }

  lemma SettledPlacesRooted(rows: seq<Session>, placed: set<int>, id: int)
    requires forall r :: r in rows ==> Settled(r, placed)
    requires RootedId(rows, id)
    ensures id in placed
  {
    var r :| r in rows && r.id == id && Rooted(rows, r);
    var chain :| IsChain(rows, chain) && chain[0] == r;
    SettledIsComplete(rows, placed, chain);
  }

  lemma {:induction false} IdsBound(rows: seq<Session>)
    ensures |Ids(rows)| <= |rows|
    ensures DistinctIds(rows) <==> |Ids(rows)| == |rows|
  {
    if rows != [] {
      var front := rows[..|rows| - 1];
      var last := rows[|rows| - 1];
      IdsBound(front);
      assert Ids(rows) == Ids(front) + {last.id};
      assert forall i :: 0 <= i < |front| ==> rows[i] == front[i];
      if last.id in Ids(front) {
        var r :| r in front && r.id == last.id;
        assert !DistinctIds(rows);
      } else {
        assert |Ids(rows)| == |Ids(front)| + 1;
        DistinctAppend(front, last);
        assert rows == front + [last];
      }
    }
  }

  lemma DistinctAppend(front: seq<Session>, last: Session)
    requires last.id !in Ids(front)
    ensures DistinctIds(front + [last]) <==> DistinctIds(front)
  {
    var rows := front + [last];
    assert forall i :: 0 <= i < |front| ==> rows[i] == front[i] && front[i] in front;
    if DistinctIds(rows) {
      assert DistinctIds(front);
    }
  }

  /** A full placement: the ids are distinct and the order is a permutation of the batch. */
  lemma FullPlacement(rows: seq<Session>, ordered: seq<Session>, placed: set<int>)
    requires Placed(rows, ordered, placed) && |ordered| >= |rows|
    ensures |ordered| == |rows| && DistinctIds(rows) && placed == Ids(rows)
    ensures multiset(ordered) == multiset(rows)
  {
    IdsBound(rows);
    IdsBound(ordered);
    assert placed <= Ids(rows);
    SubsetSize(placed, Ids(rows));
    forall r | r in ordered
      ensures multiset(ordered)[r] <= multiset(rows)[r]
    {
      AtMostOnce(ordered, r);
      assert r in rows;
    }
    assert multiset(ordered) <= multiset(rows);
    MultisetCard(multiset(ordered), multiset(rows));
  }

  lemma MultisetCard(a: multiset<Session>, b: multiset<Session>)
    requires a <= b && |a| == |b|
    ensures a == b
  {
    assert |b - a| == 0;
  }

  lemma {:induction false} AtMostOnce(rows: seq<Session>, r: Session)
    requires DistinctIds(rows)
    ensures multiset(rows)[r] <= 1
  {
    if rows != [] {
      var front := rows[..|rows| - 1];
      AtMostOnce(front, r);
      assert rows == front + [rows[|rows| - 1]];
      if r == rows[|rows| - 1] {
        assert r !in front;
      }
    }
  }

  /** Ids ascend and every predecessor is a smaller id of the batch. */
  predicate Sequential(rows: seq<Session>)
  {
    && (forall i, j :: 0 <= i < j < |rows| ==> rows[i].id < rows[j].id)
    && forall i :: 0 <= i < |rows| && rows[i].parent.Some? ==> rows[i].parent.value in Ids(rows[..i])
  }

  /** The rows without a predecessor, in row order. */
  function Roots(rows: seq<Session>): (roots: seq<Session>)
    ensures forall r :: r in roots <==> r in rows && r.parent.None?
  {
    if rows == [] then []
    else
      var last := rows[|rows| - 1];
      Roots(rows[..|rows| - 1]) + if last.parent.None? then [last] else []
  }

  /** The rows with a predecessor, in row order. */
  function Children(rows: seq<Session>): (children: seq<Session>)
    ensures forall r :: r in children <==> r in rows && r.parent.Some?
  {
    if rows == [] then []
    else
      var last := rows[|rows| - 1];
      Children(rows[..|rows| - 1]) + if last.parent.Some? then [last] else []
  }

  lemma NextRow(rows: seq<Session>, i: nat)
    requires i < |rows|
    ensures Roots(rows[..i + 1]) == Roots(rows[..i]) + if rows[i].parent.None? then [rows[i]] else []
    ensures Children(rows[..i + 1]) == Children(rows[..i]) + if rows[i].parent.Some? then [rows[i]] else []
  {
    assert rows[..i + 1][..i] == rows[..i];
  }

  /** After the roots and the children so far, only a child is still to be placed. */
  lemma FreshChild(rows: seq<Session>, i: nat)
    requires DistinctIds(rows) && i < |rows|
    ensures rows[i].id in Ids(Roots(rows) + Children(rows[..i])) <==> rows[i].parent.None?
  {
    if rows[i].parent.None? {
      assert rows[i] in Roots(rows) + Children(rows[..i]);
    } else {
      forall r | r in Roots(rows)
        ensures r.id != rows[i].id
      {
        var k :| 0 <= k < |rows| && rows[k] == r;
        assert k != i;
      }
      forall r | r in Children(rows[..i])
        ensures r.id != rows[i].id
      {
        var k :| 0 <= k < i && rows[k] == r;
      }
    }
  }

  /** A first sweep over a sequential batch: the roots, then the children among the first `i` rows. */
  ghost predicate InOrder(rows: seq<Session>, before: seq<Session>, ordered: seq<Session>, i: nat)
  {
    i <= |rows| && (Sequential(rows) && before == Roots(rows) ==> ordered == before + Children(rows[..i]))
  }

  lemma NextInOrder(rows: seq<Session>, i: nat)
    requires DistinctIds(rows) && i < |rows|
    ensures var soFar := Roots(rows) + Children(rows[..i]);
            Roots(rows) + Children(rows[..i + 1])
              == if rows[i].id in Ids(soFar) then soFar else soFar + [rows[i]]
  {
    hide Roots, Children, Ids, DistinctIds;
    NextRow(rows, i);
    FreshChild(rows, i);
  }

  lemma InOrderStep(rows: seq<Session>, before: seq<Session>, ordered: seq<Session>, i: nat)
    requires InOrder(rows, before, ordered, i) && i < |rows|
    ensures Sequential(rows) ==>
              InOrder(rows, before, if rows[i].id in Ids(ordered) then ordered else ordered + [rows[i]], i + 1)
    ensures !Sequential(rows) ==>
              InOrder(rows, before, ordered, i + 1) && InOrder(rows, before, ordered + [rows[i]], i + 1)
    ensures Ids(ordered + [rows[i]]) == Ids(ordered) + {rows[i].id} && rows[i].id in Ids(rows)
  {
    assert Ids(ordered + [rows[i]]) == Ids(ordered) + {rows[i].id} && rows[i].id in Ids(rows);
    SequentialIsDistinct(rows);
    hide Roots, Children, Ids, Sequential;
    if Sequential(rows) {
      NextInOrder(rows, i);
    }
  }

  lemma AllIn(rows: seq<Session>, placed: set<int>)
    requires placed <= Ids(rows)
    ensures (forall k :: 0 <= k < |rows| ==> rows[k].id in placed) ==> placed == Ids(rows)
  {
  }

  lemma {:induction false} RootsAndChildren(rows: seq<Session>)
    ensures |Roots(rows)| + |Children(rows)| == |rows|
    ensures Children(rows) == [] ==> Roots(rows) + Children(rows) == Roots(rows)
  {
    if rows != [] {
      RootsAndChildren(rows[..|rows| - 1]);
    }
  }

  /** Pass 1: the roots, in row order. */
  method PlaceRoots(rows: seq<Session>) returns (ordered: seq<Session>, placed: set<int>)
    ensures Placed(rows, ordered, placed)
    ensures DistinctIds(rows) ==> ordered == Roots(rows)
  {
    ordered, placed := [], {};
    assert rows[..|rows|] == rows;
    for i := 0 to |rows|
      invariant Placed(rows, ordered, placed)
      invariant DistinctIds(rows) ==> ordered == Roots(rows[..i])
    {
      NextRow(rows, i);
      if rows[i].parent.None? && rows[i].id !in placed {
        PlaceKeeps(rows, ordered, placed, rows[i]);
        ordered, placed := ordered + [rows[i]], placed + {rows[i].id};
      }
    }
  }

  /** Passes 2..n: place, in row order, each row whose predecessor is placed by then. */
  method Sweep(rows: seq<Session>, before: seq<Session>, placedBefore: set<int>)
    returns (ordered: seq<Session>, placed: set<int>, progressed: bool)
    requires Placed(rows, before, placedBefore)
    ensures Placed(rows, ordered, placed) && placedBefore <= placed <= Ids(rows)
    ensures progressed <==> placed != placedBefore
    ensures !progressed ==> forall r :: r in rows ==> Settled(r, placed)
    ensures before <= ordered
    ensures Sequential(rows) ==> placed == Ids(rows)
    ensures Sequential(rows) && before == Roots(rows) ==> ordered == Roots(rows) + Children(rows)
  {
    hide Placed, IsChain, Roots, Children, InOrder, Ids, Sequential;
    NothingSwept(rows, before);
    PlacedInRows(rows, before, placedBefore);
    ordered, placed, progressed := before, placedBefore, false;
    for i := 0 to |rows|
      invariant Placed(rows, ordered, placed) && placedBefore <= placed <= Ids(rows)
      invariant progressed <==> placed != placedBefore
      invariant before <= ordered && placed == Ids(ordered) && InOrder(rows, before, ordered, i)
      invariant !progressed ==> forall k :: 0 <= k < i ==> Settled(rows[k], placed)
      invariant Sequential(rows) ==> forall k :: 0 <= k < i ==> rows[k].id in placed
    {
      var row := rows[i];
      InOrderStep(rows, before, ordered, i);
      if Sequential(rows) && row.parent.Some? {
        EarlierPlaced(rows, i, placed);
      }
      if row.id !in placed {
        if row.parent.None? || row.parent.value in placed {
          PlaceKeeps(rows, ordered, placed, row);
          ordered, placed, progressed := ordered + [row], placed + {row.id}, true;
        }
      }
    }
    AllIn(rows, placed);
  }

  lemma PlacedInRows(rows: seq<Session>, ordered: seq<Session>, placed: set<int>)
    requires Placed(rows, ordered, placed)
    ensures placed == Ids(ordered) && placed <= Ids(rows) && |placed| == |ordered|
  {
    IdsBound(ordered);
  }

  lemma NothingSwept(rows: seq<Session>, before: seq<Session>)
    ensures InOrder(rows, before, before, 0)
    ensures forall ordered :: InOrder(rows, before, ordered, |rows|) && Sequential(rows) && before == Roots(rows)
              ==> ordered == Roots(rows) + Children(rows)
  {
    assert rows[..0] == [] && Children([]) == [] && before + [] == before;
    assert rows[..|rows|] == rows;
  }

  /**
   * `orderSessionsByRotation`: roots first, then sweeps that place each row whose predecessor
   * is placed, until nothing moves. Its outcome is exact, for any batch.
   */
  method OrderSessions(rows: seq<Session>) returns (r: Result<seq<Session>, seq<int>>, ghost sweeps: nat)
    ensures r.Ok? <==> DistinctIds(rows) && forall row :: row in rows ==> Rooted(rows, row)
    ensures r.Ok? ==> multiset(r.value) == multiset(rows) && ParentsFirst(r.value) && DistinctIds(r.value)
    ensures r.Ok? ==> Roots(rows) <= r.value
    ensures r.Err? ==> r.error == Stuck(rows, rows)
    ensures Sequential(rows) ==> r.Ok? && r.value == Roots(rows) + Children(rows)
    ensures Sequential(rows) ==> r.Ok? && sweeps <= 1
  {
    hide Roots, Children, Placed, IsChain, Sequential, DistinctIds, ParentsFirst, Settled, Ids, Rooted, RootedId, Stuck;
    SequentialIsDistinct(rows);
    RootsAndChildren(rows);
    var ordered, placed := PlaceRoots(rows);
    PlacedInRows(rows, ordered, placed);
    IdsBound(rows);
    sweeps := 0;
    var progressed := true;
    while |ordered| < |rows| && progressed
      invariant Placed(rows, ordered, placed)
      invariant placed <= Ids(rows)
      invariant DistinctIds(rows) ==> Roots(rows) <= ordered
      invariant Sequential(rows) && sweeps == 0 ==> ordered == Roots(rows)
      invariant Sequential(rows) && sweeps > 0 ==> ordered == Roots(rows) + Children(rows)
      invariant !progressed ==> forall r :: r in rows ==> Settled(r, placed)
      invariant Sequential(rows) && sweeps > 0 ==> |ordered| >= |rows|
      invariant Sequential(rows) ==> sweeps <= 1
      invariant sweeps == 0 ==> progressed
      decreases Ids(rows) - placed, progressed
    {
      ghost var before := placed;
      ordered, placed, progressed := Sweep(rows, ordered, placed);
      sweeps := sweeps + 1;
      PlacedInRows(rows, ordered, placed);
      assert placed != before ==> Ids(rows) - placed < Ids(rows) - before;
    }
    if |ordered| < |rows| {
      RootedArePlaced(rows, ordered, placed);
      var stuck := StuckIds(rows, placed);
      UnplacedMeansFailure(rows, ordered, placed);
      r := Err(stuck);
    } else {
      FullPlacement(rows, ordered, placed);
      AllPlacedRooted(rows, ordered, placed);
      r := Ok(ordered);
    }
  }

  lemma SequentialIsDistinct(rows: seq<Session>)
    ensures Sequential(rows) ==> DistinctIds(rows)
  {
  }

  lemma RootedArePlaced(rows: seq<Session>, ordered: seq<Session>, placed: set<int>)
    requires Placed(rows, ordered, placed)
    requires forall r :: r in rows ==> Settled(r, placed)
    ensures forall id :: id in placed <==> RootedId(rows, id)
  {
    forall id | RootedId(rows, id)
      ensures id in placed
    {
      SettledPlacesRooted(rows, placed, id);
    }
  }

  lemma EarlierPlaced(rows: seq<Session>, i: nat, placed: set<int>)
    requires i < |rows| && Sequential(rows) && rows[i].parent.Some?
    requires forall k :: 0 <= k < i ==> rows[k].id in placed
    ensures rows[i].parent.value in placed
  {
    var p :| p in rows[..i] && p.id == rows[i].parent.value;
  }

  /** `rows.filter((r) => !placed.has(r.id)).map((r) => r.id)`. */
  method StuckIds(rows: seq<Session>, placed: set<int>) returns (stuck: seq<int>)
    requires forall r :: r in rows ==> (r.id in placed <==> RootedId(rows, r.id))
    ensures stuck == Stuck(rows, rows)
  {
    stuck := [];
    for i := 0 to |rows|
      invariant stuck == Stuck(rows, rows[..i])
    {
      assert rows[..i + 1][..i] == rows[..i];
      if rows[i].id !in placed {
        stuck := stuck + [rows[i].id];
      }
    }
    assert rows[..|rows|] == rows;
  }

  lemma UnplacedMeansFailure(rows: seq<Session>, ordered: seq<Session>, placed: set<int>)
    requires Placed(rows, ordered, placed) && |ordered| < |rows|
    requires forall id :: RootedId(rows, id) ==> id in placed
    ensures !(DistinctIds(rows) && forall row :: row in rows ==> Rooted(rows, row))
  {
    if DistinctIds(rows) && forall row :: row in rows ==> Rooted(rows, row) {
      IdsBound(rows);
      IdsBound(ordered);
      forall id | id in Ids(rows)
        ensures id in placed
      {
        var r :| r in rows && r.id == id;
        assert RootedId(rows, id);
      }
      SubsetSize(Ids(rows), placed);
      SubsetSize(placed, Ids(rows));
      assert false;
    }
  }

  lemma AllPlacedRooted(rows: seq<Session>, ordered: seq<Session>, placed: set<int>)
    requires Placed(rows, ordered, placed) && DistinctIds(rows) && placed == Ids(rows)
    ensures forall row :: row in rows ==> Rooted(rows, row)
    ensures ParentsFirst(ordered) && DistinctIds(ordered)
  {
    forall row | row in rows
      ensures Rooted(rows, row)
    {
      assert RootedId(rows, row.id);
      var r :| r in rows && r.id == row.id && Rooted(rows, r);
      assert r == row;
    }
  }

  /** For distinct ids, the stuck ids are exactly those of the rows with no rooted chain. */
  lemma {:induction false} StuckExactly(rows: seq<Session>, suspects: seq<Session>, id: int)
    requires DistinctIds(rows) && forall s :: s in suspects ==> s in rows
    ensures id in Stuck(rows, suspects) <==> exists s :: s in suspects && s.id == id && !Rooted(rows, s)
  {
    if suspects != [] {
      var last := suspects[|suspects| - 1];
      var front := suspects[..|suspects| - 1];
      StuckExactly(rows, front, id);
      assert RootedId(rows, last.id) <==> Rooted(rows, last) by {
        if RootedId(rows, last.id) {
          var r :| r in rows && r.id == last.id && Rooted(rows, r);
          assert r == last;
        }
      }
      assert forall s :: s in suspects <==> s in front || s == last;
    }
  }

  // ---- why a row is stuck ----------------------------------------------------------

  /** A stretch of a rotation chain inside the batch, from its first row on. */
  predicate IsPath(rows: seq<Session>, path: seq<Session>)
  {
    && path != []
    && (forall i :: 0 <= i < |path| ==> path[i] in rows)
    && (forall i :: 0 <= i < |path| - 1 ==> path[i].parent == Some(path[i + 1].id))
  }

  /** It ends on a reference to an id outside the batch. */
  predicate Dangles(rows: seq<Session>, path: seq<Session>)
    requires path != []
  {
    path[|path| - 1].parent.Some? && path[|path| - 1].parent.value !in Ids(rows)
  }

  /** A cyclic or dangling chain from this row. */
  predicate CyclicOrDangling(rows: seq<Session>, row: Session, path: seq<Session>)
  {
    IsPath(rows, path) && path[0] == row && (Dangles(rows, path) || !DistinctIds(path))
  }

  /** From a row that is not rooted the chain goes on for any length, or dangles. */
  lemma {:induction false} Climb(rows: seq<Session>, row: Session, n: nat) returns (path: seq<Session>)
    requires row in rows && !Rooted(rows, row)
    ensures IsPath(rows, path) && path[0] == row && (Dangles(rows, path) || |path| == n + 1)
  {
    if n == 0 {
      path := [row];
    } else {
      path := Climb(rows, row, n - 1);
      if !Dangles(rows, path) {
        var last := path[|path| - 1];
        assert last.parent.Some? by {
          assert last.parent.None? ==> IsChain(rows, path);
        }
        var next :| next in rows && next.id == last.parent.value;
        path := path + [next];
      }
    }
  }

  lemma LongPathRepeats(rows: seq<Session>, path: seq<Session>)
    requires IsPath(rows, path) && |path| > |rows|
    ensures !DistinctIds(path)
  {
    IdsBound(rows);
    IdsBound(path);
    assert Ids(path) <= Ids(rows);
    SubsetSize(Ids(path), Ids(rows));
  }

  /** With distinct ids a row has one chain: any stretch of it is a beginning of the rooted one. */
  lemma {:induction false} PathFollowsChain(rows: seq<Session>, chain: seq<Session>, path: seq<Session>, k: nat)
    requires DistinctIds(rows) && IsChain(rows, chain) && IsPath(rows, path) && path[0] == chain[0] && k < |path|
    ensures k < |chain| && path[k] == chain[k]
  {
    if k > 0 {
      PathFollowsChain(rows, chain, path, k - 1);
      assert path[k - 1].parent == Some(path[k].id);
      SameId(rows, path[k], chain[k]);
    }
  }

  lemma SameId(rows: seq<Session>, a: Session, b: Session)
    requires DistinctIds(rows) && a in rows && b in rows && a.id == b.id
    ensures a == b
  {
  }

  /** Two places of a chain with one row would have it end at two distances. */
  lemma ChainsDoNotRepeat(rows: seq<Session>, chain: seq<Session>, i: nat, j: nat)
    requires DistinctIds(rows) && IsChain(rows, chain) && i < j < |chain|
    ensures chain[i].id != chain[j].id
  {
    if chain[i].id == chain[j].id {
      SameId(rows, chain[i], chain[j]);
      assert IsPath(rows, chain[i..]) && IsChain(rows, chain[j..]);
      PathFollowsChain(rows, chain[j..], chain[i..], |chain| - j);
      assert false;
    }
  }

  /** For distinct ids a row is not rooted exactly when its chain is cyclic or leaves the batch. */
  lemma UnrootedIff(rows: seq<Session>, row: Session)
    requires DistinctIds(rows) && row in rows
    ensures !Rooted(rows, row) <==> exists path :: CyclicOrDangling(rows, row, path)
  {
    hide IsPath, Dangles, DistinctIds;
    if !Rooted(rows, row) {
      var path := Climb(rows, row, |rows|);
      if !Dangles(rows, path) {
        LongPathRepeats(rows, path);
      }
      assert CyclicOrDangling(rows, row, path);
    } else {
      var chain :| IsChain(rows, chain) && chain[0] == row;
      forall path
        ensures !CyclicOrDangling(rows, row, path)
      {
        if CyclicOrDangling(rows, row, path) {
          RootedPathsEnd(rows, chain, path);
        }
      }
    }
  }

  lemma RootedPathsEnd(rows: seq<Session>, chain: seq<Session>, path: seq<Session>)
    requires DistinctIds(rows) && IsChain(rows, chain) && IsPath(rows, path) && path[0] == chain[0]
    ensures !Dangles(rows, path) && DistinctIds(path)
  {
    var last := |path| - 1;
    PathFollowsChain(rows, chain, path, last);
    if last < |chain| - 1 {
      assert chain[last].parent == Some(chain[last + 1].id) && chain[last + 1] in rows;
    }
    forall i, j | 0 <= i < j < |path|
      ensures path[i].id != path[j].id
    {
      PathFollowsChain(rows, chain, path, i);
      PathFollowsChain(rows, chain, path, j);
      ChainsDoNotRepeat(rows, chain, i, j);
    }
  }

  /** The error lists exactly the ids of the rows whose chain is cyclic or dangling. */
  lemma StuckIff(rows: seq<Session>, id: int)
    requires DistinctIds(rows)
    ensures id in Stuck(rows, rows) <==> exists s, path :: s in rows && s.id == id && CyclicOrDangling(rows, s, path)
  {
    hide DistinctIds, Rooted, CyclicOrDangling, Stuck;
    StuckExactly(rows, rows, id);
    forall s | s in rows
      ensures !Rooted(rows, s) <==> exists path :: CyclicOrDangling(rows, s, path)
    {
      UnrootedIff(rows, s);
    }
  }

  /** The places of the stuck rows, in row order. */
  ghost function StuckPlaces(rows: seq<Session>, suspects: seq<Session>): (places: seq<nat>)
  {
    if suspects == [] then []
    else
      var last := |suspects| - 1;
      StuckPlaces(rows, suspects[..last]) + if RootedId(rows, suspects[last].id) then [] else [last]
  }

  /** The error lists the ids in row order: it is the rows' ids with the rooted ones left out. */
  lemma {:induction false} StuckInOrder(rows: seq<Session>, suspects: seq<Session>)
    ensures var places, ids := StuckPlaces(rows, suspects), Stuck(rows, suspects);
            && |places| == |ids|
            && (forall i :: 0 <= i < |places| ==> places[i] < |suspects| && ids[i] == suspects[places[i]].id)
            && (forall i, j :: 0 <= i < j < |places| ==> places[i] < places[j])
  {
    hide RootedId;
    if suspects != [] {
      StuckInOrder(rows, suspects[..|suspects| - 1]);
    }
  }

  lemma {:induction false} StuckPlacesAre(rows: seq<Session>, suspects: seq<Session>, k: nat)
    requires k < |suspects|
    ensures k in StuckPlaces(rows, suspects) <==> !RootedId(rows, suspects[k].id)
  {
    hide RootedId;
    var last := |suspects| - 1;
    StuckInOrder(rows, suspects[..last]);
    if k < last {
      StuckPlacesAre(rows, suspects[..last], k);
    }
  }
}
