/** Swapping the two sides of a diff: the same differences, seen from the other side. */
module JsonDiffSwap {
  import opened Json
  import opened JsonDiff

  function SwapKind(kind: DiffKind): (k: DiffKind)
  {
    match kind
    case MissingInWorker => MissingInBaseline
    case MissingInBaseline => MissingInWorker
    case _ => kind
  }

  /** The difference as the other side reports it. */
  function Swap(d: PayloadDiff): (s: PayloadDiff)
  {
    PayloadDiff(d.path, SwapKind(d.kind), d.worker, d.baseline)
  }

  function SwapAll(diffs: seq<PayloadDiff>): (swapped: seq<PayloadDiff>)
    ensures |swapped| == |diffs|
    ensures forall i :: 0 <= i < |diffs| ==> swapped[i] == Swap(diffs[i])
  {
    seq(|diffs|, i requires 0 <= i < |diffs| => Swap(diffs[i]))
  }

  lemma SwapAllAppend(a: seq<PayloadDiff>, b: seq<PayloadDiff>)
    ensures SwapAll(a + b) == SwapAll(a) + SwapAll(b)
  {
  }

  /** The same differences up to order. */
  predicate Permuted(a: seq<PayloadDiff>, b: seq<PayloadDiff>) { multiset(a) == multiset(b) }

  lemma PermutedAppend(a: seq<PayloadDiff>, b: seq<PayloadDiff>, c: seq<PayloadDiff>, d: seq<PayloadDiff>)
    requires Permuted(a, c) && Permuted(b, d)
    ensures Permuted(a + b, c + d)
  {
  }

  lemma {:induction false} LackedSwapped(render: Render, xs: seq<Field>, ys: seq<Field>, path: seq<Step>)
    ensures SwapAll(LackedByWorker(render, xs, ys, path)) == LackedByBaseline(render, ys, xs, path)
  {
    if xs != [] {
      var last := |xs| - 1;
      var f := xs[last];
      LackedSwapped(render, xs[..last], ys, path);
      SwapAllAppend(LackedByWorker(render, xs[..last], ys, path),
                    if HasKey(ys, f.key) then []
                    else [PayloadDiff(FormatPath(path + [Key(f.key)]), MissingInWorker, render(f.value), "∅")]);
    }
  }

  lemma {:induction false} ExtraSwapped(render: Render, xs: seq<Field>, ys: seq<Field>, path: seq<Step>)
    ensures SwapAll(LackedByBaseline(render, xs, ys, path)) == LackedByWorker(render, ys, xs, path)
  {
    if ys != [] {
      var last := |ys| - 1;
      var f := ys[last];
      ExtraSwapped(render, xs, ys[..last], path);
      SwapAllAppend(LackedByBaseline(render, xs, ys[..last], path),
                    if HasKey(xs, f.key) then []
                    else [PayloadDiff(FormatPath(path + [Key(f.key)]), MissingInBaseline, "∅", render(f.value))]);
    }
  }

  // ---- the common keys, in either side's order -------------------------------------

  /** The differences under one key of `a`, when `b` has it. */
  function UnderKey(render: Render, a: Json, b: Json, path: seq<Step>, i: nat): (diffs: seq<PayloadDiff>)
    requires a.Obj? && b.Obj? && i < |a.fields|
  {
    var f := a.fields[i];
    if HasKey(b.fields, f.key) then FullDiff(render, f.value, Get(b.fields, f.key), path + [Key(f.key)]) else []
  }

  /** The differences under a's first `n` keys, as a multiset. */
  function Collected(render: Render, a: Json, b: Json, path: seq<Step>, n: nat): (all: multiset<PayloadDiff>)
    requires a.Obj? && b.Obj? && n <= |a.fields|
  {
    if n == 0 then multiset{}
    else Collected(render, a, b, path, n - 1) + multiset(UnderKey(render, a, b, path, n - 1))
  }

  lemma {:induction false} CommonIsCollected(render: Render, a: Json, b: Json, path: seq<Step>, n: nat)
    requires a.Obj? && b.Obj? && n <= |a.fields|
    ensures multiset(CommonDiffs(render, a, b, path, n)) == Collected(render, a, b, path, n)
  {
    hide FullDiff;
    if n > 0 {
      CommonIsCollected(render, a, b, path, n - 1);
    }
  }

  /** Only the fields looked up matter: dropping a key of `b` that `a` lacks changes nothing. */
  lemma {:induction false} DropForeignKey(
      render: Render, a: Json, b: Json, c: Json, key: string, path: seq<Step>, n: nat)
    requires a.Obj? && b.Obj? && c.Obj? && n <= |a.fields|
    requires forall i :: 0 <= i < n ==> a.fields[i].key != key
    requires forall k :: k != key ==> (HasKey(b.fields, k) <==> HasKey(c.fields, k))
    requires forall k :: k != key && HasKey(b.fields, k) ==> Get(b.fields, k) == Get(c.fields, k)
    ensures Collected(render, a, b, path, n) == Collected(render, a, c, path, n)
  {
    hide FullDiff, HasKey, Get;
    if n > 0 {
      DropForeignKey(render, a, b, c, key, path, n - 1);
    }
  }

  function RemoveAt(fields: seq<Field>, i: nat): (r: seq<Field>)
    requires i < |fields|
  {
    fields[..i] + fields[i + 1..]
  }

  lemma RemoveAtKey(fields: seq<Field>, i: nat, k: string)
    requires DistinctKeys(fields) && i < |fields| && DistinctKeys(RemoveAt(fields, i))
    ensures HasKey(RemoveAt(fields, i), k) <==> HasKey(fields, k) && k != fields[i].key
    ensures HasKey(RemoveAt(fields, i), k) ==> Get(RemoveAt(fields, i), k) == Get(fields, k)
  {
    var r := RemoveAt(fields, i);
    assert |r| == |fields| - 1 && forall j :: 0 <= j < |r| ==> r[j] == fields[if j < i then j else j + 1];
    assert forall j :: 0 <= j < |fields| && j != i ==> fields[j].key != fields[i].key;
    hide Get, HasKey, RemoveAt, DistinctKeys;
    if HasKey(r, k) {
      var j := Place(r, k);
      GetOf(fields, if j < i then j else j + 1);
    }
    if HasKey(fields, k) && k != fields[i].key {
      var j := Place(fields, k);
      assert r[if j < i then j else j - 1] == fields[j];
      GetOf(r, if j < i then j else j - 1);
    }
  }

  lemma RemoveAtDistinct(fields: seq<Field>, i: nat)
    requires DistinctKeys(fields) && i < |fields|
    ensures DistinctKeys(RemoveAt(fields, i))
  {
    var r := RemoveAt(fields, i);
    assert forall j :: 0 <= j < |r| ==> r[j] == fields[if j < i then j else j + 1];
  }

  lemma RemoveAtKeys(fields: seq<Field>, i: nat)
    requires DistinctKeys(fields) && i < |fields|
    ensures DistinctKeys(RemoveAt(fields, i))
    ensures forall k :: HasKey(RemoveAt(fields, i), k) <==> HasKey(fields, k) && k != fields[i].key
    ensures forall k :: HasKey(RemoveAt(fields, i), k) ==> Get(RemoveAt(fields, i), k) == Get(fields, k)
  {
    hide Get, HasKey, RemoveAt, DistinctKeys;
    RemoveAtDistinct(fields, i);
    forall k
      ensures HasKey(RemoveAt(fields, i), k) <==> HasKey(fields, k) && k != fields[i].key
      ensures HasKey(RemoveAt(fields, i), k) ==> Get(RemoveAt(fields, i), k) == Get(fields, k)
    {
      RemoveAtKey(fields, i, k);
    }
  }

  lemma UnderKeyOf(render: Render, a: Json, i: nat, c: Json, j: nat, b: Json, path: seq<Step>)
    requires a.Obj? && b.Obj? && c.Obj? && i < |a.fields| && j < |c.fields| && a.fields[i] == c.fields[j]
    ensures UnderKey(render, a, b, path, i) == UnderKey(render, c, b, path, j)
  {
  }

  /** Taking one key out of `a` takes exactly its differences out of the collection. */
  lemma {:induction false} CollectedWithout(render: Render, a: Json, b: Json, path: seq<Step>, i: nat, n: nat)
    requires a.Obj? && b.Obj? && i < n <= |a.fields|
    ensures Collected(render, a, b, path, n)
         == Collected(render, Obj(RemoveAt(a.fields, i)), b, path, n - 1) + multiset(UnderKey(render, a, b, path, i))
  {
    hide UnderKey;
    var without := Obj(RemoveAt(a.fields, i));
    if n == i + 1 {
      SamePrefix(render, a, without, b, path, i);
    } else {
      CollectedWithout(render, a, b, path, i, n - 1);
      assert without.fields[n - 2] == a.fields[n - 1];
      UnderKeyOf(render, a, n - 1, without, n - 2, b, path);
    }
  }

  lemma {:induction false} SamePrefix(render: Render, a: Json, c: Json, b: Json, path: seq<Step>, n: nat)
    requires a.Obj? && b.Obj? && c.Obj? && n <= |a.fields| && n <= |c.fields|
    requires forall i :: 0 <= i < n ==> a.fields[i] == c.fields[i]
    ensures Collected(render, a, b, path, n) == Collected(render, c, b, path, n)
  {
    hide UnderKey;
    if n > 0 {
      SamePrefix(render, a, c, b, path, n - 1);
      UnderKeyOf(render, a, n - 1, c, n - 1, b, path);
    }
  }

  predicate SwapsUnder(render: Render, x: Json, y: Json, path: seq<Step>)
  {
    Permuted(SwapAll(FullDiff(render, x, y, path)), FullDiff(render, y, x, path))
  }

  /** The hypothesis of the object case: each pair of common members swaps. */
  ghost predicate MembersSwap(render: Render, a: Json, b: Json, path: seq<Step>)
    requires a.Obj? && b.Obj?
  {
    forall i, j :: 0 <= i < |a.fields| && 0 <= j < |b.fields| && a.fields[i].key == b.fields[j].key
              ==> SwapsUnder(render, a.fields[i].value, b.fields[j].value, path + [Key(a.fields[i].key)])
  }

  /** Swapping is its own inverse, so it only renames the members of the multiset. */
  lemma {:induction false} SwapCount(xs: seq<PayloadDiff>, d: PayloadDiff)
    ensures multiset(SwapAll(xs))[d] == multiset(xs)[Swap(d)]
  {
    if xs != [] {
      var last := |xs| - 1;
      SwapCount(xs[..last], d);
      assert xs == xs[..last] + [xs[last]];
      SwapAllAppend(xs[..last], [xs[last]]);
      assert SwapAll([xs[last]]) == [Swap(xs[last])];
      assert Swap(xs[last]) == d <==> xs[last] == Swap(d);
    }
  }

  lemma SwapMultiset(xs: seq<PayloadDiff>, ys: seq<PayloadDiff>)
    requires multiset(xs) == multiset(ys)
    ensures multiset(SwapAll(xs)) == multiset(SwapAll(ys))
  {
    hide SwapAll;
    forall d
      ensures multiset(SwapAll(xs))[d] == multiset(SwapAll(ys))[d]
    {
      SwapCount(xs, d);
      SwapCount(ys, d);
    }
  }

  /** Collecting over a's keys and over b's keys finds the same differences, swapped. */
  lemma {:induction false} CommonSwapped(render: Render, a: Json, b: Json, path: seq<Step>)
    requires a.Obj? && b.Obj? && DistinctKeys(a.fields) && DistinctKeys(b.fields)
    requires MembersSwap(render, a, b, path)
    ensures Permuted(SwapAll(CommonDiffs(render, a, b, path, |a.fields|)), CommonDiffs(render, b, a, path, |b.fields|))
    decreases |a.fields|
  {
    hide FullDiff, DistinctKeys, UnderKey, CommonDiffs, MembersSwap, RemoveAt;
    var n := |a.fields|;
    if n == 0 {
      CommonIsCollected(render, b, a, path, |b.fields|);
      CollectedNothing(render, b, a, path, |b.fields|);
      CommonOfNothing(render, a, b, path);
    } else {
      var shorter := Obj(a.fields[..n - 1]);
      FrontDistinct(a.fields);
      if HasKey(b.fields, a.fields[n - 1].key) {
        var j :| 0 <= j < |b.fields| && b.fields[j].key == a.fields[n - 1].key;
        var rest := Obj(RemoveAt(b.fields, j));
        RemoveAtDistinct(b.fields, j);
        MembersOfRest(render, a, b, shorter, rest, path, j);
        CommonSwapped(render, shorter, rest, path);
        SharedLast(render, a, b, shorter, rest, path, j);
      } else {
        MembersOfShorter(render, a, b, shorter, path);
        CommonSwapped(render, shorter, b, path);
        ForeignLast(render, a, b, shorter, path);
      }
    }
  }

  lemma CommonOfNothing(render: Render, a: Json, b: Json, path: seq<Step>)
    requires a.Obj? && b.Obj? && a.fields == []
    ensures SwapAll(CommonDiffs(render, a, b, path, |a.fields|)) == []
  {
  }

  lemma FrontDistinct(fields: seq<Field>)
    requires DistinctKeys(fields) && fields != []
    ensures DistinctKeys(fields[..|fields| - 1])
  {
  }

  /** The last key of `a` is no key of `b`: it contributes on neither side. */
  lemma ForeignLast(render: Render, a: Json, b: Json, shorter: Json, path: seq<Step>)
    requires a.Obj? && b.Obj? && a.fields != [] && DistinctKeys(a.fields)
    requires shorter == Obj(a.fields[..|a.fields| - 1]) && !HasKey(b.fields, a.fields[|a.fields| - 1].key)
    requires Permuted(SwapAll(CommonDiffs(render, shorter, b, path, |shorter.fields|)),
                      CommonDiffs(render, b, shorter, path, |b.fields|))
    ensures Permuted(SwapAll(CommonDiffs(render, a, b, path, |a.fields|)), CommonDiffs(render, b, a, path, |b.fields|))
  {
    var n := |a.fields|;
    hide FullDiff, CommonDiffs, UnderKey, SwapAll, RemoveAt, HasKey, Get, DistinctKeys, Collected;
    LastStep(render, a, b, shorter, path);
    assert CommonDiffs(render, a, b, path, n) == CommonDiffs(render, shorter, b, path, n - 1);
    CommonIsCollected(render, b, a, path, |b.fields|);
    CommonIsCollected(render, b, shorter, path, |b.fields|);
    ForeignDropped(render, a, b, shorter, path);
  }

  lemma ForeignDropped(render: Render, a: Json, b: Json, shorter: Json, path: seq<Step>)
    requires a.Obj? && b.Obj? && a.fields != [] && DistinctKeys(a.fields)
    requires shorter == Obj(a.fields[..|a.fields| - 1]) && !HasKey(b.fields, a.fields[|a.fields| - 1].key)
    ensures Collected(render, b, a, path, |b.fields|) == Collected(render, b, shorter, path, |b.fields|)
  {
    hide FullDiff, UnderKey, RemoveAt, HasKey, Get, DistinctKeys, Collected;
    var last := |a.fields| - 1;
    FrontIsRemoval(a.fields);
    RemoveAtKeys(a.fields, last);
    KeysDiffer(b.fields, a.fields[last].key);
    DropForeignKey(render, b, a, shorter, a.fields[last].key, path, |b.fields|);
  }

  lemma LastStep(render: Render, a: Json, b: Json, shorter: Json, path: seq<Step>)
    requires a.Obj? && b.Obj? && a.fields != [] && shorter == Obj(a.fields[..|a.fields| - 1])
    ensures CommonDiffs(render, a, b, path, |a.fields|)
         == CommonDiffs(render, shorter, b, path, |shorter.fields|) + UnderKey(render, a, b, path, |a.fields| - 1)
    ensures !HasKey(b.fields, a.fields[|a.fields| - 1].key) ==> UnderKey(render, a, b, path, |a.fields| - 1) == []
  {
    hide FullDiff;
    CommonPrefix(render, a, shorter, b, path, |a.fields| - 1);
  }

  lemma FrontIsRemoval(fields: seq<Field>)
    requires fields != []
    ensures fields[..|fields| - 1] == RemoveAt(fields, |fields| - 1)
  {
  }

  /** The last key of `a` is the key at `j` of `b`: each side gains the same pair's differences. */
  lemma SharedLast(render: Render, a: Json, b: Json, shorter: Json, rest: Json, path: seq<Step>, j: nat)
    requires a.Obj? && b.Obj? && a.fields != [] && j < |b.fields|
    requires DistinctKeys(a.fields) && DistinctKeys(b.fields) && MembersSwap(render, a, b, path)
    requires shorter == Obj(a.fields[..|a.fields| - 1]) && rest == Obj(RemoveAt(b.fields, j))
    requires b.fields[j].key == a.fields[|a.fields| - 1].key
    requires Permuted(SwapAll(CommonDiffs(render, shorter, rest, path, |shorter.fields|)),
                      CommonDiffs(render, rest, shorter, path, |rest.fields|))
    ensures Permuted(SwapAll(CommonDiffs(render, a, b, path, |a.fields|)), CommonDiffs(render, b, a, path, |b.fields|))
  {
    hide FullDiff, UnderKey, CommonDiffs, SwapAll, MembersSwap, RemoveAt, DistinctKeys;
    var n := |a.fields|;
    var here, there := UnderKey(render, a, b, path, n - 1), UnderKey(render, b, a, path, j);
    LastStep(render, a, b, shorter, path);
    BaselineSide(render, a, b, shorter, rest, path, j);
    WorkerSide(render, a, b, shorter, rest, path, j);
    PairSwaps(render, a, b, path, j);
    SwapAllAppend(CommonDiffs(render, shorter, b, path, n - 1), here);
    SwapMultiset(CommonDiffs(render, shorter, b, path, n - 1), CommonDiffs(render, shorter, rest, path, n - 1));
  }

  lemma PairSwaps(render: Render, a: Json, b: Json, path: seq<Step>, j: nat)
    requires a.Obj? && b.Obj? && a.fields != [] && j < |b.fields|
    requires DistinctKeys(a.fields) && DistinctKeys(b.fields) && MembersSwap(render, a, b, path)
    requires b.fields[j].key == a.fields[|a.fields| - 1].key
    ensures Permuted(SwapAll(UnderKey(render, a, b, path, |a.fields| - 1)), UnderKey(render, b, a, path, j))
  {
    hide FullDiff, SwapAll;
    var f := a.fields[|a.fields| - 1];
    GetOfDistinct(a.fields, |a.fields| - 1);
    GetOfDistinct(b.fields, j);
    hide HasKey, Get, DistinctKeys;
    assert SwapsUnder(render, f.value, b.fields[j].value, path + [Key(f.key)]);
  }

  /** Walking a's remaining keys: the key taken out of `b` is not among them. */
  lemma BaselineSide(render: Render, a: Json, b: Json, shorter: Json, rest: Json, path: seq<Step>, j: nat)
    requires a.Obj? && b.Obj? && a.fields != [] && j < |b.fields|
    requires DistinctKeys(a.fields) && DistinctKeys(b.fields)
    requires shorter == Obj(a.fields[..|a.fields| - 1]) && rest == Obj(RemoveAt(b.fields, j))
    requires b.fields[j].key == a.fields[|a.fields| - 1].key
    ensures multiset(CommonDiffs(render, shorter, b, path, |shorter.fields|))
         == multiset(CommonDiffs(render, shorter, rest, path, |shorter.fields|))
  {
    hide FullDiff, RemoveAt, CommonDiffs, UnderKey, HasKey, Get, DistinctKeys, Collected;
    CommonIsCollected(render, shorter, b, path, |shorter.fields|);
    CommonIsCollected(render, shorter, rest, path, |shorter.fields|);
    LastKeyGone(a.fields, shorter.fields);
    RemoveAtKeys(b.fields, j);
    DropForeignKey(render, shorter, b, rest, b.fields[j].key, path, |shorter.fields|);
  }

  /** Walking b's keys: the key at `j` contributes its differences, the others are as without it. */
  lemma WorkerSide(render: Render, a: Json, b: Json, shorter: Json, rest: Json, path: seq<Step>, j: nat)
    requires a.Obj? && b.Obj? && a.fields != [] && j < |b.fields|
    requires DistinctKeys(a.fields) && DistinctKeys(b.fields)
    requires shorter == Obj(a.fields[..|a.fields| - 1]) && rest == Obj(RemoveAt(b.fields, j))
    requires b.fields[j].key == a.fields[|a.fields| - 1].key
    ensures |rest.fields| == |b.fields| - 1
    ensures multiset(CommonDiffs(render, b, a, path, |b.fields|))
         == multiset(CommonDiffs(render, rest, shorter, path, |rest.fields|))
            + multiset(UnderKey(render, b, a, path, j))
  {
    hide FullDiff, CommonDiffs, UnderKey, HasKey, Get, DistinctKeys, Collected;
    CommonIsCollected(render, b, a, path, |b.fields|);
    CommonIsCollected(render, rest, shorter, path, |rest.fields|);
    CollectedWithout(render, b, a, path, j, |b.fields|);
    KeyGoneFromRest(b.fields, j, rest.fields);
    FrontIsRemoval(a.fields);
    RemoveAtKeys(a.fields, |a.fields| - 1);
    DropForeignKey(render, rest, a, shorter, b.fields[j].key, path, |rest.fields|);
  }

  lemma {:induction false} CollectedNothing(render: Render, b: Json, a: Json, path: seq<Step>, n: nat)
    requires a.Obj? && b.Obj? && a.fields == [] && n <= |b.fields|
    ensures Collected(render, b, a, path, n) == multiset{}
  {
    if n > 0 {
      CollectedNothing(render, b, a, path, n - 1);
    }
  }

  lemma {:induction false} CommonPrefix(render: Render, a: Json, c: Json, b: Json, path: seq<Step>, n: nat)
    requires a.Obj? && b.Obj? && c.Obj? && n <= |a.fields| && n <= |c.fields|
    requires forall i :: 0 <= i < n ==> a.fields[i] == c.fields[i]
    ensures CommonDiffs(render, a, b, path, n) == CommonDiffs(render, c, b, path, n)
  {
    hide FullDiff;
    if n > 0 {
      CommonPrefix(render, a, c, b, path, n - 1);
    }
  }

  lemma GetOfDistinct(fields: seq<Field>, i: nat)
    requires DistinctKeys(fields) && i < |fields|
    ensures HasKey(fields, fields[i].key) && Get(fields, fields[i].key) == fields[i].value
  {
    GetOf(fields, i);
  }

  lemma LastKeyGone(fields: seq<Field>, front: seq<Field>)
    requires DistinctKeys(fields) && fields != [] && front == fields[..|fields| - 1]
    ensures forall i :: 0 <= i < |front| ==> front[i].key != fields[|fields| - 1].key
  {
  }

  lemma KeyGoneFromRest(fields: seq<Field>, j: nat, rest: seq<Field>)
    requires DistinctKeys(fields) && j < |fields| && rest == RemoveAt(fields, j)
    ensures forall i :: 0 <= i < |rest| ==> rest[i].key != fields[j].key
  {
    assert forall i :: 0 <= i < |rest| ==> rest[i] == fields[if i < j then i else i + 1];
  }

  lemma KeysDiffer(fields: seq<Field>, key: string)
    requires !HasKey(fields, key)
    ensures forall i :: 0 <= i < |fields| ==> fields[i].key != key
  {
  }

  lemma MembersOfRest(render: Render, a: Json, b: Json, shorter: Json, rest: Json, path: seq<Step>, j: nat)
    requires a.Obj? && b.Obj? && a.fields != [] && j < |b.fields|
    requires shorter == Obj(a.fields[..|a.fields| - 1]) && rest == Obj(RemoveAt(b.fields, j))
    requires MembersSwap(render, a, b, path)
    ensures MembersSwap(render, shorter, rest, path)
  {
    hide SwapsUnder;
    forall i, k | 0 <= i < |shorter.fields| && 0 <= k < |rest.fields| && shorter.fields[i].key == rest.fields[k].key
      ensures SwapsUnder(render, shorter.fields[i].value, rest.fields[k].value, path + [Key(shorter.fields[i].key)])
    {
      assert shorter.fields[i] == a.fields[i];
      assert rest.fields[k] == b.fields[if k < j then k else k + 1];
    }
  }

  lemma MembersOfShorter(render: Render, a: Json, b: Json, shorter: Json, path: seq<Step>)
    requires a.Obj? && b.Obj? && a.fields != []
    requires shorter == Obj(a.fields[..|a.fields| - 1])
    requires MembersSwap(render, a, b, path)
    ensures MembersSwap(render, shorter, b, path)
  {
    hide SwapsUnder;
    assert forall i :: 0 <= i < |shorter.fields| ==> shorter.fields[i] == a.fields[i];
  }

  lemma {:induction false} ItemsSwapped(render: Render, a: Json, b: Json, path: seq<Step>, n: nat)
    requires a.Arr? && b.Arr? && |a.items| == |b.items| && n <= |a.items|
    requires forall i :: 0 <= i < n ==> SwapsUnder(render, a.items[i], b.items[i], path + [Index(i)])
    ensures Permuted(SwapAll(ItemDiffs(render, a, b, path, n)), ItemDiffs(render, b, a, path, n))
  {
    hide FullDiff;
    if n > 0 {
      ItemsSwapped(render, a, b, path, n - 1);
      var x := FullDiff(render, a.items[n - 1], b.items[n - 1], path + [Index(n - 1)]);
      var y := FullDiff(render, b.items[n - 1], a.items[n - 1], path + [Index(n - 1)]);
      SwapAllAppend(ItemDiffs(render, a, b, path, n - 1), x);
      var here, there := ItemDiffs(render, a, b, path, n - 1), ItemDiffs(render, b, a, path, n - 1);
      PermutedAppend(SwapAll(here), SwapAll(x), there, y);
    } else {
      assert SwapAll([]) == [];
    }
  }

  /**
   * Diffing the other way round yields the same differences as a multiset, with the two
   * missing-kinds and the two printed sides exchanged.
   */
  lemma {:induction false} DiffSwapped(render: Render, a: Json, b: Json, path: seq<Step>)
    requires WellFormed(a) && WellFormed(b)
    ensures Permuted(SwapAll(FullDiff(render, a, b, path)), FullDiff(render, b, a, path))
    decreases a
  {
    if a.Arr? && b.Arr? && |a.items| == |b.items| {
      forall i | 0 <= i < |a.items|
        ensures SwapsUnder(render, a.items[i], b.items[i], path + [Index(i)])
      {
        DiffSwapped(render, a.items[i], b.items[i], path + [Index(i)]);
      }
      ItemsSwapped(render, a, b, path, |a.items|);
    } else if a.Obj? && b.Obj? {
      forall i, j | 0 <= i < |a.fields| && 0 <= j < |b.fields| && a.fields[i].key == b.fields[j].key
        ensures SwapsUnder(render, a.fields[i].value, b.fields[j].value, path + [Key(a.fields[i].key)])
      {
        DiffSwapped(render, a.fields[i].value, b.fields[j].value, path + [Key(a.fields[i].key)]);
      }
      ObjectSwapped(render, a, b, path);
    } else {
      ScalarSwapped(render, a, b, path);
    }
  }

  lemma ScalarSwapped(render: Render, a: Json, b: Json, path: seq<Step>)
    requires !(a.Arr? && b.Arr? && |a.items| == |b.items|) && !(a.Obj? && b.Obj?)
    ensures SwapAll(FullDiff(render, a, b, path)) == FullDiff(render, b, a, path)
  {
  }

  lemma ObjectSwapped(render: Render, a: Json, b: Json, path: seq<Step>)
    requires a.Obj? && b.Obj? && DistinctKeys(a.fields) && DistinctKeys(b.fields)
    requires MembersSwap(render, a, b, path)
    ensures Permuted(SwapAll(FullDiff(render, a, b, path)), FullDiff(render, b, a, path))
  {
    hide LackedByBaseline, LackedByWorker, CommonDiffs, MembersSwap;
    var lacked := LackedByWorker(render, a.fields, b.fields, path);
    var extra := LackedByBaseline(render, a.fields, b.fields, path);
    var common := CommonDiffs(render, a, b, path, |a.fields|);
    LackedSwapped(render, a.fields, b.fields, path);
    ExtraSwapped(render, a.fields, b.fields, path);
    CommonSwapped(render, a, b, path);
    SwapAllAppend(lacked + extra, common);
    SwapAllAppend(lacked, extra);
  }
}
