/** `diffNormalized` of scripts/dual-run-parity.ts: the capped recursive walk and what it refines. */
module JsonDiff {
  import opened Json

  datatype DiffKind = MissingInWorker | MissingInBaseline | TypeMismatch | ValueMismatch

  datatype PayloadDiff = PayloadDiff(path: string, kind: DiffKind, baseline: string, worker: string)

  /** `String(n)` of a length. */
  function NatText(n: nat): (s: string)
  {
    var digit := ['0' + (n % 10) as char];
    if n < 10 then digit else NatText(n / 10) + digit
  }

  /** `formatPath`: indices in brackets, keys joined by dots, no dot while the text is empty. */
  function FormatPath(path: seq<Step>): (s: string)
  {
    if path == [] then ""
    else
      var last := |path| - 1;
      var before := FormatPath(path[..last]);
      match path[last]
      case Index(i) => before + "[" + NatText(i) + "]"
      case Key(key) => if before == "" then key else before + "." + key
  }

  type Render = Json -> string

  // ---- the uncapped difference -----------------------------------------------------

  /** Every difference between two payloads, in walk order. `render` prints a value. */
  function FullDiff(render: Render, a: Json, b: Json, path: seq<Step>): (diffs: seq<PayloadDiff>)
    decreases a, 1, 0
  {
    if a.Arr? || b.Arr? then
      if !(a.Arr? && b.Arr?) then [PayloadDiff(FormatPath(path), TypeMismatch, render(a), render(b))]
      else if |a.items| != |b.items| then
        [PayloadDiff(FormatPath(path) + ".length", ValueMismatch, NatText(|a.items|), NatText(|b.items|))]
      else ItemDiffs(render, a, b, path, |a.items|)
    else if a.Obj? != b.Obj? then [PayloadDiff(FormatPath(path), TypeMismatch, render(a), render(b))]
    else if a.Obj? then
      LackedByWorker(render, a.fields, b.fields, path)
      + LackedByBaseline(render, a.fields, b.fields, path)
      + CommonDiffs(render, a, b, path, |a.fields|)
    else if a != b then [PayloadDiff(FormatPath(path), ValueMismatch, render(a), render(b))]
    else []
  }

  /** The differences of the first `n` array members. */
  function ItemDiffs(render: Render, a: Json, b: Json, path: seq<Step>, n: nat): (diffs: seq<PayloadDiff>)
    requires a.Arr? && b.Arr? && |a.items| == |b.items| && n <= |a.items|
    decreases a, 0, n
  {
    if n == 0 then []
    else ItemDiffs(render, a, b, path, n - 1) + FullDiff(render, a.items[n - 1], b.items[n - 1], path + [Index(n - 1)])
  }

  function LackedByWorker(render: Render, xs: seq<Field>, ys: seq<Field>, path: seq<Step>): (diffs: seq<PayloadDiff>)
  {
    if xs == [] then []
    else
      var f := xs[|xs| - 1];
      LackedByWorker(render, xs[..|xs| - 1], ys, path)
      + (if HasKey(ys, f.key) then []
         else [PayloadDiff(FormatPath(path + [Key(f.key)]), MissingInWorker, render(f.value), "∅")])
  }

  function LackedByBaseline(render: Render, xs: seq<Field>, ys: seq<Field>, path: seq<Step>): (diffs: seq<PayloadDiff>)
  {
    if ys == [] then []
    else
      var f := ys[|ys| - 1];
      LackedByBaseline(render, xs, ys[..|ys| - 1], path)
      + (if HasKey(xs, f.key) then []
         else [PayloadDiff(FormatPath(path + [Key(f.key)]), MissingInBaseline, "∅", render(f.value))])
  }

  /** The differences under the keys both sides have, among the first `n` of the baseline's. */
  function CommonDiffs(render: Render, a: Json, b: Json, path: seq<Step>, n: nat): (diffs: seq<PayloadDiff>)
    requires a.Obj? && b.Obj? && n <= |a.fields|
    decreases a, 0, n
  {
    if n == 0 then []
    else
      var f := a.fields[n - 1];
      CommonDiffs(render, a, b, path, n - 1)
      + (if HasKey(b.fields, f.key) then FullDiff(render, f.value, Get(b.fields, f.key), path + [Key(f.key)]) else [])
  }

  // ---- the capped walk -------------------------------------------------------------

  /** A list filled up from `more` until the cap: what pushing behind the guard amounts to. */
  function Capped(diffs: seq<PayloadDiff>, more: seq<PayloadDiff>, cap: nat): (r: seq<PayloadDiff>)
  {
    if |diffs| + |more| <= cap then diffs + more
    else if |diffs| >= cap then diffs
    else diffs + more[..cap - |diffs|]
  }

  lemma CappedTwice(diffs: seq<PayloadDiff>, x: seq<PayloadDiff>, y: seq<PayloadDiff>, cap: nat)
    ensures Capped(Capped(diffs, x, cap), y, cap) == Capped(diffs, x + y, cap)
  {
  }

  lemma CappedFull(diffs: seq<PayloadDiff>, x: seq<PayloadDiff>, cap: nat)
    ensures |diffs| >= cap ==> Capped(diffs, x, cap) == diffs
    ensures |Capped(diffs, x, cap)| >= cap <==> |diffs| + |x| >= cap
    ensures Capped(diffs, [], cap) == diffs
    ensures |diffs| < cap && |x| == 1 ==> Capped(diffs, x, cap) == diffs + x
  {
    assert diffs + [] == diffs;
    if |diffs| >= cap && |diffs| + |x| <= cap {
      assert x == [];
    }
  }

  /** The walk's shared accumulator: the closure's `diffs` array and its cap. */
  class DiffWalk {
    var diffs: seq<PayloadDiff>
    const maxDiffs: nat
    const render: Render

    constructor (render: Render, maxDiffs: nat)
      ensures this.diffs == [] && this.maxDiffs == maxDiffs && this.render == render
    {
      this.diffs := [];
      this.maxDiffs := maxDiffs;
      this.render := render;
    }

    method Push(diff: PayloadDiff)
      modifies this
      ensures diffs == old(diffs) + [diff]
    {
      diffs := diffs + [diff];
    }

    /** One visit: it adds the differences below this pair, as far as the cap leaves room. */
    method Walk(a: Json, b: Json, path: seq<Step>)
      modifies this
      ensures diffs == Capped(old(diffs), FullDiff(render, a, b, path), maxDiffs)
      decreases a, 2
    {
      CappedFull(diffs, FullDiff(render, a, b, path), maxDiffs);
      if |diffs| >= maxDiffs {
        return;
      }
      if a.Arr? || b.Arr? {
        if !(a.Arr? && b.Arr?) {
          Push(PayloadDiff(FormatPath(path), TypeMismatch, render(a), render(b)));
          return;
        }
        if |a.items| != |b.items| {
          Push(PayloadDiff(FormatPath(path) + ".length", ValueMismatch, NatText(|a.items|), NatText(|b.items|)));
          return;
        }
        WalkItems(a, b, path);
        return;
      }
      if a.Obj? != b.Obj? {
        Push(PayloadDiff(FormatPath(path), TypeMismatch, render(a), render(b)));
        return;
      }
      if a.Obj? {
        WalkFields(a, b, path);
        return;
      }
      if a != b {
        Push(PayloadDiff(FormatPath(path), ValueMismatch, render(a), render(b)));
      }
    }

    method WalkItems(a: Json, b: Json, path: seq<Step>)
      requires a.Arr? && b.Arr? && |a.items| == |b.items|
      modifies this
      ensures diffs == Capped(old(diffs), ItemDiffs(render, a, b, path, |a.items|), maxDiffs)
      decreases a, 0
    {
      hide Capped, FullDiff;
      ghost var before := diffs;
      CappedFull(before, [], maxDiffs);
      for i := 0 to |a.items|
        invariant diffs == Capped(before, ItemDiffs(render, a, b, path, i), maxDiffs)
      {
        Walk(a.items[i], b.items[i], path + [Index(i)]);
        CappedTwice(before, ItemDiffs(render, a, b, path, i),
                    FullDiff(render, a.items[i], b.items[i], path + [Index(i)]), maxDiffs);
      }
    }

    /** The three key loops, each behind its own guard. */
    method WalkFields(a: Json, b: Json, path: seq<Step>)
      requires a.Obj? && b.Obj?
      modifies this
      ensures diffs == Capped(old(diffs),
                              LackedByWorker(render, a.fields, b.fields, path)
                              + LackedByBaseline(render, a.fields, b.fields, path)
                              + CommonDiffs(render, a, b, path, |a.fields|), maxDiffs)
      decreases a, 1
    {
      ghost var before := diffs;
      ghost var lacked := LackedByWorker(render, a.fields, b.fields, path);
      ghost var extra := LackedByBaseline(render, a.fields, b.fields, path);
      ghost var common := CommonDiffs(render, a, b, path, |a.fields|);
      WalkMissingInWorker(a.fields, b.fields, path);
      WalkMissingInBaseline(a.fields, b.fields, path);
      CappedTwice(before, lacked, extra, maxDiffs);
      WalkCommon(a, b, path);
      CappedTwice(before, lacked + extra, common, maxDiffs);
    }

    method WalkMissingInWorker(xs: seq<Field>, ys: seq<Field>, path: seq<Step>)
      modifies this
      ensures diffs == Capped(old(diffs), LackedByWorker(render, xs, ys, path), maxDiffs)
    {
      ghost var before := diffs;
      CappedFull(before, [], maxDiffs);
      for i := 0 to |xs|
        invariant diffs == Capped(before, LackedByWorker(render, xs[..i], ys, path), maxDiffs)
      {
        var f := xs[i];
        var diff := PayloadDiff(FormatPath(path + [Key(f.key)]), MissingInWorker, render(f.value), "∅");
        ghost var soFar := LackedByWorker(render, xs[..i], ys, path);
        if |diffs| >= maxDiffs {
          FullFromHere(before, soFar, LackedByWorker(render, xs, ys, path));
          LackedByWorkerPrefix(render, xs, ys, path, i);
          return;
        }
        assert xs[..i + 1][..i] == xs[..i];
        if !HasKey(ys, f.key) {
          CappedTwice(before, soFar, [diff], maxDiffs);
          CappedFull(diffs, [diff], maxDiffs);
          Push(diff);
        }
      }
      assert xs[..|xs|] == xs;
    }

    method WalkMissingInBaseline(xs: seq<Field>, ys: seq<Field>, path: seq<Step>)
      modifies this
      ensures diffs == Capped(old(diffs), LackedByBaseline(render, xs, ys, path), maxDiffs)
    {
      ghost var before := diffs;
      CappedFull(before, [], maxDiffs);
      for i := 0 to |ys|
        invariant diffs == Capped(before, LackedByBaseline(render, xs, ys[..i], path), maxDiffs)
      {
        var f := ys[i];
        var diff := PayloadDiff(FormatPath(path + [Key(f.key)]), MissingInBaseline, "∅", render(f.value));
        ghost var soFar := LackedByBaseline(render, xs, ys[..i], path);
        if |diffs| >= maxDiffs {
          FullFromHere(before, soFar, LackedByBaseline(render, xs, ys, path));
          LackedByBaselinePrefix(render, xs, ys, path, i);
          return;
        }
        assert ys[..i + 1][..i] == ys[..i];
        if !HasKey(xs, f.key) {
          CappedTwice(before, soFar, [diff], maxDiffs);
          CappedFull(diffs, [diff], maxDiffs);
          Push(diff);
        }
      }
      assert ys[..|ys|] == ys;
    }

    method WalkCommon(a: Json, b: Json, path: seq<Step>)
      requires a.Obj? && b.Obj?
      modifies this
      ensures diffs == Capped(old(diffs), CommonDiffs(render, a, b, path, |a.fields|), maxDiffs)
      decreases a, 0
    {
      hide FullDiff;
      ghost var before := diffs;
      CappedFull(before, [], maxDiffs);
      for i := 0 to |a.fields|
        invariant diffs == Capped(before, CommonDiffs(render, a, b, path, i), maxDiffs)
      {
        var f := a.fields[i];
        ghost var soFar := CommonDiffs(render, a, b, path, i);
        if |diffs| >= maxDiffs {
          FullFromHere(before, soFar, CommonDiffs(render, a, b, path, |a.fields|));
          CommonDiffsPrefix(render, a, b, path, i, |a.fields|);
          return;
        }
        if HasKey(b.fields, f.key) {
          Walk(f.value, Get(b.fields, f.key), path + [Key(f.key)]);
          CappedTwice(before, soFar, FullDiff(render, f.value, Get(b.fields, f.key), path + [Key(f.key)]), maxDiffs);
        } else {
          assert soFar + [] == soFar;
        }
      }
    }

    /** A full list stays as it is, whatever longer list it is filled from. */
    lemma FullFromHere(before: seq<PayloadDiff>, soFar: seq<PayloadDiff>, all: seq<PayloadDiff>)
      requires |Capped(before, soFar, maxDiffs)| >= maxDiffs
      ensures soFar <= all ==> Capped(before, soFar, maxDiffs) == Capped(before, all, maxDiffs)
    {
      if soFar <= all {
        CappedTwice(before, soFar, all[|soFar|..], maxDiffs);
        CappedFull(Capped(before, soFar, maxDiffs), all[|soFar|..], maxDiffs);
        assert soFar + all[|soFar|..] == all;
      }
    }
  }

  lemma {:induction false} LackedByWorkerPrefix(render: Render, xs: seq<Field>, ys: seq<Field>, path: seq<Step>, i: nat)
    requires i <= |xs|
    ensures LackedByWorker(render, xs[..i], ys, path) <= LackedByWorker(render, xs, ys, path)
  {
    if i == |xs| {
      assert xs[..i] == xs;
    } else {
      LackedByWorkerPrefix(render, xs[..|xs| - 1], ys, path, i);
      assert xs[..|xs| - 1][..i] == xs[..i];
    }
  }

  lemma {:induction false} LackedByBaselinePrefix(
      render: Render, xs: seq<Field>, ys: seq<Field>, path: seq<Step>, i: nat)
    requires i <= |ys|
    ensures LackedByBaseline(render, xs, ys[..i], path) <= LackedByBaseline(render, xs, ys, path)
  {
    if i == |ys| {
      assert ys[..i] == ys;
    } else {
      LackedByBaselinePrefix(render, xs, ys[..|ys| - 1], path, i);
      assert ys[..|ys| - 1][..i] == ys[..i];
    }
  }

  lemma {:induction false} CommonDiffsPrefix(render: Render, a: Json, b: Json, path: seq<Step>, i: nat, n: nat)
    requires a.Obj? && b.Obj? && i <= n <= |a.fields|
    ensures CommonDiffs(render, a, b, path, i) <= CommonDiffs(render, a, b, path, n)
  {
    if i < n {
      CommonDiffsPrefix(render, a, b, path, i, n - 1);
    }
  }

  /** `diffNormalized`: with cap n, exactly the first n entries of the full difference. */
  method DiffNormalized(render: Render, baseline: Json, worker: Json, maxDiffs: nat) returns (diffs: seq<PayloadDiff>)
    ensures var full := FullDiff(render, baseline, worker, []);
            diffs == if |full| <= maxDiffs then full else full[..maxDiffs]
    ensures maxDiffs >= 1 ==> (diffs == [] <==> Same(baseline, worker))
  {
    var walk := new DiffWalk(render, maxDiffs);
    walk.Walk(baseline, worker, []);
    diffs := walk.diffs;
    EmptyIffSame(render, baseline, worker, []);
  }

  // ---- empty iff equal -------------------------------------------------------------

  lemma {:induction false} NothingLacked(render: Render, xs: seq<Field>, ys: seq<Field>, path: seq<Step>)
    ensures LackedByWorker(render, xs, ys, path) == [] <==> forall i :: 0 <= i < |xs| ==> HasKey(ys, xs[i].key)
  {
    if xs != [] {
      NothingLacked(render, xs[..|xs| - 1], ys, path);
      assert forall i :: 0 <= i < |xs| - 1 ==> xs[..|xs| - 1][i] == xs[i];
    }
  }

  lemma {:induction false} NothingExtra(render: Render, xs: seq<Field>, ys: seq<Field>, path: seq<Step>)
    ensures LackedByBaseline(render, xs, ys, path) == [] <==> forall i :: 0 <= i < |ys| ==> HasKey(xs, ys[i].key)
  {
    if ys != [] {
      NothingExtra(render, xs, ys[..|ys| - 1], path);
      assert forall i :: 0 <= i < |ys| - 1 ==> ys[..|ys| - 1][i] == ys[i];
    }
  }

  lemma {:induction false} EmptyItems(render: Render, a: Json, b: Json, path: seq<Step>, n: nat)
    requires a.Arr? && b.Arr? && |a.items| == |b.items| && n <= |a.items|
    ensures ItemDiffs(render, a, b, path, n) == [] <==> forall i :: 0 <= i < n ==> Same(a.items[i], b.items[i])
    decreases a, 0, n
  {
    hide FullDiff, Same, FormatPath;
    if n > 0 {
      EmptyItems(render, a, b, path, n - 1);
      EmptyIffSame(render, a.items[n - 1], b.items[n - 1], path + [Index(n - 1)]);
    }
  }

  lemma {:induction false} EmptyCommon(render: Render, a: Json, b: Json, path: seq<Step>, n: nat)
    requires a.Obj? && b.Obj? && n <= |a.fields|
    ensures CommonDiffs(render, a, b, path, n) == []
       <==> forall i :: 0 <= i < n && HasKey(b.fields, a.fields[i].key)
                    ==> Same(a.fields[i].value, Get(b.fields, a.fields[i].key))
    decreases a, 0, n
  {
    hide FullDiff, Same, FormatPath, Get, HasKey;
    if n > 0 {
      EmptyCommon(render, a, b, path, n - 1);
      var f := a.fields[n - 1];
      if HasKey(b.fields, f.key) {
        EmptyIffSame(render, f.value, Get(b.fields, f.key), path + [Key(f.key)]);
      }
    }
  }

  lemma EmptyObjects(render: Render, a: Json, b: Json, path: seq<Step>)
    requires a.Obj? && b.Obj?
    requires CommonDiffs(render, a, b, path, |a.fields|) == []
        <==> forall i :: 0 <= i < |a.fields| && HasKey(b.fields, a.fields[i].key)
                    ==> Same(a.fields[i].value, Get(b.fields, a.fields[i].key))
    ensures FullDiff(render, a, b, path) == [] <==> Same(a, b)
  {
    hide Get, HasKey, CommonDiffs, LackedByWorker, LackedByBaseline, FormatPath;
    NothingLacked(render, a.fields, b.fields, path);
    NothingExtra(render, a.fields, b.fields, path);
  }

  /** The full difference is empty exactly when the payloads are structurally equal. */
  lemma {:induction false} EmptyIffSame(render: Render, a: Json, b: Json, path: seq<Step>)
    ensures FullDiff(render, a, b, path) == [] <==> Same(a, b)
    decreases a, 1, 0
  {
    hide FormatPath, Get, HasKey;
    if a.Arr? && b.Arr? && |a.items| == |b.items| {
      EmptyItems(render, a, b, path, |a.items|);
    } else if a.Obj? && b.Obj? {
      EmptyCommon(render, a, b, path, |a.fields|);
      EmptyObjects(render, a, b, path);
    }
  }
}
