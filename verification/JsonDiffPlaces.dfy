/** What the entries of `diffNormalized` say: the places where the payloads part, each listed once. */
module JsonDiffPlaces {
  import opened Wrappers
  import opened Chunking
  import opened Json
  import opened JsonDiff
  import opened JsonPaths

  /** How two payloads part at a path: a key one side lacks, two types, two lengths or two values. */
  datatype Parting = Lacking | Extra | Types | Lengths | Values

  datatype Divergence = Divergence(path: seq<Step>, parting: Parting)

  /** Both are objects, or arrays of one length: the comparison goes on below. */
  predicate GoesOn(a: Json, b: Json)
  {
    (a.Obj? && b.Obj?) || (a.Arr? && b.Arr? && |a.items| == |b.items|)
  }

  predicate PartsHere(a: Json, b: Json, parting: Parting)
  {
    match parting
    case Types => a.Arr? != b.Arr? || a.Obj? != b.Obj?
    case Lengths => a.Arr? && b.Arr? && |a.items| != |b.items|
    case Values => !a.Arr? && !b.Arr? && !a.Obj? && !b.Obj? && a != b
    case _ => false
  }

  /** The payloads can be followed along the path up to where they part in this way. */
  predicate Parts(a: Json, b: Json, path: seq<Step>, parting: Parting)
    decreases path
  {
    if path == [] then PartsHere(a, b, parting)
    else
      var x, y := At(a, path[..1]), At(b, path[..1]);
      GoesOn(a, b)
      && (if x.Some? && y.Some? then Parts(x.value, y.value, path[1..], parting)
          else |path| == 1 && ((parting == Lacking && x.Some? && y.None?) || (parting == Extra && x.None? && y.Some?)))
  }

  /** What stands at the path: its text, or the sign of a missing value. */
  function Shown(render: Render, value: Option<Json>): (s: string)
  {
    if value.Some? then render(value.value) else "∅"
  }

  predicate ShowsLength(value: Option<Json>, text: string)
  {
    value.Some? && value.value.Arr? && ReadNat(text) == Some(|value.value.items|)
  }

  /** The entry tells of that place below `base`: its kind, its path, and what either side has there. */
  predicate Tells(render: Render, base: seq<Step>, a: Json, b: Json, e: PayloadDiff, place: Divergence)
  {
    var x, y := At(a, place.path), At(b, place.path);
    match place.parting
    case Lengths =>
      && e.kind == ValueMismatch && e.path == FormatPath(base + place.path) + ".length"
      && ShowsLength(x, e.baseline) && ShowsLength(y, e.worker)
    case _ =>
      && e.path == FormatPath(base + place.path) && e.baseline == Shown(render, x) && e.worker == Shown(render, y)
      && (match place.parting
          case Lacking => e.kind == MissingInWorker
          case Extra => e.kind == MissingInBaseline
          case Types => e.kind == TypeMismatch
          case _ => e.kind == ValueMismatch)
  }

  // ---- the places in the order of the walk -----------------------------------------

  function Prefixed(step: Step, places: seq<Divergence>): (below: seq<Divergence>)
  {
    seq(|places|, i requires 0 <= i < |places| => Divergence([step] + places[i].path, places[i].parting))
  }

  function Places(a: Json, b: Json): (places: seq<Divergence>)
    decreases a, 1, 0
  {
    if a.Arr? && b.Arr? && |a.items| == |b.items| then ItemPlaces(a, b, |a.items|)
    else if a.Obj? && b.Obj? then
      LackingPlaces(a.fields, b.fields) + ExtraPlaces(a.fields, b.fields) + CommonPlaces(a, b, |a.fields|)
    else if a.Arr? && b.Arr? then [Divergence([], Lengths)]
    else if a.Arr? || b.Arr? || a.Obj? || b.Obj? then [Divergence([], Types)]
    else if a != b then [Divergence([], Values)]
    else []
  }

  function ItemPlaces(a: Json, b: Json, n: nat): (places: seq<Divergence>)
    requires a.Arr? && b.Arr? && |a.items| == |b.items| && n <= |a.items|
    decreases a, 0, n
  {
    if n == 0 then []
    else ItemPlaces(a, b, n - 1) + Prefixed(Index(n - 1), Places(a.items[n - 1], b.items[n - 1]))
  }

  function LackingPlaces(xs: seq<Field>, ys: seq<Field>): (places: seq<Divergence>)
  {
    if xs == [] then []
    else
      var key := xs[|xs| - 1].key;
      LackingPlaces(xs[..|xs| - 1], ys) + if HasKey(ys, key) then [] else [Divergence([Key(key)], Lacking)]
  }

  function ExtraPlaces(xs: seq<Field>, ys: seq<Field>): (places: seq<Divergence>)
  {
    if ys == [] then []
    else
      var key := ys[|ys| - 1].key;
      ExtraPlaces(xs, ys[..|ys| - 1]) + if HasKey(xs, key) then [] else [Divergence([Key(key)], Extra)]
  }

  function CommonPlaces(a: Json, b: Json, n: nat): (places: seq<Divergence>)
    requires a.Obj? && b.Obj? && n <= |a.fields|
    decreases a, 0, n
  {
    if n == 0 then []
    else
      var f := a.fields[n - 1];
      CommonPlaces(a, b, n - 1)
      + if HasKey(b.fields, f.key) then Prefixed(Key(f.key), Places(f.value, Get(b.fields, f.key))) else []
  }

  // ---- each entry tells of its place -----------------------------------------------

  predicate AllTell(render: Render, base: seq<Step>, a: Json, b: Json, diffs: seq<PayloadDiff>, places: seq<Divergence>)
  {
    |diffs| == |places| && forall i :: 0 <= i < |diffs| ==> Tells(render, base, a, b, diffs[i], places[i])
  }

  lemma AllTellBoth(render: Render, base: seq<Step>, a: Json, b: Json,
                    d: seq<PayloadDiff>, p: seq<Divergence>, e: seq<PayloadDiff>, q: seq<Divergence>)
    requires AllTell(render, base, a, b, d, p) && AllTell(render, base, a, b, e, q)
    ensures AllTell(render, base, a, b, d + e, p + q)
  {
    hide Tells;
  }

  lemma AllTellNothing(render: Render, base: seq<Step>, a: Json, b: Json)
    ensures AllTell(render, base, a, b, [], [])
  {
  }

  lemma AtBelow(j: Json, step: Step, x: Json, path: seq<Step>)
    requires At(j, [step]) == Some(x)
    ensures At(j, [step] + path) == At(x, path)
  {
    assert ([step] + path)[1..] == path;
    assert [step][1..] == [];
  }

  lemma TellsBelow(render: Render, base: seq<Step>, a: Json, b: Json, step: Step, x: Json, y: Json,
                   diffs: seq<PayloadDiff>, places: seq<Divergence>)
    requires At(a, [step]) == Some(x) && At(b, [step]) == Some(y)
    requires AllTell(render, base + [step], x, y, diffs, places)
    ensures AllTell(render, base, a, b, diffs, Prefixed(step, places))
  {
    hide At, FormatPath;
    forall i | 0 <= i < |diffs|
      ensures Tells(render, base, a, b, diffs[i], Prefixed(step, places)[i])
    {
      AtBelow(a, step, x, places[i].path);
      AtBelow(b, step, y, places[i].path);
      assert Tells(render, base + [step], x, y, diffs[i], places[i]);
      assert base + [step] + places[i].path == base + ([step] + places[i].path);
    }
  }

  lemma ItemAt(a: Json, i: nat)
    requires a.Arr? && i < |a.items|
    ensures At(a, [Index(i)]) == Some(a.items[i])
  {
    assert [Index(i)][1..] == [];
  }

  lemma FieldAt(a: Json, key: string)
    requires a.Obj?
    ensures At(a, [Key(key)]) == if HasKey(a.fields, key) then Some(Get(a.fields, key)) else None
  {
    assert [Key(key)][1..] == [];
  }

  lemma {:induction false} ItemsTell(render: Render, base: seq<Step>, a: Json, b: Json, n: nat)
    requires a.Arr? && b.Arr? && |a.items| == |b.items| && n <= |a.items| && WellFormed(a) && WellFormed(b)
    ensures AllTell(render, base, a, b, ItemDiffs(render, a, b, base, n), ItemPlaces(a, b, n))
    decreases a, 0, n
  {
    hide FullDiff, Places, AllTell;
    if n == 0 {
      AllTellNothing(render, base, a, b);
    } else {
      var x, y, step := a.items[n - 1], b.items[n - 1], Index(n - 1);
      ItemsTell(render, base, a, b, n - 1);
      DiffsTell(render, base + [step], x, y);
      ItemAt(a, n - 1);
      ItemAt(b, n - 1);
      TellsBelow(render, base, a, b, step, x, y, FullDiff(render, x, y, base + [step]), Places(x, y));
      AllTellBoth(render, base, a, b, ItemDiffs(render, a, b, base, n - 1), ItemPlaces(a, b, n - 1),
                  FullDiff(render, x, y, base + [step]), Prefixed(step, Places(x, y)));
    }
  }

  lemma {:induction false} CommonTell(render: Render, base: seq<Step>, a: Json, b: Json, n: nat)
    requires a.Obj? && b.Obj? && n <= |a.fields| && WellFormed(a) && WellFormed(b)
    ensures AllTell(render, base, a, b, CommonDiffs(render, a, b, base, n), CommonPlaces(a, b, n))
    decreases a, 0, n
  {
    hide FullDiff, Places, AllTell, HasKey, Get;
    if n == 0 {
      AllTellNothing(render, base, a, b);
    } else {
      var f := a.fields[n - 1];
      CommonTell(render, base, a, b, n - 1);
      if HasKey(b.fields, f.key) {
        var x, y, step := f.value, Get(b.fields, f.key), Key(f.key);
        GetOf(a.fields, n - 1);
        GetWellFormedIn(b, f.key);
        DiffsTell(render, base + [step], x, y);
        FieldAt(a, f.key);
        FieldAt(b, f.key);
        TellsBelow(render, base, a, b, step, x, y, FullDiff(render, x, y, base + [step]), Places(x, y));
        AllTellBoth(render, base, a, b, CommonDiffs(render, a, b, base, n - 1), CommonPlaces(a, b, n - 1),
                    FullDiff(render, x, y, base + [step]), Prefixed(step, Places(x, y)));
      } else {
        AllTellNothing(render, base, a, b);
        AllTellBoth(render, base, a, b, CommonDiffs(render, a, b, base, n - 1), CommonPlaces(a, b, n - 1), [], []);
      }
    }
  }

  lemma GetWellFormedIn(j: Json, key: string)
    requires j.Obj? && WellFormed(j) && HasKey(j.fields, key)
    ensures WellFormed(Get(j.fields, key))
  {
    var i := Place(j.fields, key);
  }

  lemma {:induction false} LackingTell(render: Render, base: seq<Step>, a: Json, b: Json, xs: seq<Field>)
    requires a.Obj? && b.Obj? && DistinctKeys(a.fields) && forall f :: f in xs ==> f in a.fields
    ensures AllTell(render, base, a, b, LackedByWorker(render, xs, b.fields, base), LackingPlaces(xs, b.fields))
  {
    hide At, Get, HasKey, DistinctKeys;
    if xs != [] {
      var f := xs[|xs| - 1];
      LackingTell(render, base, a, b, xs[..|xs| - 1]);
      assert f in a.fields;
      var i :| 0 <= i < |a.fields| && a.fields[i] == f;
      GetOf(a.fields, i);
      FieldAt(a, f.key);
      FieldAt(b, f.key);
    }
  }

  lemma {:induction false} ExtraTell(render: Render, base: seq<Step>, a: Json, b: Json, ys: seq<Field>)
    requires a.Obj? && b.Obj? && DistinctKeys(b.fields) && forall f :: f in ys ==> f in b.fields
    ensures AllTell(render, base, a, b, LackedByBaseline(render, a.fields, ys, base), ExtraPlaces(a.fields, ys))
  {
    hide At, Get, HasKey, DistinctKeys;
    if ys != [] {
      var f := ys[|ys| - 1];
      ExtraTell(render, base, a, b, ys[..|ys| - 1]);
      assert f in b.fields;
      var i :| 0 <= i < |b.fields| && b.fields[i] == f;
      GetOf(b.fields, i);
      FieldAt(a, f.key);
      FieldAt(b, f.key);
    }
  }

  /** The full difference and the places go together, entry by entry. */
  lemma {:induction false} DiffsTell(render: Render, base: seq<Step>, a: Json, b: Json)
    requires WellFormed(a) && WellFormed(b)
    ensures AllTell(render, base, a, b, FullDiff(render, a, b, base), Places(a, b))
    decreases a, 1, 0
  {
    if a.Arr? && b.Arr? && |a.items| == |b.items| {
      ItemsTell(render, base, a, b, |a.items|);
    } else if a.Obj? && b.Obj? {
      CommonTell(render, base, a, b, |a.fields|);
      ObjectTells(render, base, a, b);
    } else {
      PartsHereTell(render, base, a, b);
    }
  }

  lemma PartsHereTell(render: Render, base: seq<Step>, a: Json, b: Json)
    requires !GoesOn(a, b)
    ensures AllTell(render, base, a, b, FullDiff(render, a, b, base), Places(a, b))
  {
    hide FormatPath, NatText, ReadNat;
    assert base + [] == base;
    if a.Arr? && b.Arr? {
      ReadNatText(|a.items|);
      ReadNatText(|b.items|);
    }
  }

  lemma ObjectTells(render: Render, base: seq<Step>, a: Json, b: Json)
    requires a.Obj? && b.Obj? && WellFormed(a) && WellFormed(b)
    requires AllTell(render, base, a, b, CommonDiffs(render, a, b, base, |a.fields|), CommonPlaces(a, b, |a.fields|))
    ensures AllTell(render, base, a, b, FullDiff(render, a, b, base), Places(a, b))
  {
    hide AllTell, CommonDiffs, CommonPlaces, LackedByWorker, LackedByBaseline, LackingPlaces, ExtraPlaces;
    LackingTell(render, base, a, b, a.fields);
    ExtraTell(render, base, a, b, b.fields);
    var lacked := LackedByWorker(render, a.fields, b.fields, base);
    var extra := LackedByBaseline(render, a.fields, b.fields, base);
    var lacking, surplus := LackingPlaces(a.fields, b.fields), ExtraPlaces(a.fields, b.fields);
    AllTellBoth(render, base, a, b, lacked, lacking, extra, surplus);
    AllTellBoth(render, base, a, b, lacked + extra, lacking + surplus,
                CommonDiffs(render, a, b, base, |a.fields|), CommonPlaces(a, b, |a.fields|));
  }

  // ---- the places are exactly where the payloads part ------------------------------

  lemma InPrefixed(step: Step, places: seq<Divergence>, d: Divergence)
    ensures d in Prefixed(step, places)
       <==> d.path != [] && d.path[0] == step && Divergence(d.path[1..], d.parting) in places
  {
    var below := Prefixed(step, places);
    if d in below {
      var i :| 0 <= i < |below| && below[i] == d;
      assert ([step] + places[i].path)[1..] == places[i].path;
    }
    if d.path != [] && d.path[0] == step && Divergence(d.path[1..], d.parting) in places {
      var i :| 0 <= i < |places| && places[i] == Divergence(d.path[1..], d.parting);
      assert [step] + d.path[1..] == d.path;
      assert below[i] == d;
    }
  }

  /** At or below the array member `i`. */
  predicate PartsInItem(a: Json, b: Json, i: nat, d: Divergence)
    requires a.Arr? && b.Arr? && |a.items| == |b.items|
  {
    && i < |a.items| && d.path != [] && d.path[0] == Index(i)
    && Parts(a.items[i], b.items[i], d.path[1..], d.parting)
  }

  lemma {:induction false} ItemsMember(a: Json, b: Json, n: nat, d: Divergence)
    requires a.Arr? && b.Arr? && |a.items| == |b.items| && n <= |a.items| && WellFormed(a) && WellFormed(b)
    ensures d in ItemPlaces(a, b, n) <==> exists i: nat :: i < n && PartsInItem(a, b, i, d)
    decreases a, 0, n
  {
    hide Places, Parts, Prefixed;
    if n > 0 {
      ItemsMember(a, b, n - 1, d);
      InPrefixed(Index(n - 1), Places(a.items[n - 1], b.items[n - 1]), d);
      if d.path != [] {
        PlacesExactly(a.items[n - 1], b.items[n - 1], Divergence(d.path[1..], d.parting));
      }
      var below := Prefixed(Index(n - 1), Places(a.items[n - 1], b.items[n - 1]));
      assert d in below <==> PartsInItem(a, b, n - 1, d);
      assert d in ItemPlaces(a, b, n) <==> d in ItemPlaces(a, b, n - 1) || d in below;
      hide PartsInItem, ItemPlaces;
    }
  }

  /** At or below the key of a's field `i`. */
  predicate PartsInField(a: Json, b: Json, i: nat, d: Divergence)
    requires a.Obj? && b.Obj?
  {
    && i < |a.fields| && d.path != [] && d.path[0] == Key(a.fields[i].key) && HasKey(b.fields, a.fields[i].key)
    && Parts(a.fields[i].value, Get(b.fields, a.fields[i].key), d.path[1..], d.parting)
  }

  lemma {:induction false} CommonMember(a: Json, b: Json, n: nat, d: Divergence)
    requires a.Obj? && b.Obj? && n <= |a.fields| && WellFormed(a) && WellFormed(b)
    ensures d in CommonPlaces(a, b, n) <==> exists i: nat :: i < n && PartsInField(a, b, i, d)
    decreases a, 0, n
  {
    hide Places, Parts, Prefixed, HasKey, Get;
    if n > 0 {
      var f := a.fields[n - 1];
      CommonMember(a, b, n - 1, d);
      if HasKey(b.fields, f.key) {
        GetWellFormedIn(b, f.key);
        InPrefixed(Key(f.key), Places(f.value, Get(b.fields, f.key)), d);
        if d.path != [] {
          PlacesExactly(f.value, Get(b.fields, f.key), Divergence(d.path[1..], d.parting));
        }
        var below := Prefixed(Key(f.key), Places(f.value, Get(b.fields, f.key)));
        assert d in below <==> PartsInField(a, b, n - 1, d);
        assert d in CommonPlaces(a, b, n) <==> d in CommonPlaces(a, b, n - 1) || d in below;
        hide PartsInField, CommonPlaces;
      }
    }
  }

  lemma {:induction false} LackingMember(xs: seq<Field>, ys: seq<Field>, d: Divergence)
    ensures d in LackingPlaces(xs, ys)
       <==> |d.path| == 1 && d.parting == Lacking && d.path[0].Key?
            && HasKey(xs, d.path[0].key) && !HasKey(ys, d.path[0].key)
  {
    if xs != [] {
      var last := |xs| - 1;
      LackingMember(xs[..last], ys, d);
      HasKeyLast(xs, if |d.path| == 1 && d.path[0].Key? then d.path[0].key else "");
      var here := Divergence([Key(xs[last].key)], Lacking);
      assert d == here <==> |d.path| == 1 && d.parting == Lacking && d.path[0] == Key(xs[last].key);
      assert d in LackingPlaces(xs, ys)
        <==> d in LackingPlaces(xs[..last], ys) || (d == here && !HasKey(ys, xs[last].key));
      hide HasKey, LackingPlaces;
    }
  }

  lemma {:induction false} ExtraMember(xs: seq<Field>, ys: seq<Field>, d: Divergence)
    ensures d in ExtraPlaces(xs, ys)
       <==> |d.path| == 1 && d.parting == Extra && d.path[0].Key?
            && !HasKey(xs, d.path[0].key) && HasKey(ys, d.path[0].key)
  {
    if ys != [] {
      var last := |ys| - 1;
      ExtraMember(xs, ys[..last], d);
      HasKeyLast(ys, if |d.path| == 1 && d.path[0].Key? then d.path[0].key else "");
      var here := Divergence([Key(ys[last].key)], Extra);
      assert d == here <==> |d.path| == 1 && d.parting == Extra && d.path[0] == Key(ys[last].key);
      assert d in ExtraPlaces(xs, ys) <==> d in ExtraPlaces(xs, ys[..last]) || (d == here && !HasKey(xs, ys[last].key));
      hide HasKey, ExtraPlaces;
    }
  }

  lemma HasKeyLast(fields: seq<Field>, key: string)
    requires fields != []
    ensures HasKey(fields, key) <==> HasKey(fields[..|fields| - 1], key) || fields[|fields| - 1].key == key
  {
    var front := fields[..|fields| - 1];
    assert forall i :: 0 <= i < |front| ==> front[i] == fields[i];
    assert fields[|fields| - 1].key == fields[|fields| - 1].key;
  }

  /** A divergence is among the places exactly when the payloads part there in that way. */
  lemma {:induction false} PlacesExactly(a: Json, b: Json, d: Divergence)
    requires WellFormed(a) && WellFormed(b)
    ensures d in Places(a, b) <==> Parts(a, b, d.path, d.parting)
    decreases a, 1, 0
  {
    if a.Arr? && b.Arr? && |a.items| == |b.items| {
      ItemsMember(a, b, |a.items|, d);
      PartsOfArrays(a, b, d);
    } else if a.Obj? && b.Obj? {
      CommonMember(a, b, |a.fields|, d);
      LackingMember(a.fields, b.fields, d);
      ExtraMember(a.fields, b.fields, d);
      PartsOfObjects(a, b, d);
      hide LackingPlaces, ExtraPlaces, CommonPlaces, Parts, PartsInField, HasKey;
    }
  }

  lemma PartsOfArrays(a: Json, b: Json, d: Divergence)
    requires a.Arr? && b.Arr? && |a.items| == |b.items|
    ensures Parts(a, b, d.path, d.parting) <==> exists i: nat :: i < |a.items| && PartsInItem(a, b, i, d)
  {
    if d.path != [] && d.path[0].Index? {
      var i := d.path[0].index;
      assert d.path[..1] == [Index(i)];
      if i < |a.items| {
        ItemAt(a, i);
        ItemAt(b, i);
        assert Parts(a, b, d.path, d.parting) ==> PartsInItem(a, b, i, d);
      }
    }
  }

  lemma PartsOfObjects(a: Json, b: Json, d: Divergence)
    requires a.Obj? && b.Obj? && DistinctKeys(a.fields)
    ensures Parts(a, b, d.path, d.parting)
       <==> || (|d.path| == 1 && d.path[0].Key?
                && var key := d.path[0].key;
                   || (d.parting == Lacking && HasKey(a.fields, key) && !HasKey(b.fields, key))
                   || (d.parting == Extra && !HasKey(a.fields, key) && HasKey(b.fields, key)))
            || (exists i: nat :: i < |a.fields| && PartsInField(a, b, i, d))
  {
    hide HasKey, Get, DistinctKeys;
    if d.path != [] && d.path[0].Key? {
      var key := d.path[0].key;
      assert d.path[..1] == [Key(key)];
      FieldAt(a, key);
      FieldAt(b, key);
      forall i | 0 <= i < |a.fields| && a.fields[i].key == key
        ensures HasKey(a.fields, key) && Get(a.fields, key) == a.fields[i].value
      {
        GetOf(a.fields, i);
      }
      if HasKey(a.fields, key) {
        var i := Place(a.fields, key);
        assert Parts(a, b, d.path, d.parting) && HasKey(b.fields, key) ==> PartsInField(a, b, i, d);
      }
    } else if d.path != [] {
      IndexIntoObject(a, d.path[0]);
      IndexIntoObject(b, d.path[0]);
      assert d.path[..1] == [d.path[0]];
    }
  }

  lemma IndexIntoObject(a: Json, step: Step)
    requires a.Obj? && step.Index?
    ensures At(a, [step]) == None
  {
  }

  // ---- each of them once -----------------------------------------------------------

  lemma PrefixedOnce(step: Step, places: seq<Divergence>)
    requires NoRepeat(places)
    ensures NoRepeat(Prefixed(step, places))
  {
    forall i, j | 0 <= i < j < |places|
      ensures Prefixed(step, places)[i] != Prefixed(step, places)[j]
    {
      assert ([step] + places[i].path)[1..] == places[i].path && ([step] + places[j].path)[1..] == places[j].path;
      assert places[i] != places[j];
    }
  }

  lemma {:induction false} ItemsOnce(a: Json, b: Json, n: nat)
    requires a.Arr? && b.Arr? && |a.items| == |b.items| && n <= |a.items| && WellFormed(a) && WellFormed(b)
    ensures NoRepeat(ItemPlaces(a, b, n))
    decreases a, 0, n
  {
    hide Places, Parts, Prefixed, NoRepeat;
    if n == 0 {
      NothingRepeats<Divergence>();
    } else {
      var below := Prefixed(Index(n - 1), Places(a.items[n - 1], b.items[n - 1]));
      ItemsOnce(a, b, n - 1);
      PlacesOnce(a.items[n - 1], b.items[n - 1]);
      PrefixedOnce(Index(n - 1), Places(a.items[n - 1], b.items[n - 1]));
      forall d | d in ItemPlaces(a, b, n - 1)
        ensures d !in below
      {
        ItemsMember(a, b, n - 1, d);
        InPrefixed(Index(n - 1), Places(a.items[n - 1], b.items[n - 1]), d);
      }
      BothOnce(ItemPlaces(a, b, n - 1), below);
    }
  }

  lemma {:induction false} CommonOnce(a: Json, b: Json, n: nat)
    requires a.Obj? && b.Obj? && n <= |a.fields| && WellFormed(a) && WellFormed(b)
    ensures NoRepeat(CommonPlaces(a, b, n))
    decreases a, 0, n
  {
    hide Places, Parts, Prefixed, NoRepeat, HasKey, Get;
    NothingRepeats<Divergence>();
    if n > 0 {
      var f := a.fields[n - 1];
      CommonOnce(a, b, n - 1);
      if HasKey(b.fields, f.key) {
        var inner := Places(f.value, Get(b.fields, f.key));
        GetWellFormedIn(b, f.key);
        PlacesOnce(f.value, Get(b.fields, f.key));
        PrefixedOnce(Key(f.key), inner);
        forall d | d in CommonPlaces(a, b, n - 1)
          ensures d !in Prefixed(Key(f.key), inner)
        {
          CommonMember(a, b, n - 1, d);
          InPrefixed(Key(f.key), inner, d);
        }
        BothOnce(CommonPlaces(a, b, n - 1), Prefixed(Key(f.key), inner));
      } else {
        assert CommonPlaces(a, b, n - 1) + [] == CommonPlaces(a, b, n - 1);
      }
    }
  }

  lemma {:induction false} LackingOnce(xs: seq<Field>, ys: seq<Field>)
    requires DistinctKeys(xs)
    ensures NoRepeat(LackingPlaces(xs, ys))
  {
    if xs != [] {
      var front, key := xs[..|xs| - 1], xs[|xs| - 1].key;
      LackingOnce(front, ys);
      LackingMember(front, ys, Divergence([Key(key)], Lacking));
    }
  }

  lemma {:induction false} ExtraOnce(xs: seq<Field>, ys: seq<Field>)
    requires DistinctKeys(ys)
    ensures NoRepeat(ExtraPlaces(xs, ys))
  {
    if ys != [] {
      var front, key := ys[..|ys| - 1], ys[|ys| - 1].key;
      ExtraOnce(xs, front);
      ExtraMember(xs, front, Divergence([Key(key)], Extra));
    }
  }

  lemma {:induction false} PlacesOnce(a: Json, b: Json)
    requires WellFormed(a) && WellFormed(b)
    ensures NoRepeat(Places(a, b))
    decreases a, 1, 0
  {
    if a.Arr? && b.Arr? && |a.items| == |b.items| {
      ItemsOnce(a, b, |a.items|);
    } else if a.Obj? && b.Obj? {
      CommonOnce(a, b, |a.fields|);
      ObjectOnce(a, b);
    }
  }

  lemma ObjectOnce(a: Json, b: Json)
    requires a.Obj? && b.Obj? && WellFormed(a) && WellFormed(b) && NoRepeat(CommonPlaces(a, b, |a.fields|))
    ensures NoRepeat(Places(a, b))
  {
    var lacking, extra := LackingPlaces(a.fields, b.fields), ExtraPlaces(a.fields, b.fields);
    var common := CommonPlaces(a, b, |a.fields|);
    LackingOnce(a.fields, b.fields);
    ExtraOnce(a.fields, b.fields);
    hide LackingPlaces, ExtraPlaces, CommonPlaces, NoRepeat, Parts;
    forall d: Divergence
      ensures d in lacking ==> d !in extra
      ensures d in lacking + extra ==> d !in common
    {
      LackingMember(a.fields, b.fields, d);
      ExtraMember(a.fields, b.fields, d);
      CommonMember(a, b, |a.fields|, d);
      KeyIsThere(a);
    }
    BothOnce(lacking, extra);
    BothOnce(lacking + extra, common);
  }

  lemma KeyIsThere(a: Json)
    requires a.Obj?
    ensures forall i :: 0 <= i < |a.fields| ==> HasKey(a.fields, a.fields[i].key)
  {
  }

  // ---- the theorem -----------------------------------------------------------------

  /**
   * The full difference lists each place where the payloads part, once, and nothing else; every
   * entry carries that place's printed path, its kind, and what either side has there.
   */
  lemma DifferenceIsExact(render: Render, a: Json, b: Json)
    requires WellFormed(a) && WellFormed(b)
    ensures AllTell(render, [], a, b, FullDiff(render, a, b, []), Places(a, b))
    ensures NoRepeat(Places(a, b))
    ensures forall d :: d in Places(a, b) <==> Parts(a, b, d.path, d.parting)
  {
    hide AllTell, NoRepeat, Parts, Places;
    DiffsTell(render, [], a, b);
    PlacesOnce(a, b);
    forall d
      ensures d in Places(a, b) <==> Parts(a, b, d.path, d.parting)
    {
      PlacesExactly(a, b, d);
    }
  }

  /** Plain keys at every depth. */
  predicate PlainKeys(j: Json)
  {
    match j
    case Arr(items) => forall i :: 0 <= i < |items| ==> PlainKeys(items[i])
    case Obj(fields) => forall i :: 0 <= i < |fields| ==> IsPlain(fields[i].key) && PlainKeys(fields[i].value)
    case _ => true
  }

  lemma PlainBelow(j: Json, step: Step)
    requires PlainKeys(j) && At(j, [step]).Some?
    ensures PlainKeys(At(j, [step]).value) && (step.Key? ==> IsPlain(step.key))
  {
    assert [step][1..] == [];
    if j.Obj? {
      var i := Place(j.fields, step.key);
    }
  }

  lemma {:induction false} PartsAtPlain(a: Json, b: Json, path: seq<Step>, parting: Parting)
    requires PlainKeys(a) && PlainKeys(b) && Parts(a, b, path, parting)
    ensures IsPlainPath(path)
    decreases path
  {
    hide At, IsPlain, PlainKeys;
    if path != [] {
      var step := path[0];
      assert path[..1] == [step];
      if At(a, [step]).Some? { PlainBelow(a, step); }
      if At(b, [step]).Some? { PlainBelow(b, step); }
      if At(a, [step]).Some? && At(b, [step]).Some? {
        PartsAtPlain(At(a, [step]).value, At(b, [step]).value, path[1..], parting);
        assert forall i :: 1 <= i < |path| ==> path[i] == path[1..][i - 1];
      }
    }
  }

  /** Payloads part in one way at a path, and nowhere below it. */
  lemma {:induction false} PartsOnce(a: Json, b: Json, path: seq<Step>, p: Parting, more: seq<Step>, q: Parting)
    requires Parts(a, b, path, p) && Parts(a, b, path + more, q)
    ensures more == [] && p == q
    decreases path
  {
    hide At;
    if path == [] {
      assert path + more == more;
    } else {
      var longer := path + more;
      assert longer[..1] == path[..1] && longer[1..] == path[1..] + more;
      var x, y := At(a, path[..1]), At(b, path[..1]);
      if x.Some? && y.Some? {
        PartsOnce(x.value, y.value, path[1..], p, more, q);
      }
    }
  }

  /** The path an entry for this place prints. */
  function PrintedPath(d: Divergence): (path: seq<Step>)
  {
    d.path + if d.parting == Lengths then [Key("length")] else []
  }

  lemma PrintedApart(a: Json, b: Json, d: Divergence, e: Divergence)
    requires Parts(a, b, d.path, d.parting) && Parts(a, b, e.path, e.parting) && PrintedPath(d) == PrintedPath(e)
    ensures d == e
  {
    hide Parts;
    assert d.path + [] == d.path && e.path + [] == e.path;
    if d.parting == Lengths && e.parting == Lengths {
      assert d.path == PrintedPath(d)[..|PrintedPath(d)| - 1] == e.path;
    } else if d.parting == Lengths {
      PartsOnce(a, b, d.path, d.parting, [Key("length")], e.parting);
    } else if e.parting == Lengths {
      PartsOnce(a, b, e.path, e.parting, [Key("length")], d.parting);
    } else {
      PartsOnce(a, b, d.path, d.parting, [], e.parting);
    }
  }

  lemma EntryReads(render: Render, a: Json, b: Json, e: PayloadDiff, d: Divergence)
    requires Tells(render, [], a, b, e, d) && IsPlainPath(d.path)
    ensures ReadPath(e.path) == Some(PrintedPath(d))
  {
    hide ReadPath, FormatPath, At, IsPlainPath;
    assert [] + d.path == d.path && d.path + [] == d.path;
    ReadFormatted(d.path);
    ReadLength(d.path);
  }

  /** With plain keys the printed paths read back as the places, and no two entries print the same path. */
  lemma PathsReadBack(render: Render, a: Json, b: Json)
    requires WellFormed(a) && WellFormed(b) && PlainKeys(a) && PlainKeys(b)
    ensures var diffs := FullDiff(render, a, b, []);
            && |diffs| == |Places(a, b)|
            && (forall i :: 0 <= i < |diffs| ==> ReadPath(diffs[i].path) == Some(PrintedPath(Places(a, b)[i])))
            && (forall i, j :: 0 <= i < j < |diffs| ==> diffs[i].path != diffs[j].path)
  {
    hide ReadPath, FormatPath, Places, Parts, FullDiff, Tells, WellFormed, PlainKeys, IsPlainPath, PrintedPath;
    var diffs, places := FullDiff(render, a, b, []), Places(a, b);
    DifferenceIsExact(render, a, b);
    forall i | 0 <= i < |diffs|
      ensures Parts(a, b, places[i].path, places[i].parting) && ReadPath(diffs[i].path) == Some(PrintedPath(places[i]))
    {
      assert places[i] in places;
      PartsAtPlain(a, b, places[i].path, places[i].parting);
      EntryReads(render, a, b, diffs[i], places[i]);
    }
    forall i, j | 0 <= i < j < |diffs|
      ensures diffs[i].path != diffs[j].path
    {
      assert places[i] != places[j];
      if diffs[i].path == diffs[j].path {
        PrintedApart(a, b, places[i], places[j]);
      }
    }
  }
}
