/** What the violations of `validateEnums` say: every enum string outside its set, each listed once. */
module JsonEnumPlaces {
  import opened Wrappers
  import opened Chunking
  import opened Json
  import opened JsonDiff
  import opened JsonEnums

  /** The string at a path that ends at an enum key, when the key's set lacks it. */
  predicate Violates(j: Json, path: seq<Step>)
  {
    EndsAtKey(path) && At(j, path).Some? && At(j, path).value.Str?
    && !Permits(path[|path| - 1].key, At(j, path).value.s)
  }

  /** The entry tells of the string at that path below `base`: its printed path, the string, its key's set. */
  predicate Tells(base: seq<Step>, j: Json, path: seq<Step>, v: EnumViolation)
  {
    && Violates(j, path)
    && v.path == FormatPath(base + path) && v.value == At(j, path).value.s
    && Some(v.allowed) == Allowed(path[|path| - 1].key)
  }

  // ---- the paths in the order of the walk ------------------------------------------

  function Prefixed(step: Step, paths: seq<seq<Step>>): (below: seq<seq<Step>>)
  {
    seq(|paths|, i requires 0 <= i < |paths| => [step] + paths[i])
  }

  function Paths(j: Json): (paths: seq<seq<Step>>)
    decreases j, 1, 0
  {
    match j
    case Arr(items) => ItemPaths(j, |items|)
    case Obj(fields) => FieldPaths(j, |fields|)
    case _ => []
  }

  function ItemPaths(j: Json, n: nat): (paths: seq<seq<Step>>)
    requires j.Arr? && n <= |j.items|
    decreases j, 0, n
  {
    if n == 0 then [] else ItemPaths(j, n - 1) + Prefixed(Index(n - 1), Paths(j.items[n - 1]))
  }

  function FieldPaths(j: Json, n: nat): (paths: seq<seq<Step>>)
    requires j.Obj? && n <= |j.fields|
    decreases j, 0, n
  {
    if n == 0 then [] else FieldPaths(j, n - 1) + PathsIn(j.fields[n - 1])
  }

  function PathsIn(f: Field): (paths: seq<seq<Step>>)
    decreases f.value, 2, 0
  {
    if !f.value.Str? then Prefixed(Key(f.key), Paths(f.value))
    else if Permits(f.key, f.value.s) then [] else [[Key(f.key)]]
  }

  // ---- each entry tells of its path ------------------------------------------------

  predicate AllTell(base: seq<Step>, j: Json, paths: seq<seq<Step>>, v: seq<EnumViolation>)
  {
    |paths| == |v| && forall i :: 0 <= i < |v| ==> Tells(base, j, paths[i], v[i])
  }

  lemma AllTellBoth(base: seq<Step>, j: Json, p: seq<seq<Step>>, v: seq<EnumViolation>,
                    q: seq<seq<Step>>, w: seq<EnumViolation>)
    requires AllTell(base, j, p, v) && AllTell(base, j, q, w)
    ensures AllTell(base, j, p + q, v + w)
  {
    hide Tells;
  }

  lemma TellsBelow(base: seq<Step>, j: Json, step: Step, x: Json, paths: seq<seq<Step>>, v: seq<EnumViolation>)
    requires At(j, [step]) == Some(x) && AllTell(base + [step], x, paths, v)
    ensures AllTell(base, j, Prefixed(step, paths), v)
  {
    hide At, FormatPath, Permits, Allowed;
    forall i | 0 <= i < |v|
      ensures Tells(base, j, Prefixed(step, paths)[i], v[i])
    {
      assert Tells(base + [step], x, paths[i], v[i]);
      AtBelow(j, step, paths[i]);
      assert base + [step] + paths[i] == base + ([step] + paths[i]);
      assert ([step] + paths[i])[|paths[i]|] == paths[i][|paths[i]| - 1];
    }
  }

  lemma {:induction false} ItemsTell(base: seq<Step>, j: Json, n: nat)
    requires j.Arr? && n <= |j.items| && WellFormed(j)
    ensures AllTell(base, j, ItemPaths(j, n), ItemViolations(j, base, n))
    decreases j, 0, n
  {
    hide Tells, Violations, Paths;
    if n > 0 {
      var x, step := j.items[n - 1], Index(n - 1);
      ItemsTell(base, j, n - 1);
      ViolationsTell(base + [step], x);
      ChildAt(j);
      TellsBelow(base, j, step, x, Paths(x), Violations(x, base + [step]));
      AllTellBoth(base, j, ItemPaths(j, n - 1), ItemViolations(j, base, n - 1),
                  Prefixed(step, Paths(x)), Violations(x, base + [step]));
    }
  }

  lemma {:induction false} FieldsTell(base: seq<Step>, j: Json, n: nat)
    requires j.Obj? && n <= |j.fields| && WellFormed(j)
    ensures AllTell(base, j, FieldPaths(j, n), FieldViolations(j, base, n))
    decreases j, 0, n
  {
    hide Violations, Paths, Permits, Allowed, At, FormatPath;
    if n > 0 {
      var f := j.fields[n - 1];
      var step := Key(f.key);
      FieldsTell(base, j, n - 1);
      ChildAt(j);
      assert At(j, [step]) == Some(f.value);
      if f.value.Str? {
        PermitsAllowed(f.key, f.value.s);
        var own: seq<EnumViolation> :=
          if Permits(f.key, f.value.s) then []
          else [EnumViolation(FormatPath(base + [step]), f.value.s, Allowed(f.key).value)];
        assert AllTell(base, j, PathsIn(f), own);
        AllTellBoth(base, j, FieldPaths(j, n - 1), FieldViolations(j, base, n - 1), PathsIn(f), own);
      } else {
        ViolationsTell(base + [step], f.value);
        TellsBelow(base, j, step, f.value, Paths(f.value), Violations(f.value, base + [step]));
        AllTellBoth(base, j, FieldPaths(j, n - 1), FieldViolations(j, base, n - 1),
                    PathsIn(f), Violations(f.value, base + [step]));
      }
    }
  }

  lemma PermitsAllowed(key: string, value: string)
    ensures !Permits(key, value) ==> Allowed(key).Some?
  {
  }

  lemma {:induction false} ViolationsTell(base: seq<Step>, j: Json)
    requires WellFormed(j)
    ensures AllTell(base, j, Paths(j), Violations(j, base))
    decreases j, 1, 0
  {
    match j
    case Arr(items) => ItemsTell(base, j, |items|);
    case Obj(fields) => FieldsTell(base, j, |fields|);
    case _ =>
  }

  // ---- the paths are all of them, each once ----------------------------------------

  lemma InPrefixed(step: Step, paths: seq<seq<Step>>, path: seq<Step>)
    ensures path in Prefixed(step, paths) <==> path != [] && path[0] == step && path[1..] in paths
  {
    var below := Prefixed(step, paths);
    if path in below {
      var i :| 0 <= i < |below| && below[i] == path;
      assert ([step] + paths[i])[1..] == paths[i];
    }
    if path != [] && path[0] == step && path[1..] in paths {
      var i :| 0 <= i < |paths| && paths[i] == path[1..];
      assert [step] + path[1..] == path;
      assert below[i] == path;
    }
  }

  /** At or below the member `i` of an array or an object. */
  predicate ViolatesIn(j: Json, i: nat, path: seq<Step>)
  {
    if j.Arr? then i < |j.items| && path != [] && path[0] == Index(i) && Violates(j.items[i], path[1..])
    else if j.Obj? then i < |j.fields| && path in PathsIn(j.fields[i])
    else false
  }

  lemma {:induction false} ItemsMember(j: Json, n: nat, path: seq<Step>)
    requires j.Arr? && n <= |j.items| && WellFormed(j)
    ensures path in ItemPaths(j, n) <==> exists i: nat :: i < n && ViolatesIn(j, i, path)
    decreases j, 0, n
  {
    hide Paths, Violates, Prefixed;
    if n > 0 {
      var below := Prefixed(Index(n - 1), Paths(j.items[n - 1]));
      ItemsMember(j, n - 1, path);
      InPrefixed(Index(n - 1), Paths(j.items[n - 1]), path);
      if path != [] {
        PathsExactly(j.items[n - 1], path[1..]);
      }
      assert path in below <==> ViolatesIn(j, n - 1, path);
      assert path in ItemPaths(j, n) <==> path in ItemPaths(j, n - 1) || path in below;
      hide ViolatesIn, ItemPaths;
    }
  }

  lemma {:induction false} FieldsMember(j: Json, n: nat, path: seq<Step>)
    requires j.Obj? && n <= |j.fields|
    ensures path in FieldPaths(j, n) <==> exists i: nat :: i < n && ViolatesIn(j, i, path)
    decreases n
  {
    hide PathsIn;
    if n > 0 {
      FieldsMember(j, n - 1, path);
      assert path in FieldPaths(j, n) <==> path in FieldPaths(j, n - 1) || path in PathsIn(j.fields[n - 1]);
      assert ViolatesIn(j, n - 1, path) <==> path in PathsIn(j.fields[n - 1]);
      hide ViolatesIn, FieldPaths;
    }
  }

  /** Below one field: the field's own string, or a path into its value. */
  lemma InField(j: Json, i: nat, path: seq<Step>)
    requires j.Obj? && WellFormed(j) && i < |j.fields|
    requires path != [] && !j.fields[i].value.Str? ==>
               (path[1..] in Paths(j.fields[i].value) <==> Violates(j.fields[i].value, path[1..]))
    ensures path in PathsIn(j.fields[i]) <==> path != [] && path[0] == Key(j.fields[i].key) && Violates(j, path)
  {
    hide Paths, Permits;
    var f := j.fields[i];
    ChildAt(j);
    if path != [] && path[0] == Key(f.key) {
      AtBelow(j, Key(f.key), path[1..]);
      assert path == [Key(f.key)] + path[1..];
      if !f.value.Str? {
        InPrefixed(Key(f.key), Paths(f.value), path);
        Longer(f.value, path);
        assert At(j, path) == At(f.value, path[1..]);
        hide At;
      } else {
        StringHasNoParts(f.value, path[1..]);
        assert At(j, path) == if |path| == 1 then Some(f.value) else None;
        hide At;
        assert |path| == 1 ==> path == [Key(f.key)];
      }
    } else if !f.value.Str? {
      InPrefixed(Key(f.key), Paths(f.value), path);
    }
  }

  lemma StringHasNoParts(x: Json, path: seq<Step>)
    requires x.Str?
    ensures At(x, path) == if path == [] then Some(x) else None
  {
  }

  /** Not a string itself: what counts is below. */
  lemma Longer(x: Json, path: seq<Step>)
    requires path != [] && !x.Str?
    ensures EndsAtKey(path) && At(x, path[1..]).Some? && At(x, path[1..]).value.Str?
       <==> EndsAtKey(path[1..]) && At(x, path[1..]).Some? && At(x, path[1..]).value.Str?
    ensures path[1..] != [] ==> path[|path| - 1] == path[1..][|path| - 2]
  {
  }

  /** A path is listed exactly when the string at it violates its key's set. */
  lemma {:induction false} PathsExactly(j: Json, path: seq<Step>)
    requires WellFormed(j)
    ensures path in Paths(j) <==> Violates(j, path)
    decreases j, 1, 0
  {
    match j
    case Arr(items) =>
      ItemsMember(j, |items|, path);
      ArrayViolates(j, path);
    case Obj(fields) =>
      FieldsMember(j, |fields|, path);
      forall i | 0 <= i < |fields|
        ensures ViolatesIn(j, i, path) <==> path != [] && path[0] == Key(fields[i].key) && Violates(j, path)
      {
        if path != [] && !fields[i].value.Str? {
          PathsExactly(fields[i].value, path[1..]);
        }
        InField(j, i, path);
      }
      ObjectViolates(j, path);
      hide PathsIn, Violates, FieldPaths, ViolatesIn;
    case _ =>
  }

  lemma ArrayViolates(j: Json, path: seq<Step>)
    requires j.Arr?
    ensures Violates(j, path) <==> exists i: nat :: i < |j.items| && ViolatesIn(j, i, path)
  {
    hide Permits;
    if path != [] && path[0].Index? && path[0].index < |j.items| {
      var i := path[0].index;
      ChildAt(j);
      AtBelow(j, Index(i), path[1..]);
      assert path == [Index(i)] + path[1..];
      assert Violates(j, path) <==> ViolatesIn(j, i, path);
    }
  }

  lemma ObjectViolates(j: Json, path: seq<Step>)
    requires j.Obj?
    ensures Violates(j, path) ==> exists i: nat :: i < |j.fields| && path != [] && path[0] == Key(j.fields[i].key)
  {
    if Violates(j, path) {
      var i := Place(j.fields, path[0].key);
      assert path[0] == Key(j.fields[i].key);
    }
  }

  lemma PrefixedOnce(step: Step, paths: seq<seq<Step>>)
    requires NoRepeat(paths)
    ensures NoRepeat(Prefixed(step, paths))
  {
    forall i, j | 0 <= i < j < |paths|
      ensures Prefixed(step, paths)[i] != Prefixed(step, paths)[j]
    {
      assert ([step] + paths[i])[1..] == paths[i] && ([step] + paths[j])[1..] == paths[j];
    }
  }

  /** Every path below a field starts with its key. */
  lemma StartsWithKey(f: Field, path: seq<Step>)
    ensures path in PathsIn(f) ==> path != [] && path[0] == Key(f.key)
  {
    hide Paths;
    if !f.value.Str? {
      InPrefixed(Key(f.key), Paths(f.value), path);
    }
  }

  lemma {:induction false} PathsOnce(j: Json)
    requires WellFormed(j)
    ensures NoRepeat(Paths(j))
    decreases j, 1, 0
  {
    match j
    case Arr(items) => ItemsOnce(j, |items|);
    case Obj(fields) => FieldsOnce(j, |fields|);
    case _ =>
  }

  lemma {:induction false} ItemsOnce(j: Json, n: nat)
    requires j.Arr? && n <= |j.items| && WellFormed(j)
    ensures NoRepeat(ItemPaths(j, n))
    decreases j, 0, n
  {
    hide Paths, Prefixed, NoRepeat, Violates;
    if n == 0 {
      NothingRepeats<seq<Step>>();
    } else {
      var below := Prefixed(Index(n - 1), Paths(j.items[n - 1]));
      ItemsOnce(j, n - 1);
      PathsOnce(j.items[n - 1]);
      PrefixedOnce(Index(n - 1), Paths(j.items[n - 1]));
      forall path | path in ItemPaths(j, n - 1)
        ensures path !in below
      {
        ItemsMember(j, n - 1, path);
        InPrefixed(Index(n - 1), Paths(j.items[n - 1]), path);
      }
      BothOnce(ItemPaths(j, n - 1), below);
    }
  }

  lemma {:induction false} FieldsOnce(j: Json, n: nat)
    requires j.Obj? && n <= |j.fields| && WellFormed(j)
    ensures NoRepeat(FieldPaths(j, n))
    decreases j, 0, n
  {
    hide PathsIn, NoRepeat;
    if n == 0 {
      NothingRepeats<seq<Step>>();
    } else {
      var f := j.fields[n - 1];
      FieldsOnce(j, n - 1);
      FieldOnce(j, n - 1);
      forall path | path in FieldPaths(j, n - 1)
        ensures path !in PathsIn(f)
      {
        FieldsMember(j, n - 1, path);
        var i: nat :| i < n - 1 && ViolatesIn(j, i, path);
        StartsWithKey(j.fields[i], path);
        StartsWithKey(f, path);
      }
      BothOnce(FieldPaths(j, n - 1), PathsIn(f));
    }
  }

  lemma FieldOnce(j: Json, i: nat)
    requires j.Obj? && WellFormed(j) && i < |j.fields|
    ensures NoRepeat(PathsIn(j.fields[i]))
    decreases j, 0, 0
  {
    var f := j.fields[i];
    if !f.value.Str? {
      PathsOnce(f.value);
      PrefixedOnce(Key(f.key), Paths(f.value));
    }
  }

  /**
   * The report lists each enum string outside its key's set, once, and nothing else; every entry
   * carries that string, its printed path and the set it should come from.
   */
  lemma ReportIsExact(j: Json)
    requires WellFormed(j)
    ensures AllTell([], j, Paths(j), Violations(j, [])) && NoRepeat(Paths(j))
    ensures forall path :: path in Paths(j) <==> Violates(j, path)
  {
    hide AllTell, NoRepeat, Violates, Paths;
    ViolationsTell([], j);
    PathsOnce(j);
    forall path
      ensures path in Paths(j) <==> Violates(j, path)
    {
      PathsExactly(j, path);
    }
  }
}
