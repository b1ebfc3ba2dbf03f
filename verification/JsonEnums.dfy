/** `validateEnums` of scripts/dual-run-parity.ts: the key-driven walk over enum-carrying fields. */
module JsonEnums {
  import opened Wrappers
  import opened Json
  import JsonDiff

  const CONFIDENCE_VALUES: seq<string> := ["HIGH", "MEDIUM", "LOW"]
  const RELIABILITY_VALUES: seq<string> := ["VERIFIED", "ESTIMATED", "STALE", "UNAVAILABLE"]

  datatype EnumViolation = EnumViolation(path: string, value: string, allowed: seq<string>)

  /** The value set a key's strings must come from; None for the other keys. */
  function Allowed(key: string): (values: Option<seq<string>>)
  {
    if key == "confidence" then Some(CONFIDENCE_VALUES)
    else if key == "reliability" || key == "status" then Some(RELIABILITY_VALUES)
    else None
  }

  predicate Permits(key: string, value: string)
  {
    Allowed(key).None? || value in Allowed(key).value
  }

  /** What the walk pushes below a node, in order. */
  function Violations(j: Json, path: seq<Step>): (v: seq<EnumViolation>)
    decreases j, 1, 0
  {
    match j
    case Arr(items) => ItemViolations(j, path, |items|)
    case Obj(fields) => FieldViolations(j, path, |fields|)
    case _ => []
  }

  function ItemViolations(j: Json, path: seq<Step>, n: nat): (v: seq<EnumViolation>)
    requires j.Arr? && n <= |j.items|
    decreases j, 0, n
  {
    if n == 0 then [] else ItemViolations(j, path, n - 1) + Violations(j.items[n - 1], path + [Index(n - 1)])
  }

  function FieldViolations(j: Json, path: seq<Step>, n: nat): (v: seq<EnumViolation>)
    requires j.Obj? && n <= |j.fields|
    decreases j, 0, n
  {
    if n == 0 then []
    else
      var f := j.fields[n - 1];
      var childPath := path + [Key(f.key)];
      FieldViolations(j, path, n - 1)
      + (if f.value.Str? then
           (if Permits(f.key, f.value.s) then []
            else [EnumViolation(JsonDiff.FormatPath(childPath), f.value.s, Allowed(f.key).value)])
         else Violations(f.value, childPath))
  }

  /** The walk's shared accumulator. */
  class EnumWalk {
    var violations: seq<EnumViolation>

    constructor ()
      ensures violations == []
    {
      violations := [];
    }

    method Walk(j: Json, path: seq<Step>)
      modifies this
      ensures violations == old(violations) + Violations(j, path)
      decreases j
    {
      ghost var before := violations;
      if j.Arr? {
        for i := 0 to |j.items|
          invariant violations == before + ItemViolations(j, path, i)
        {
          Walk(j.items[i], path + [Index(i)]);
        }
        return;
      }
      if !j.Obj? {
        return;
      }
      for i := 0 to |j.fields|
        invariant violations == before + FieldViolations(j, path, i)
      {
        var f := j.fields[i];
        var childPath := path + [Key(f.key)];
        if f.value.Str? {
          if f.key == "confidence" && f.value.s !in CONFIDENCE_VALUES {
            violations := violations + [EnumViolation(JsonDiff.FormatPath(childPath), f.value.s, CONFIDENCE_VALUES)];
          }
          if (f.key == "reliability" || f.key == "status") && f.value.s !in RELIABILITY_VALUES {
            violations := violations + [EnumViolation(JsonDiff.FormatPath(childPath), f.value.s, RELIABILITY_VALUES)];
          }
        } else {
          Walk(f.value, childPath);
        }
      }
    }
  }

  method ValidateEnums(payload: Json) returns (v: seq<EnumViolation>)
    ensures v == Violations(payload, [])
  {
    var walk := new EnumWalk();
    walk.Walk(payload, []);
    v := walk.violations;
  }

  // ---- what an empty report means --------------------------------------------------

  /** A path that ends at a key. */
  predicate EndsAtKey(path: seq<Step>) { path != [] && path[|path| - 1].Key? }

  /** Every string found under an enum-carrying key, at any depth, is in the key's set. */
  ghost predicate EnumsHold(j: Json)
  {
    forall path: seq<Step> :: EndsAtKey(path) && At(j, path).Some? && At(j, path).value.Str?
      ==> Permits(path[|path| - 1].key, At(j, path).value.s)
  }

  /** The same, one level at a time. */
  predicate EnumsValid(j: Json)
  {
    match j
    case Arr(items) => forall i :: 0 <= i < |items| ==> EnumsValid(items[i])
    case Obj(fields) =>
      forall i :: 0 <= i < |fields| ==>
        && (fields[i].value.Str? ==> Permits(fields[i].key, fields[i].value.s))
        && EnumsValid(fields[i].value)
    case _ => true
  }

  lemma {:induction false} NoViolations(j: Json, path: seq<Step>)
    ensures Violations(j, path) == [] <==> EnumsValid(j)
    decreases j, 1, 0
  {
    match j
    case Arr(items) => NoItemViolations(j, path, |items|);
    case Obj(fields) => NoFieldViolations(j, path, |fields|);
    case _ =>
  }

  lemma {:induction false} NoItemViolations(j: Json, path: seq<Step>, n: nat)
    requires j.Arr? && n <= |j.items|
    ensures ItemViolations(j, path, n) == [] <==> forall i :: 0 <= i < n ==> EnumsValid(j.items[i])
    decreases j, 0, n
  {
    if n > 0 {
      NoItemViolations(j, path, n - 1);
      NoViolations(j.items[n - 1], path + [Index(n - 1)]);
    }
  }

  lemma {:induction false} NoFieldViolations(j: Json, path: seq<Step>, n: nat)
    requires j.Obj? && n <= |j.fields|
    ensures FieldViolations(j, path, n) == []
       <==> forall i :: 0 <= i < n ==>
              && (j.fields[i].value.Str? ==> Permits(j.fields[i].key, j.fields[i].value.s))
              && EnumsValid(j.fields[i].value)
    decreases j, 0, n
  {
    hide Permits, Violations;
    if n > 0 {
      NoFieldViolations(j, path, n - 1);
      NoViolations(j.fields[n - 1].value, path + [Key(j.fields[n - 1].key)]);
    }
  }

  lemma {:induction false} ValidAtPath(j: Json, path: seq<Step>)
    requires EnumsValid(j) && EndsAtKey(path) && At(j, path).Some? && At(j, path).value.Str?
    ensures Permits(path[|path| - 1].key, At(j, path).value.s)
    decreases path
  {
    hide Permits;
    match path[0]
    case Key(key) =>
      var value := Get(j.fields, key);
      var i :| 0 <= i < |j.fields| && j.fields[i] == Field(key, value);
      if |path| > 1 {
        ValidAtPath(value, path[1..]);
      }
    case Index(i) =>
      ValidAtPath(j.items[i], path[1..]);
  }

  lemma {:induction false} HoldsIsValid(j: Json)
    requires WellFormed(j) && EnumsHold(j)
    ensures EnumsValid(j)
  {
    hide Permits, EnumsHold, At;
    ChildAt(j);
    match j
    case Arr(items) =>
      forall i | 0 <= i < |items|
        ensures EnumsValid(items[i])
      {
        HoldsBelow(j, Index(i), items[i]);
        HoldsIsValid(items[i]);
      }
    case Obj(fields) =>
      forall i | 0 <= i < |fields|
        ensures (fields[i].value.Str? ==> Permits(fields[i].key, fields[i].value.s)) && EnumsValid(fields[i].value)
      {
        HoldsBelow(j, Key(fields[i].key), fields[i].value);
        HoldsIsValid(fields[i].value);
      }
    case _ =>
  }

  /** A longer path starts with its first step. */
  lemma AtBelow(j: Json, step: Step, path: seq<Step>)
    ensures At(j, [step] + path)
         == if At(j, [step]).None? then None else At(At(j, [step]).value, path)
  {
    assert [step][1..] == [] && ([step] + path)[1..] == path;
  }

  lemma HoldsBelow(j: Json, step: Step, child: Json)
    ensures EnumsHold(j) && At(j, [step]) == Some(child) ==>
              EnumsHold(child) && (step.Key? && child.Str? ==> Permits(step.key, child.s))
  {
    hide Permits, At;
    if EnumsHold(j) && At(j, [step]) == Some(child) {
      assert EndsAtKey([step]) <==> step.Key?;
      forall path: seq<Step> | EndsAtKey(path) && At(child, path).Some? && At(child, path).value.Str?
        ensures Permits(path[|path| - 1].key, At(child, path).value.s)
      {
        var longer := [step] + path;
        AtBelow(j, step, path);
        assert longer[|longer| - 1] == path[|path| - 1];
      }
    }
  }

  lemma ChildAt(j: Json)
    ensures j.Arr? ==> forall i :: 0 <= i < |j.items| ==> At(j, [Index(i)]) == Some(j.items[i])
    ensures j.Obj? && DistinctKeys(j.fields) ==>
              forall i :: 0 <= i < |j.fields| ==> At(j, [Key(j.fields[i].key)]) == Some(j.fields[i].value)
  {
    if j.Arr? {
      forall i | 0 <= i < |j.items|
        ensures At(j, [Index(i)]) == Some(j.items[i])
      {
        assert [Index(i)][1..] == [];
      }
    }
    if j.Obj? && DistinctKeys(j.fields) {
      forall i | 0 <= i < |j.fields|
        ensures At(j, [Key(j.fields[i].key)]) == Some(j.fields[i].value)
      {
        GetOf(j.fields, i);
        assert [Key(j.fields[i].key)][1..] == [];
      }
    }
  }

  /** The report is empty exactly when every enum field, wherever it sits, holds an allowed value. */
  lemma EmptyReport(j: Json)
    requires WellFormed(j)
    ensures Violations(j, []) == [] <==> EnumsHold(j)
  {
    NoViolations(j, []);
    if EnumsValid(j) {
      forall path: seq<Step> | EndsAtKey(path) && At(j, path).Some? && At(j, path).value.Str?
        ensures Permits(path[|path| - 1].key, At(j, path).value.s)
      {
        ValidAtPath(j, path);
      }
    }
    if EnumsHold(j) {
      HoldsIsValid(j);
    }
  }
}
