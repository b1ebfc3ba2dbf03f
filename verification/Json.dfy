/** JSON payloads as scripts/dual-run-parity.ts compares them: ordered fields, distinct keys. */
module Json {
  import opened Wrappers

  /** A JavaScript number a JSON text can hold; `Object.is` tells 0 from -0. */
  datatype Number = Finite(value: real) | NegativeZero | Infinite(negative: bool)

  datatype Field = Field(key: string, value: Json)

  datatype Json =
    | Null
    | Bool(b: bool)
    | Num(n: Number)
    | Str(s: string)
    | Arr(items: seq<Json>)
    | Obj(fields: seq<Field>)

  predicate DistinctKeys(fields: seq<Field>)
  {
    forall i, j :: 0 <= i < j < |fields| ==> fields[i].key != fields[j].key
  }

  /** Keys are distinct at every depth, as in any parsed object. */
  predicate WellFormed(j: Json)
  {
    match j
    case Arr(items) => forall i :: 0 <= i < |items| ==> WellFormed(items[i])
    case Obj(fields) => DistinctKeys(fields) && forall i :: 0 <= i < |fields| ==> WellFormed(fields[i].value)
    case _ => true
  }

  predicate HasKey(fields: seq<Field>, key: string)
  {
    exists i :: 0 <= i < |fields| && fields[i].key == key
  }

  function Get(fields: seq<Field>, key: string): (value: Json)
    requires HasKey(fields, key)
    ensures exists i :: 0 <= i < |fields| && fields[i] == Field(key, value)
  {
    if fields[0].key == key then fields[0].value else Get(fields[1..], key)
  }

  lemma {:induction false} GetOf(fields: seq<Field>, i: nat)
    requires DistinctKeys(fields) && i < |fields|
    ensures HasKey(fields, fields[i].key) && Get(fields, fields[i].key) == fields[i].value
  {
    assert fields[i].key == fields[i].key;
    if i > 0 {
      assert fields[1..][i - 1] == fields[i];
      GetOf(fields[1..], i - 1);
    }
  }

  lemma Place(fields: seq<Field>, key: string) returns (i: nat)
    requires HasKey(fields, key)
    ensures i < |fields| && fields[i] == Field(key, Get(fields, key))
  {
    i :| 0 <= i < |fields| && fields[i] == Field(key, Get(fields, key));
  }

  /** One step of a path into a payload. */
  datatype Step = Key(key: string) | Index(index: nat)

  /** The value at a path, or None when the path leads nowhere. */
  function At(j: Json, path: seq<Step>): (value: Option<Json>)
    decreases path
  {
    if path == [] then Some(j)
    else
      match path[0]
      case Key(key) => if j.Obj? && HasKey(j.fields, key) then At(Get(j.fields, key), path[1..]) else None
      case Index(i) => if j.Arr? && i < |j.items| then At(j.items[i], path[1..]) else None
  }

  /**
   * Structural equality: objects hold the same keys in any order, arrays agree member by
   * member, and everything else is the same value, numbers by `Object.is`.
   */
  predicate Same(a: Json, b: Json)
  {
    match (a, b)
    case (Arr(xs), Arr(ys)) => |xs| == |ys| && forall i :: 0 <= i < |xs| ==> Same(xs[i], ys[i])
    case (Obj(xs), Obj(ys)) =>
      && (forall i :: 0 <= i < |xs| ==> HasKey(ys, xs[i].key) && Same(xs[i].value, Get(ys, xs[i].key)))
      && (forall i :: 0 <= i < |ys| ==> HasKey(xs, ys[i].key))
    case _ => a == b
  }

  lemma {:induction false} SameReflexive(a: Json)
    requires WellFormed(a)
    ensures Same(a, a)
  {
    match a
    case Arr(items) =>
      forall i | 0 <= i < |items| ensures Same(items[i], items[i]) { SameReflexive(items[i]); }
    case Obj(fields) =>
      forall i | 0 <= i < |fields|
        ensures HasKey(fields, fields[i].key) && Same(fields[i].value, Get(fields, fields[i].key))
      {
        GetOf(fields, i);
        SameReflexive(fields[i].value);
      }
    case _ =>
  }

  lemma {:induction false} SameSymmetric(a: Json, b: Json)
    requires WellFormed(a) && WellFormed(b) && Same(a, b)
    ensures Same(b, a)
  {
    match (a, b)
    case (Arr(xs), Arr(ys)) =>
      forall i | 0 <= i < |xs| ensures Same(ys[i], xs[i]) { SameSymmetric(xs[i], ys[i]); }
    case (Obj(xs), Obj(ys)) =>
      forall j | 0 <= j < |ys|
        ensures HasKey(xs, ys[j].key) && Same(ys[j].value, Get(xs, ys[j].key))
      {
        var i :| 0 <= i < |xs| && xs[i].key == ys[j].key;
        GetOf(xs, i);
        GetOf(ys, j);
        SameSymmetric(xs[i].value, ys[j].value);
      }
      forall i | 0 <= i < |xs| ensures HasKey(ys, xs[i].key) {}
    case _ =>
  }

  lemma {:induction false} SameTransitive(a: Json, b: Json, c: Json)
    requires WellFormed(b) && WellFormed(c) && Same(a, b) && Same(b, c)
    ensures Same(a, c)
  {
    match (a, b, c)
    case (Arr(xs), Arr(ys), Arr(zs)) =>
      forall i | 0 <= i < |xs| ensures Same(xs[i], zs[i]) { SameTransitive(xs[i], ys[i], zs[i]); }
    case (Obj(xs), Obj(ys), Obj(zs)) =>
      hide Get, HasKey, DistinctKeys;
      forall i | 0 <= i < |xs|
        ensures HasKey(zs, xs[i].key) && Same(xs[i].value, Get(zs, xs[i].key))
      {
        var j := Place(ys, xs[i].key);
        var k := Place(zs, ys[j].key);
        SameTransitive(xs[i].value, ys[j].value, zs[k].value);
      }
      forall k | 0 <= k < |zs|
        ensures HasKey(xs, zs[k].key)
      {
        var j := Place(ys, zs[k].key);
      }
    case _ =>
  }
}
