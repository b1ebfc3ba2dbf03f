/** `normalizePayload`: clone through JSON, then erase the volatile keys at every depth. */
module JsonNormalize {
  import opened Wrappers
  import opened Json

  const VOLATILE_KEYS: set<string> := {"calculationRecordId", "calculationTimestamp", "timestamp", "path"}

  /**
   * `JSON.parse(JSON.stringify(value))`. The text keeps everything but the two numbers JSON
   * cannot write: -0 prints as 0 and an infinity prints as null.
   */
  function Clone(j: Json): (c: Json)
  {
    match j
    case Num(NegativeZero) => Num(Finite(0.0))
    case Num(Infinite(_)) => Null
    case Arr(items) => Arr(seq(|items|, i requires 0 <= i < |items| => Clone(items[i])))
    case Obj(fields) =>
      Obj(seq(|fields|, i requires 0 <= i < |fields| => Field(fields[i].key, Clone(fields[i].value))))
    case _ => j
  }

  /** `stripVolatile`: what the in-place deletion leaves of the clone. */
  function Strip(j: Json): (s: Json)
    decreases j, 1
  {
    match j
    case Arr(items) => Arr(seq(|items|, i requires 0 <= i < |items| => Strip(items[i])))
    case Obj(fields) => Obj(StripFields(j, |fields|))
    case _ => j
  }

  /** The first `n` fields without the volatile ones, the others stripped inside. */
  function StripFields(j: Json, n: nat): (kept: seq<Field>)
    requires j.Obj? && n <= |j.fields|
    decreases j, 0, n
  {
    if n == 0 then []
    else
      var f := j.fields[n - 1];
      StripFields(j, n - 1) + (if f.key in VOLATILE_KEYS then [] else [Field(f.key, Strip(f.value))])
  }

  function Normalize(j: Json): (n: Json) { Strip(Clone(j)) }

  /** `stripVolatile`: by the kind of node. */
  method StripVolatile(node: Json) returns (stripped: Json)
    ensures stripped == Strip(node)
    decreases node, 1
  {
    if node.Arr? {
      stripped := StripItems(node);
    } else if node.Obj? {
      stripped := StripKeys(node);
    } else {
      stripped := node;
    }
  }

  method StripItems(node: Json) returns (stripped: Json)
    requires node.Arr?
    ensures stripped == Strip(node)
    decreases node, 0
  {
    var items := node.items;
    for i := 0 to |node.items|
      invariant |items| == |node.items|
      invariant forall k :: 0 <= k < i ==> items[k] == Strip(node.items[k])
      invariant forall k :: i <= k < |items| ==> items[k] == node.items[k]
    {
      var child := StripVolatile(node.items[i]);
      items := items[i := child];
    }
    stripped := Arr(items);
    assert items == Strip(node).items;
  }

  /** Goes through the keys it found at the start, deleting the volatile ones as it goes. */
  method StripKeys(node: Json) returns (stripped: Json)
    requires node.Obj?
    ensures stripped == Strip(node)
    decreases node, 0
  {
    hide Strip, VOLATILE_KEYS;
    var fields, place := node.fields, 0;
    assert node.fields[0..] == node.fields;
    for i := 0 to |node.fields|
      invariant place == |StripFields(node, i)|
      invariant fields == StripFields(node, i) + node.fields[i..]
    {
      var f := node.fields[i];
      AtPlace(StripFields(node, i), node.fields[i..]);
      assert node.fields[i..][1..] == node.fields[i + 1..];
      if f.key in VOLATILE_KEYS {
        fields := fields[..place] + fields[place + 1..];
      } else {
        var child := StripVolatile(f.value);
        fields := fields[place := Field(f.key, child)];
        place := place + 1;
      }
    }
    StripOfObject(node);
    stripped := Obj(fields);
    assert node.fields[|node.fields|..] == [];
  }

  /** What deleting or overwriting the first of the fields yet to visit leaves. */
  lemma AtPlace(done: seq<Field>, rest: seq<Field>)
    requires rest != []
    ensures (done + rest)[|done|] == rest[0]
    ensures (done + rest)[..|done|] + (done + rest)[|done| + 1..] == done + rest[1..]
    ensures forall f :: (done + rest)[|done| := f] == done + [f] + rest[1..]
  {
  }

  lemma StripOfObject(j: Json)
    requires j.Obj?
    ensures Strip(j) == Obj(StripFields(j, |j.fields|))
  {
  }

  /** `normalizePayload`: the clone is stripped, the payload itself is left alone. */
  method NormalizePayload(payload: Json) returns (normalized: Json)
    ensures normalized == Normalize(payload)
  {
    normalized := StripVolatile(Clone(payload));
  }

  // ---- what is kept ----------------------------------------------------------------

  lemma {:induction false} StripFieldsMembers(j: Json, n: nat)
    requires j.Obj? && n <= |j.fields|
    ensures forall i :: 0 <= i < n && j.fields[i].key !in VOLATILE_KEYS
              ==> Field(j.fields[i].key, Strip(j.fields[i].value)) in StripFields(j, n)
    ensures forall f :: f in StripFields(j, n) ==>
              exists i :: 0 <= i < n && j.fields[i].key !in VOLATILE_KEYS
                          && f == Field(j.fields[i].key, Strip(j.fields[i].value))
    ensures DistinctKeys(j.fields) ==> DistinctKeys(StripFields(j, n))
  {
    hide Strip;
    if n > 0 {
      StripFieldsMembers(j, n - 1);
      var before := StripFields(j, n - 1);
      var f := j.fields[n - 1];
      if f.key !in VOLATILE_KEYS && DistinctKeys(j.fields) {
        forall k | 0 <= k < |before|
          ensures before[k].key != f.key
        {
          assert before[k] in before;
        }
      }
    }
  }

  lemma {:induction false} StripWellFormed(j: Json)
    requires WellFormed(j)
    ensures WellFormed(Strip(j))
  {
    match j
    case Arr(items) =>
      forall i | 0 <= i < |items| ensures WellFormed(Strip(items[i])) { StripWellFormed(items[i]); }
    case Obj(fields) =>
      StripFieldsMembers(j, |fields|);
      var kept := StripFields(j, |fields|);
      forall k | 0 <= k < |kept|
        ensures WellFormed(kept[k].value)
      {
        assert kept[k] in kept;
        var i :| 0 <= i < |fields| && kept[k] == Field(fields[i].key, Strip(fields[i].value));
        StripWellFormed(fields[i].value);
      }
    case _ =>
  }

  lemma {:induction false} CloneWellFormed(j: Json)
    requires WellFormed(j)
    ensures WellFormed(Clone(j))
  {
    match j
    case Arr(items) =>
      forall i | 0 <= i < |items| ensures WellFormed(Clone(items[i])) { CloneWellFormed(items[i]); }
    case Obj(fields) =>
      forall i | 0 <= i < |fields| ensures WellFormed(Clone(fields[i].value)) { CloneWellFormed(fields[i].value); }
    case _ =>
  }

  /** A path that passes through no volatile key. */
  predicate Stable(path: seq<Step>)
  {
    forall i :: 0 <= i < |path| && path[i].Key? ==> path[i].key !in VOLATILE_KEYS
  }

  lemma GetStripped(j: Json, key: string)
    requires j.Obj? && WellFormed(j)
    ensures HasKey(StripFields(j, |j.fields|), key) <==> HasKey(j.fields, key) && key !in VOLATILE_KEYS
    ensures HasKey(StripFields(j, |j.fields|), key)
        ==> Get(StripFields(j, |j.fields|), key) == Strip(Get(j.fields, key))
  {
    hide Strip, StripFields;
    var kept := StripFields(j, |j.fields|);
    StripFieldsMembers(j, |j.fields|);
    if HasKey(kept, key) {
      var k :| 0 <= k < |kept| && kept[k].key == key;
      assert kept[k] in kept;
      var i :| 0 <= i < |j.fields| && j.fields[i].key !in VOLATILE_KEYS
               && kept[k] == Field(j.fields[i].key, Strip(j.fields[i].value));
      GetOf(kept, k);
      GetOf(j.fields, i);
    }
    if HasKey(j.fields, key) && key !in VOLATILE_KEYS {
      var i :| 0 <= i < |j.fields| && j.fields[i].key == key;
      var f := Field(key, Strip(j.fields[i].value));
      assert f in kept;
      var k :| 0 <= k < |kept| && kept[k] == f;
    }
  }

  /**
   * Exactly the four keys go, at every depth: a path through one of them leads nowhere
   * afterwards, and any other path leads to what it led to, itself stripped.
   */
  lemma {:induction false} StripAt(j: Json, path: seq<Step>)
    requires WellFormed(j)
    ensures At(Strip(j), path)
         == if !Stable(path) || At(j, path).None? then None else Some(Strip(At(j, path).value))
    decreases path
  {
    if path != [] {
      assert Stable(path) <==> Stable(path[..1]) && Stable(path[1..]);
      match path[0]
      case Key(key) =>
        assert Stable(path[..1]) <==> key !in VOLATILE_KEYS;
        if j.Obj? {
          GetStripped(j, key);
          if HasKey(j.fields, key) && key !in VOLATILE_KEYS {
            GetWellFormed(j, key);
            StripAt(Get(j.fields, key), path[1..]);
          }
        }
      case Index(i) =>
        assert Stable(path[..1]);
        if j.Arr? && i < |j.items| {
          StripAt(j.items[i], path[1..]);
        }
    }
  }

  lemma GetWellFormed(j: Json, key: string)
    requires j.Obj? && WellFormed(j) && HasKey(j.fields, key)
    ensures WellFormed(Get(j.fields, key))
  {
  }

  /** The clone reaches the same paths, to the clone of what was there. */
  lemma {:induction false} CloneAt(j: Json, path: seq<Step>)
    requires WellFormed(j)
    ensures At(Clone(j), path) == if At(j, path).None? then None else Some(Clone(At(j, path).value))
    decreases path
  {
    if path != [] {
      match path[0]
      case Key(key) =>
        if j.Obj? {
          GetCloned(j, key);
          if HasKey(j.fields, key) {
            GetWellFormed(j, key);
            CloneAt(Get(j.fields, key), path[1..]);
          }
        }
      case Index(i) =>
        if j.Arr? && i < |j.items| {
          CloneAt(j.items[i], path[1..]);
        }
    }
  }

  lemma GetCloned(j: Json, key: string)
    requires j.Obj? && WellFormed(j)
    ensures HasKey(Clone(j).fields, key) <==> HasKey(j.fields, key)
    ensures HasKey(j.fields, key) ==> Get(Clone(j).fields, key) == Clone(Get(j.fields, key))
  {
    var cloned := Clone(j).fields;
    CloneWellFormed(j);
    assert forall i :: 0 <= i < |j.fields| ==> cloned[i] == Field(j.fields[i].key, Clone(j.fields[i].value));
    if HasKey(j.fields, key) {
      var i :| 0 <= i < |j.fields| && j.fields[i].key == key;
      assert cloned[i].key == key;
      GetOf(j.fields, i);
      GetOf(cloned, i);
    }
  }

  /** The whole normalization, path by path: volatile paths go, every other value is only cloned. */
  lemma NormalizeAt(j: Json, path: seq<Step>)
    requires WellFormed(j)
    ensures At(Normalize(j), path)
         == if !Stable(path) || At(j, path).None? then None else Some(Normalize(At(j, path).value))
  {
    CloneWellFormed(j);
    CloneAt(j, path);
    StripAt(Clone(j), path);
  }

  // ---- idempotence -----------------------------------------------------------------

  lemma {:induction false} CloneTwice(j: Json)
    ensures Clone(Clone(j)) == Clone(j)
  {
    match j
    case Arr(items) =>
      forall i | 0 <= i < |items| ensures Clone(Clone(items[i])) == Clone(items[i]) { CloneTwice(items[i]); }
      assert Clone(Clone(j)).items == Clone(j).items;
    case Obj(fields) =>
      forall i | 0 <= i < |fields|
        ensures Clone(Clone(fields[i].value)) == Clone(fields[i].value)
      {
        CloneTwice(fields[i].value);
      }
      assert Clone(Clone(j)).fields == Clone(j).fields;
    case _ =>
  }

  /** No volatile key is left at any depth. */
  predicate Clean(j: Json)
  {
    match j
    case Arr(items) => forall i :: 0 <= i < |items| ==> Clean(items[i])
    case Obj(fields) => forall i :: 0 <= i < |fields| ==> fields[i].key !in VOLATILE_KEYS && Clean(fields[i].value)
    case _ => true
  }

  lemma {:induction false} StripIsClean(j: Json)
    ensures Clean(Strip(j))
  {
    match j
    case Arr(items) =>
      forall i | 0 <= i < |items| ensures Clean(Strip(items[i])) { StripIsClean(items[i]); }
    case Obj(fields) =>
      StripFieldsMembers(j, |fields|);
      var kept := StripFields(j, |fields|);
      forall k | 0 <= k < |kept|
        ensures kept[k].key !in VOLATILE_KEYS && Clean(kept[k].value)
      {
        assert kept[k] in kept;
        var i :| 0 <= i < |fields| && fields[i].key !in VOLATILE_KEYS
                 && kept[k] == Field(fields[i].key, Strip(fields[i].value));
        StripIsClean(fields[i].value);
      }
    case _ =>
  }

  lemma {:induction false} StripOfClean(j: Json)
    requires Clean(j)
    ensures Strip(j) == j
    decreases j, 1
  {
    match j
    case Arr(items) =>
      forall i | 0 <= i < |items| ensures Strip(items[i]) == items[i] { StripOfClean(items[i]); }
      assert Strip(j).items == items;
    case Obj(fields) =>
      StripFieldsOfClean(j, |fields|);
      assert fields[..|fields|] == fields;
    case _ =>
  }

  lemma {:induction false} StripFieldsOfClean(j: Json, n: nat)
    requires j.Obj? && Clean(j) && n <= |j.fields|
    ensures StripFields(j, n) == j.fields[..n]
    decreases j, 0, n
  {
    if n > 0 {
      StripFieldsOfClean(j, n - 1);
      StripOfClean(j.fields[n - 1].value);
      assert j.fields[n - 1] == Field(j.fields[n - 1].key, Strip(j.fields[n - 1].value));
    }
  }

  /** Cloning and stripping commute. */
  lemma {:induction false} CloneStrip(j: Json)
    ensures Clone(Strip(j)) == Strip(Clone(j))
    decreases j, 1
  {
    match j
    case Arr(items) =>
      forall i | 0 <= i < |items| ensures Clone(Strip(items[i])) == Strip(Clone(items[i])) { CloneStrip(items[i]); }
      assert Clone(Strip(j)).items == Strip(Clone(j)).items;
    case Obj(fields) =>
      CloneStripFields(j, |fields|);
      var kept := StripFields(j, |fields|);
      assert Clone(Obj(kept))
          == Obj(seq(|kept|, i requires 0 <= i < |kept| => Field(kept[i].key, Clone(kept[i].value))));
    case _ =>
  }

  lemma {:induction false} CloneStripFields(j: Json, n: nat)
    requires j.Obj? && n <= |j.fields|
    ensures var kept := StripFields(j, n);
            seq(|kept|, i requires 0 <= i < |kept| => Field(kept[i].key, Clone(kept[i].value)))
            == StripFields(Clone(j), n)
    decreases j, 0, n
  {
    if n > 0 {
      CloneStripFields(j, n - 1);
      CloneStrip(j.fields[n - 1].value);
      assert Clone(j).fields[n - 1] == Field(j.fields[n - 1].key, Clone(j.fields[n - 1].value));
    }
  }

  /** Normalizing a normalized payload changes nothing. */
  lemma NormalizeTwice(j: Json)
    ensures Normalize(Normalize(j)) == Normalize(j)
  {
    CloneStrip(Clone(j));
    CloneTwice(j);
    StripIsClean(Clone(j));
    StripOfClean(Strip(Clone(j)));
  }

  // ---- volatile edits --------------------------------------------------------------

  /** An object with one more field at some position. */
  function InsertField(fields: seq<Field>, at: nat, f: Field): (longer: seq<Field>)
    requires at <= |fields|
  {
    fields[..at] + [f] + fields[at..]
  }

  /** `Strip` of the first `n` fields depends on those fields only. */
  lemma {:induction false} StripFieldsLocal(a: Json, b: Json, n: nat)
    requires a.Obj? && b.Obj? && n <= |a.fields| && n <= |b.fields|
    requires forall i :: 0 <= i < n ==> a.fields[i] == b.fields[i]
    ensures StripFields(a, n) == StripFields(b, n)
  {
    if n > 0 {
      StripFieldsLocal(a, b, n - 1);
    }
  }

  /** Adding a volatile field anywhere in an object leaves its stripped form alone. */
  lemma {:induction false} VolatileFieldIgnored(fields: seq<Field>, at: nat, f: Field, n: nat)
    requires at <= |fields| && f.key in VOLATILE_KEYS && at <= n <= |fields|
    ensures StripFields(Obj(InsertField(fields, at, f)), n + 1) == StripFields(Obj(fields), n)
  {
    var longer := InsertField(fields, at, f);
    if n == at {
      assert longer[at] == f;
      StripFieldsLocal(Obj(longer), Obj(fields), at);
    } else {
      VolatileFieldIgnored(fields, at, f, n - 1);
      assert longer[n] == fields[n - 1];
    }
  }

  /** The payload with the value at a path replaced. */
  function Put(j: Json, path: seq<Step>, value: Json): (r: Json)
    requires At(j, path).Some?
    decreases path
  {
    if path == [] then value
    else
      match path[0]
      case Key(key) => Obj(PutKey(j.fields, key, Put(Get(j.fields, key), path[1..], value)))
      case Index(i) => Arr(j.items[i := Put(j.items[i], path[1..], value)])
  }

  function PutKey(fields: seq<Field>, key: string, value: Json): (r: seq<Field>)
    requires HasKey(fields, key)
    ensures |r| == |fields|
  {
    if fields[0].key == key then [Field(key, value)] + fields[1..] else [fields[0]] + PutKey(fields[1..], key, value)
  }

  lemma {:induction false} PutKeyEffect(fields: seq<Field>, key: string, value: Json) returns (i: nat)
    requires HasKey(fields, key)
    ensures i < |fields| && fields[i] == Field(key, Get(fields, key))
    ensures PutKey(fields, key, value) == fields[i := Field(key, value)]
  {
    if fields[0].key == key {
      i := 0;
    } else {
      var inner := PutKeyEffect(fields[1..], key, value);
      i := inner + 1;
      hide PutKey;
      assert fields[i := Field(key, value)] == [fields[0]] + fields[1..][inner := Field(key, value)];
    }
  }

  lemma {:induction false} StripFieldReplaced(fields: seq<Field>, i: nat, f: Field, n: nat)
    requires i < |fields| && n <= |fields| && f.key == fields[i].key && Strip(f.value) == Strip(fields[i].value)
    ensures StripFields(Obj(fields[i := f]), n) == StripFields(Obj(fields), n)
  {
    if n > 0 {
      StripFieldReplaced(fields, i, f, n - 1);
    }
  }

  /** Replacing a part by one that strips alike keeps the whole's stripped form. */
  lemma {:induction false} PutKeepsStrip(j: Json, path: seq<Step>, value: Json)
    requires At(j, path).Some? && Strip(value) == Strip(At(j, path).value)
    ensures Strip(Put(j, path, value)) == Strip(j)
    decreases path
  {
    if path != [] {
      match path[0]
      case Key(key) =>
        var inner := Get(j.fields, key);
        PutKeepsStrip(inner, path[1..], value);
        var replaced := Put(inner, path[1..], value);
        var i := PutKeyEffect(j.fields, key, replaced);
        StripFieldReplaced(j.fields, i, Field(key, replaced), |j.fields|);
      case Index(i) =>
        PutKeepsStrip(j.items[i], path[1..], value);
        assert Strip(Put(j, path, value)).items == Strip(j).items;
    }
  }

  /**
   * A volatile field added to any object of the payload, at any position and with any value,
   * does not show in the normalized payload.
   */
  lemma AddVolatile(j: Json, path: seq<Step>, at: nat, f: Field)
    requires At(j, path).Some? && At(j, path).value.Obj? && at <= |At(j, path).value.fields|
    requires f.key in VOLATILE_KEYS
    ensures Normalize(Put(j, path, Obj(InsertField(At(j, path).value.fields, at, f)))) == Normalize(j)
  {
    hide At, Put, Clone, VOLATILE_KEYS;
    var fields := At(j, path).value.fields;
    var longer := Obj(InsertField(fields, at, f));
    VolatileFieldIgnored(fields, at, f, |fields|);
    PutKeepsStrip(j, path, longer);
    CloneStrip(j);
    CloneStrip(Put(j, path, longer));
  }

  /** Altering the value under a volatile key does not show either. */
  lemma AlterVolatile(j: Json, path: seq<Step>, i: nat, value: Json)
    requires At(j, path).Some? && At(j, path).value.Obj? && i < |At(j, path).value.fields|
    requires At(j, path).value.fields[i].key in VOLATILE_KEYS
    ensures var fields := At(j, path).value.fields;
            Normalize(Put(j, path, Obj(fields[i := Field(fields[i].key, value)]))) == Normalize(j)
  {
    hide At, Put, Clone, Strip;
    var fields := At(j, path).value.fields;
    var altered := Obj(fields[i := Field(fields[i].key, value)]);
    VolatileFieldAltered(fields, i, value);
    PutKeepsStrip(j, path, altered);
    CloneStrip(j);
    CloneStrip(Put(j, path, altered));
  }

  lemma VolatileFieldAltered(fields: seq<Field>, i: nat, value: Json)
    requires i < |fields| && fields[i].key in VOLATILE_KEYS
    ensures Strip(Obj(fields[i := Field(fields[i].key, value)])) == Strip(Obj(fields))
  {
    var altered := fields[i := Field(fields[i].key, value)];
    var without := fields[..i] + fields[i + 1..];
    hide VOLATILE_KEYS;
    VolatileFieldIgnored(without, i, fields[i], |without|);
    VolatileFieldIgnored(without, i, Field(fields[i].key, value), |without|);
    assert InsertField(without, i, fields[i]) == fields;
    assert InsertField(without, i, Field(fields[i].key, value)) == altered;
  }
}
