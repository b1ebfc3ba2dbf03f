/** What the parity verdict's agreement means on the payloads themselves, before any cloning. */
module JsonAgreement {
  import opened Json
  import opened JsonNormalize
  import opened ParityCase

  /** A number as its JSON text has it: -0 is 0, and an infinity is null. */
  function AsWritten(j: Json): (w: Json)
  {
    match j
    case Num(NegativeZero) => Num(Finite(0.0))
    case Num(Infinite(_)) => Null
    case _ => j
  }

  /** Structural equality, but for the numbers that print alike. */
  predicate SameWritten(a: Json, b: Json)
  {
    match (a, b)
    case (Arr(xs), Arr(ys)) => |xs| == |ys| && forall i :: 0 <= i < |xs| ==> SameWritten(xs[i], ys[i])
    case (Obj(xs), Obj(ys)) =>
      && (forall i :: 0 <= i < |xs| ==> HasKey(ys, xs[i].key) && SameWritten(xs[i].value, Get(ys, xs[i].key)))
      && (forall i :: 0 <= i < |ys| ==> HasKey(xs, ys[i].key))
    case _ => AsWritten(a) == AsWritten(b)
  }

  /** No -0 and no infinity anywhere. */
  predicate NumbersPrint(j: Json)
  {
    match j
    case Num(n) => n.Finite?
    case Arr(items) => forall i :: 0 <= i < |items| ==> NumbersPrint(items[i])
    case Obj(fields) => forall i :: 0 <= i < |fields| ==> NumbersPrint(fields[i].value)
    case _ => true
  }

  lemma {:induction false} ClonesSame(a: Json, b: Json)
    requires WellFormed(a) && WellFormed(b)
    ensures Same(Clone(a), Clone(b)) <==> SameWritten(a, b)
    decreases a
  {
    match (a, b)
    case (Arr(xs), Arr(ys)) =>
      forall i | 0 <= i < |xs| && i < |ys|
        ensures Same(Clone(a).items[i], Clone(b).items[i]) <==> SameWritten(xs[i], ys[i])
      {
        ClonesSame(xs[i], ys[i]);
      }
    case (Obj(xs), Obj(ys)) =>
      FieldsSame(a, b);
    case _ =>
  }

  lemma {:induction false} FieldsSame(a: Json, b: Json)
    requires a.Obj? && b.Obj? && WellFormed(a) && WellFormed(b)
    ensures Same(Clone(a), Clone(b)) <==> SameWritten(a, b)
    decreases a, 0
  {
    var xs, ys := a.fields, b.fields;
    var cs, ds := Clone(a).fields, Clone(b).fields;
    forall i | 0 <= i < |xs|
      ensures cs[i].key == xs[i].key && (HasKey(ds, cs[i].key) <==> HasKey(ys, xs[i].key))
      ensures HasKey(ys, xs[i].key) ==>
                (Same(cs[i].value, Get(ds, cs[i].key)) <==> SameWritten(xs[i].value, Get(ys, xs[i].key)))
    {
      GetCloned(b, xs[i].key);
      if HasKey(ys, xs[i].key) {
        GetWellFormed(b, xs[i].key);
        ClonesSame(xs[i].value, Get(ys, xs[i].key));
      }
    }
    forall i | 0 <= i < |ys|
      ensures ds[i].key == ys[i].key && (HasKey(cs, ds[i].key) <==> HasKey(xs, ys[i].key))
    {
      GetCloned(a, ys[i].key);
    }
  }

  /** Two payloads agree exactly when, without their volatile keys, they are the same as written. */
  lemma AgreeIff(a: Json, b: Json)
    requires WellFormed(a) && WellFormed(b)
    ensures Agree(a, b) <==> SameWritten(Strip(a), Strip(b))
  {
    hide Same, WellFormed, Clone, Strip;
    CloneStrip(a);
    CloneStrip(b);
    StripWellFormed(a);
    StripWellFormed(b);
    ClonesSame(Strip(a), Strip(b));
  }

  lemma {:induction false} SameAsWritten(a: Json, b: Json)
    requires NumbersPrint(a) && NumbersPrint(b)
    ensures SameWritten(a, b) <==> Same(a, b)
  {
    match (a, b)
    case (Arr(xs), Arr(ys)) =>
      forall i | 0 <= i < |xs| && i < |ys|
        ensures SameWritten(xs[i], ys[i]) <==> Same(xs[i], ys[i])
      {
        SameAsWritten(xs[i], ys[i]);
      }
    case (Obj(xs), Obj(ys)) =>
      forall i | 0 <= i < |xs| && HasKey(ys, xs[i].key)
        ensures SameWritten(xs[i].value, Get(ys, xs[i].key)) <==> Same(xs[i].value, Get(ys, xs[i].key))
      {
        SameAsWritten(xs[i].value, Get(ys, xs[i].key));
      }
    case _ =>
  }

  lemma {:induction false} StripPrints(j: Json)
    requires NumbersPrint(j)
    ensures NumbersPrint(Strip(j))
    decreases j, 1
  {
    match j
    case Arr(items) =>
      forall i | 0 <= i < |items| ensures NumbersPrint(Strip(items[i])) { StripPrints(items[i]); }
    case Obj(fields) => StripFieldsPrint(j, |fields|);
    case _ =>
  }

  lemma {:induction false} StripFieldsPrint(j: Json, n: nat)
    requires j.Obj? && n <= |j.fields| && NumbersPrint(j)
    ensures forall i :: 0 <= i < |StripFields(j, n)| ==> NumbersPrint(StripFields(j, n)[i].value)
    decreases j, 0, n
  {
    if n > 0 {
      StripFieldsPrint(j, n - 1);
      StripPrints(j.fields[n - 1].value);
    }
  }

  /** Where every number prints, agreement is exactly equality modulo the four keys. */
  lemma AgreeIsSameStripped(a: Json, b: Json)
    requires WellFormed(a) && WellFormed(b) && NumbersPrint(a) && NumbersPrint(b)
    ensures Agree(a, b) <==> Same(Strip(a), Strip(b))
  {
    hide Same, SameWritten, NumbersPrint, Strip;
    AgreeIff(a, b);
    StripPrints(a);
    StripPrints(b);
    SameAsWritten(Strip(a), Strip(b));
  }

  /** Elsewhere it is not: these payloads differ, and agree. */
  lemma AgreeThoughDifferent(negative: bool)
    ensures var zero, minusZero := Num(Finite(0.0)), Num(NegativeZero);
            Agree(zero, minusZero) && !Same(Strip(zero), Strip(minusZero))
    ensures Agree(Null, Num(Infinite(negative))) && !Same(Strip(Null), Strip(Num(Infinite(negative))))
  {
    AgreeIff(Num(Finite(0.0)), Num(NegativeZero));
    AgreeIff(Null, Num(Infinite(negative)));
  }
}
