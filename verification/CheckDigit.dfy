/**
 * `checkDigitMatches` of scripts/lmdw-crawl-probe.ts, against the GS1 General Specifications
 * (section 7.9): weights 3 and 1 alternate leftwards from the digit before the check digit.
 */
module CheckDigit {

  const GTIN_LENGTH: nat := 14

  predicate IsDigit(c: char) { '0' <= c <= '9' }

  predicate IsDigits(s: string)
  {
    s != "" && forall i :: 0 <= i < |s| ==> IsDigit(s[i])
  }

  function Value(c: char): (v: int)
    ensures IsDigit(c) ==> 0 <= v <= 9
  {
    c as int - '0' as int
  }

  function Values(s: string): (vs: seq<int>)
    ensures |vs| == |s| && forall i :: 0 <= i < |s| ==> vs[i] == Value(s[i])
  {
    seq(|s|, i requires 0 <= i < |s| => Value(s[i]))
  }

  function Zeros(n: nat): (s: string)
    ensures |s| == n && forall i :: 0 <= i < n ==> s[i] == '0'
  {
    seq(n, _ => '0')
  }

  /** `padStart(14, '0')`; a longer text stays as it is. */
  function PadStart(s: string): (padded: string)
    ensures |padded| >= GTIN_LENGTH && (|s| <= GTIN_LENGTH ==> |padded| == GTIN_LENGTH)
  {
    if |s| >= GTIN_LENGTH then s else Zeros(GTIN_LENGTH - |s|) + s
  }

  /** The standard's sum: the last value weighs `w`, the one before it the other of 1 and 3, and so on. */
  function Weighted(vs: seq<int>, w: int): (sum: int)
  {
    if vs == [] then 0 else vs[|vs| - 1] * w + Weighted(vs[..|vs| - 1], 4 - w)
  }

  /** The weight of the position `k` places before the last. */
  function WeightAt(k: nat, w: int): (weight: int)
  {
    if k % 2 == 0 then w else 4 - w
  }

  /** The standard's verdict on a digit string: the sum over all digits is a multiple of ten. */
  predicate Valid(s: string)
  {
    IsDigits(s) && Weighted(Values(s), 1) % 10 == 0
  }

  /** What the script accepts: texts beyond fourteen digits are judged by their first fourteen. */
  predicate Accepts(s: string)
  {
    IsDigits(s) && Valid(PadStart(s)[..GTIN_LENGTH])
  }

  lemma WeightedStep(vs: seq<int>, i: nat, w: int)
    requires i < |vs|
    ensures Weighted(vs[..i + 1], w) == vs[i] * w + Weighted(vs[..i], 4 - w)
    ensures Weighted([], 4 - w) == 0
  {
    assert vs[..i + 1][..i] == vs[..i];
  }

  lemma Completes(sum: int, v: int)
    requires 0 <= v <= 9
    ensures (10 - sum % 10) % 10 == v <==> (v + sum) % 10 == 0
  {
  }

  method CheckDigitMatches(digits: string) returns (ok: bool)
    ensures ok <==> Accepts(digits)
  {
    hide Weighted, Zeros, Values, PadStart;
    if !IsDigits(digits) {
      return false;
    }
    var padded := PadStart(digits);
    PaddedDigits(digits);
    ghost var judged := padded[..GTIN_LENGTH];
    ghost var vs := Values(judged);
    WeightedStep(vs, 0, 3);
    assert vs[..0] == [];
    var sum := 0;
    for i := 0 to 13
      invariant sum == Weighted(vs[..i], if i % 2 == 0 then 1 else 3)
    {
      WeightedStep(vs, i, if i % 2 == 0 then 3 else 1);
      sum := sum + Value(padded[i]) * (if i % 2 == 0 then 3 else 1);
    }
    WeightedStep(vs, 13, 1);
    assert vs[..14] == vs;
    Completes(sum, Value(padded[13]));
    ok := (10 - sum % 10) % 10 == Value(padded[13]);
  }

  lemma PaddedDigits(s: string)
    requires IsDigits(s)
    ensures IsDigits(PadStart(s)[..GTIN_LENGTH])
  {
    var judged := PadStart(s)[..GTIN_LENGTH];
    var n := if |s| >= GTIN_LENGTH then 0 else GTIN_LENGTH - |s|;
    forall i | 0 <= i < GTIN_LENGTH
      ensures IsDigit(judged[i])
    {
      assert judged[i] == if i < n then '0' else s[i - n];
    }
  }

  // ---- The sum under edits ----

  lemma WeightShift(k: nat, w: int)
    ensures WeightAt(0, w) == w
    ensures WeightAt(k + 1, w) == WeightAt(k, 4 - w)
  {
  }

  lemma {:induction false} WeightedUpdate(vs: seq<int>, i: nat, v: int, w: int)
    requires i < |vs|
    ensures Weighted(vs[i := v], w) == Weighted(vs, w) + (v - vs[i]) * WeightAt(|vs| - 1 - i, w)
  {
    hide WeightAt;
    var last := |vs| - 1;
    if i == last {
      WeightShift(0, w);
      assert vs[i := v][..last] == vs[..last];
    } else {
      WeightShift(last - 1 - i, w);
      WeightedUpdate(vs[..last], i, v, 4 - w);
      assert vs[i := v][..last] == vs[..last][i := v];
    }
  }

  lemma {:induction false} LeadingZeros(n: nat, vs: seq<int>, w: int)
    ensures Weighted(Values(Zeros(n)) + vs, w) == Weighted(vs, w)
  {
    var all := Values(Zeros(n)) + vs;
    if vs == [] {
      if n > 0 {
        assert all[..n - 1] == Values(Zeros(n - 1)) + vs;
        LeadingZeros(n - 1, vs, 4 - w);
      }
    } else {
      assert all[..|all| - 1] == Values(Zeros(n)) + vs[..|vs| - 1];
      LeadingZeros(n, vs[..|vs| - 1], 4 - w);
    }
  }

  /** Zero padding up to fourteen digits never changes the verdict. */
  lemma PaddingIsNeutral(n: nat, s: string)
    requires n + |s| <= 14 && s != ""
    ensures Valid(Zeros(n) + s) <==> Valid(s)
    ensures Accepts(Zeros(n) + s) <==> Accepts(s)
    ensures Accepts(s) <==> Valid(s)
  {
    ValidPadded(n, s);
    ValidPadded(GTIN_LENGTH - |s|, s);
    assert PadStart(s)[..GTIN_LENGTH] == Zeros(GTIN_LENGTH - |s|) + s;
    assert PadStart(Zeros(n) + s)[..GTIN_LENGTH] == Zeros(GTIN_LENGTH - |s|) + s;
  }

  lemma ValidPadded(n: nat, s: string)
    requires s != ""
    ensures IsDigits(Zeros(n) + s) <==> IsDigits(s)
    ensures Valid(Zeros(n) + s) <==> Valid(s)
  {
    hide Zeros, Values, Weighted;
    var padded := Zeros(n) + s;
    assert forall i :: 0 <= i < |s| ==> padded[n + i] == s[i];
    assert Values(padded) == Values(Zeros(n)) + Values(s);
    LeadingZeros(n, Values(s), 1);
  }

  /** Up to fourteen digits the script decides exactly what the standard does. */
  lemma AgreesWithStandard(s: string)
    requires |s| <= 14
    ensures Accepts(s) <==> Valid(s)
  {
    if s != "" {
      PaddingIsNeutral(0, s);
    }
  }

  /** Every digit of a body of up to thirteen has exactly one check digit. */
  lemma OneCheckDigit(body: string, c: char)
    requires |body| < 14 && IsDigit(c)
    requires forall i :: 0 <= i < |body| ==> IsDigit(body[i])
    ensures Accepts(body + [c]) <==> Value(c) == (10 - Weighted(Values(body), 3) % 10) % 10
  {
    hide Accepts;
    AgreesWithStandard(body + [c]);
    assert Values(body + [c])[..|body|] == Values(body);
  }

  lemma OneMore(front: seq<int>, v: int, w: int)
    ensures Weighted(front + [v], w) == v * w + Weighted(front, 4 - w) && Weighted([], w) == 0
  {
    assert (front + [v])[..|front|] == front;
  }

  /** The eight-digit example of many a textbook, and with its last digit changed. */
  lemma KnownCode()
    ensures Accepts("96385074") && !Accepts("96385075")
  {
    hide Weighted, Accepts;
    var vs := [9, 6, 3, 8, 5, 0, 7];
    OneMore([], 9, 3);
    OneMore([9], 6, 1);
    OneMore([9, 6], 3, 3);
    OneMore([9, 6, 3], 8, 1);
    OneMore([9, 6, 3, 8], 5, 3);
    OneMore([9, 6, 3, 8, 5], 0, 1);
    OneMore([9, 6, 3, 8, 5, 0], 7, 3);
    assert [] + [9] == [9] && [9] + [6] == [9, 6] && [9, 6] + [3] == [9, 6, 3];
    assert [9, 6, 3] + [8] == [9, 6, 3, 8] && [9, 6, 3, 8] + [5] == [9, 6, 3, 8, 5];
    assert [9, 6, 3, 8, 5] + [0] == [9, 6, 3, 8, 5, 0] && [9, 6, 3, 8, 5, 0] + [7] == vs;
    assert Weighted(vs, 3) == 9 * 3 + 6 + 3 * 3 + 8 + 5 * 3 + 0 + 7 * 3;
    assert Values("9638507") == vs;
    OneCheckDigit("9638507", '4');
    OneCheckDigit("9638507", '5');
    assert "9638507" + ['4'] == "96385074" && "9638507" + ['5'] == "96385075";
  }

  /** Every change of one digit is caught. */
  lemma OneDigitChanged(s: string, i: nat, c: char)
    requires |s| <= 14 && Accepts(s)
    requires i < |s| && IsDigit(c) && c != s[i]
    ensures !Accepts(s[i := c])
  {
    hide Accepts, Weighted, WeightAt;
    AgreesWithStandard(s);
    AgreesWithStandard(s[i := c]);
    assert Values(s[i := c]) == Values(s)[i := Value(c)];
    WeightedUpdate(Values(s), i, Value(c), 1);
    NoMultiple(Weighted(Values(s), 1), Value(c) - Value(s[i]), |s| - 1 - i);
  }

  /** Neither a weighted digit nor twice a digit other than five is a multiple of ten. */
  lemma NoMultiple(sum: int, d: int, k: nat)
    requires sum % 10 == 0 && -9 <= d <= 9 && d != 0
    ensures (sum + d * WeightAt(k, 1)) % 10 != 0
    ensures (sum + 2 * d) % 10 == 0 <==> d == 5 || d == -5
    ensures (sum - 2 * d) % 10 == 0 <==> d == 5 || d == -5
  {
    assert d * WeightAt(k, 1) == d || d * WeightAt(k, 1) == 3 * d;
    hide WeightAt;
    MultiplesOfTen(sum, d * WeightAt(k, 1));
    MultiplesOfTen(sum, 2 * d);
    MultiplesOfTen(sum, -2 * d);
  }

  /** A multiple of ten stays one exactly by adding another, which within thirty is one of five. */
  lemma MultiplesOfTen(sum: int, e: int)
    requires sum % 10 == 0 && -30 < e < 30
    ensures (sum + e) % 10 == 0 <==> e == 0 || e == 10 || e == 20 || e == -10 || e == -20
  {
  }

  /** A swap of unequal neighbours is caught unless they differ by five. */
  lemma NeighboursSwapped(s: string, i: nat)
    requires |s| <= 14 && Accepts(s)
    requires i + 1 < |s| && s[i] != s[i + 1]
    ensures Accepts(s[i := s[i + 1]][i + 1 := s[i]])
       <==> Value(s[i]) - Value(s[i + 1]) == 5 || Value(s[i + 1]) - Value(s[i]) == 5
  {
    hide Accepts, Weighted;
    var vs, swapped := Values(s), s[i := s[i + 1]][i + 1 := s[i]];
    AgreesWithStandard(s);
    AgreesWithStandard(swapped);
    assert Values(swapped) == vs[i := vs[i + 1]][i + 1 := vs[i]];
    SwappedSum(vs, i);
    NoMultiple(Weighted(vs, 1), vs[i + 1] - vs[i], 0);
  }

  lemma SwappedSum(vs: seq<int>, i: nat)
    requires i + 1 < |vs|
    ensures var d := vs[i + 1] - vs[i];
            Weighted(vs[i := vs[i + 1]][i + 1 := vs[i]], 1)
              == Weighted(vs, 1) + if (|vs| - i) % 2 == 0 then 2 * d else -2 * d
  {
    hide Weighted;
    var once := vs[i := vs[i + 1]];
    WeightedUpdate(vs, i, vs[i + 1], 1);
    WeightedUpdate(once, i + 1, vs[i], 1);
    assert WeightAt(|vs| - 1 - i, 1) == if (|vs| - i) % 2 == 0 then 3 else 1;
    assert WeightAt(|vs| - 2 - i, 1) == if (|vs| - i) % 2 == 0 then 1 else 3;
  }

  /** Past fourteen digits the tail is never looked at. */
  lemma TailIgnored(s: string, tail: string)
    requires |s| == 14 && forall i :: 0 <= i < |tail| ==> IsDigit(tail[i])
    ensures Accepts(s + tail) <==> Accepts(s)
  {
    assert (s + tail)[..GTIN_LENGTH] == s == s[..GTIN_LENGTH];
    if IsDigits(s + tail) {
      assert forall i :: 0 <= i < |s| ==> (s + tail)[i] == s[i];
    }
  }
}
