/** `strideSample` of scripts/lmdw-crawl-probe.ts: an evenly spread sample of an ordered list. */
module StrideSample {

  /** `Math.floor((i * n) / count)`. */
  function Index(i: nat, n: nat, count: nat): (index: nat)
    requires count > 0
  {
    i * n / count
  }

  method Sample(urls: seq<string>, count: int) returns (out: seq<string>)
    ensures |out| == if urls == [] || count < 0 then 0 else count
    ensures forall i :: 0 <= i < |out| ==>
              Index(i, |urls|, count) < |urls| && out[i] == urls[Index(i, |urls|, count)]
  {
    out := [];
    if urls == [] {
      return;
    }
    var i := 0;
    while i < count
      invariant |out| == i && 0 <= i && (count < 0 ==> i == 0) && (count >= 0 ==> i <= count)
      invariant forall k :: 0 <= k < i ==>
                  Index(k, |urls|, count) < |urls| && out[k] == urls[Index(k, |urls|, count)]
    {
      InRange(i, |urls|, count);
      out := out + [urls[i * |urls| / count]];
      i := i + 1;
    }
  }

  lemma TimesMonotone(a: int, b: int, c: nat)
    requires a <= b
    ensures a * c <= b * c
  {
  }

  lemma Quotient(a: nat, c: nat, q: nat)
    requires c > 0 && q * c <= a < (q + 1) * c
    ensures a / c == q
  {
    var d := a / c;
    if d < q {
      TimesMonotone(d + 1, q, c);
    } else if d > q {
      TimesMonotone(q + 1, d, c);
    }
  }

  lemma InRange(i: nat, n: nat, count: nat)
    requires i < count && n > 0
    ensures Index(i, n, count) < n
  {
    var q := Index(i, n, count);
    assert i * n < count * n;
    if q >= n {
      TimesMonotone(n, q, count);
    }
  }

  /** Quotients add up, but for a carry of one. */
  lemma QuotientOfSum(a: nat, b: nat, c: nat)
    requires c > 0
    ensures (a + b) / c == a / c + b / c + if a % c + b % c < c then 0 else 1
  {
    SumOfQuotients(a, b, c, a / c, a % c, b / c, b % c);
  }

  lemma SumOfQuotients(a: nat, b: nat, c: nat, x: nat, r: nat, y: nat, s: nat)
    requires r < c && s < c && a == x * c + r && b == y * c + s
    ensures (a + b) / c == x + y + if r + s < c then 0 else 1
  {
    assert (x + y) * c == x * c + y * c;
    assert (x + y + 1) * c == x * c + y * c + c && (x + y + 1 + 1) * c == x * c + y * c + c + c;
    Quotient(a + b, c, x + y + if r + s < c then 0 else 1);
  }

  /** Over any `steps` places, the sample advances by the exact share of the list, rounded down or up. */
  lemma EvenlySpread(i: nat, steps: nat, n: nat, count: nat)
    requires count > 0
    ensures var advance := Index(i + steps, n, count) - Index(i, n, count);
            if steps * n % count == 0 then advance == steps * n / count
            else steps * n / count <= advance <= steps * n / count + 1
  {
    assert (i + steps) * n == i * n + steps * n;
    QuotientOfSum(i * n, steps * n, count);
  }

  /** With at most as many samples as places: no place is sampled twice, and the first one is the first. */
  lemma StrictlyIncreasing(i: nat, j: nat, n: nat, count: nat)
    requires i < j && 0 < count <= n
    ensures Index(i, n, count) < Index(j, n, count) && Index(0, n, count) == 0
  {
    var steps := j - i;
    EvenlySpread(i, steps, n, count);
    assert steps * n >= count by {
      assert steps * n >= 1 * n;
    }
    assert steps * n / count >= 1;
    Quotient(0, count, 0);
  }

  /** With more samples than places, some place is sampled twice in a row. */
  lemma RepeatsIff(n: nat, count: nat)
    requires count > 0 && n > 0
    ensures (exists i: nat :: i + 1 < count && Index(i, n, count) == Index(i + 1, n, count)) <==> n < count
  {
    if n >= count {
      forall i: nat
        ensures Index(i, n, count) != Index(i + 1, n, count)
      {
        StrictlyIncreasing(i, i + 1, n, count);
      }
    } else {
      Quotient(0, count, 0);
      Quotient(n, count, 0);
      assert 1 * n == n && Index(1, n, count) == Index(0, n, count);
      assert 0 + 1 < count;
    }
  }
}
