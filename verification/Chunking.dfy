/**
 * Slicing a list into batches of a fixed size. Three scripts share this loop:
 * the ETL's multi-row INSERTs, the name-quality IN-lists and the hold audit's updates.
 */
module Chunking {

  function Flatten<T>(lists: seq<seq<T>>): (all: seq<T>)
  {
    if lists == [] then [] else lists[0] + Flatten(lists[1..])
  }

  /** Consecutive slices of `items`, each of `size` elements but for a shorter last one. */
  function Chunks<T>(items: seq<T>, size: nat): (chunks: seq<seq<T>>)
    requires 1 <= size
    decreases |items|
  {
    if items == [] then []
    else if |items| <= size then [items]
    else [items[..size]] + Chunks(items[size..], size)
  }

  /** What is left from index `i` on; nothing once `i` has passed the end. */
  function Drop<T>(items: seq<T>, i: nat): (rest: seq<T>)
  {
    if i <= |items| then items[i..] else []
  }

  /** `slice(i, i + size)`: the end is clamped to the length. */
  function Slice<T>(items: seq<T>, i: nat, size: nat): (slice: seq<T>)
    requires i <= |items|
  {
    if i + size <= |items| then items[i..i + size] else items[i..]
  }

  /** One turn of a batching loop takes one chunk off the front. */
  lemma ChunksStep<T>(items: seq<T>, i: nat, size: nat)
    requires 1 <= size && i < |items|
    ensures Chunks(Drop(items, i), size) == [Slice(items, i, size)] + Chunks(Drop(items, i + size), size)
  {
    var rest := items[i..];
    if |rest| > size {
      assert rest[..size] == items[i..i + size] && rest[size..] == items[i + size..];
    } else {
      assert i + size <= |items| ==> items[i..i + size] == rest;
    }
  }

  /** `slice(i, i + size)` stepped through the list, as the scripts' loops do it. */
  method ChunkIds<T>(items: seq<T>, size: nat) returns (chunks: seq<seq<T>>)
    requires 1 <= size
    ensures chunks == Chunks(items, size)
  {
    chunks := [];
    var i := 0;
    assert Drop(items, 0) == items;
    while i < |items|
      invariant 0 <= i
      invariant chunks + Chunks(Drop(items, i), size) == Chunks(items, size)
      decreases |items| - i
    {
      ChunksStep(items, i, size);
      chunks := chunks + [Slice(items, i, size)];
      i := i + size;
    }
  }

  /** No element is lost, repeated or moved by the slicing. */
  lemma {:induction false} ChunksPartition<T>(items: seq<T>, size: nat)
    requires 1 <= size
    ensures Flatten(Chunks(items, size)) == items
    decreases |items|
  {
    if |items| > size {
      ChunksPartition(items[size..], size);
      assert Flatten(Chunks(items, size)) == items[..size] + Flatten(Chunks(items[size..], size));
    } else if items != [] {
      assert Chunks(items, size)[1..] == [];
      assert Flatten(Chunks(items, size)) == items + [];
    }
  }

  /** Every batch but the last is full, and the last one is neither empty nor over-full. */
  lemma {:induction false} ChunksAreFull<T>(items: seq<T>, size: nat)
    requires 1 <= size
    ensures forall c :: 0 <= c < |Chunks(items, size)| - 1 ==> |Chunks(items, size)[c]| == size
    ensures items != [] ==> Chunks(items, size) != []
    ensures forall c :: 0 <= c < |Chunks(items, size)| ==> 1 <= |Chunks(items, size)[c]| <= size
    decreases |items|
  {
    if |items| > size {
      ChunksAreFull(items[size..], size);
    }
  }

  lemma {:induction false} FlattenAppend<T>(a: seq<seq<T>>, b: seq<seq<T>>)
    ensures Flatten(a + b) == Flatten(a) + Flatten(b)
  {
    if a == [] {
      assert a + b == b;
    } else {
      FlattenAppend(a[1..], b);
      assert (a + b)[1..] == a[1..] + b;
      assert Flatten(a + b) == a[0] + (Flatten(a[1..]) + Flatten(b));
    }
  }

  /** Two places of a chunked list never hold the same element, when the list does not repeat any. */
  lemma {:induction false} PlacesAreDistinct<T>(lists: seq<seq<T>>, c: nat, k: nat, d: nat, l: nat)
    requires forall i, j :: 0 <= i < j < |Flatten(lists)| ==> Flatten(lists)[i] != Flatten(lists)[j]
    requires c < |lists| && k < |lists[c]| && d < |lists| && l < |lists[d]| && lists[c][k] == lists[d][l]
    ensures c == d && k == l
  {
    var first, rest := lists[0], Flatten(lists[1..]);
    var all := first + rest;
    assert Flatten(lists) == all;
    assert forall i :: 0 <= i < |first| ==> all[i] == first[i];
    assert forall i :: 0 <= i < |rest| ==> all[|first| + i] == rest[i];
    if c > 0 && d > 0 {
      PlacesAreDistinct(lists[1..], c - 1, k, d - 1, l);
    } else if c > 0 {
      var i := PlaceOf(lists[1..], c - 1, k);
    } else if d > 0 {
      var i := PlaceOf(lists[1..], d - 1, l);
    }
  }

  lemma {:induction false} PlaceOf<T>(lists: seq<seq<T>>, c: nat, k: nat) returns (i: nat)
    requires c < |lists| && k < |lists[c]|
    ensures i < |Flatten(lists)| && Flatten(lists)[i] == lists[c][k]
  {
    if c == 0 {
      i := k;
    } else {
      var j := PlaceOf(lists[1..], c - 1, k);
      i := |lists[0]| + j;
    }
  }

  /** What the lists hold together is what some one of them holds. */
  lemma {:induction false} InFlattenIff<T>(lists: seq<seq<T>>, x: T)
    ensures x in Flatten(lists) <==> exists c :: 0 <= c < |lists| && x in lists[c]
  {
    if lists != [] {
      InFlattenIff(lists[1..], x);
      if c :| 0 <= c < |lists| - 1 && x in lists[1..][c] {
        assert x in lists[c + 1];
      }
      if c :| 0 <= c < |lists| && x in lists[c] {
        assert c > 0 ==> x in lists[1..][c - 1];
      }
    }
  }

  // ---- lists without repetition ----------------------------------------------------

  predicate NoRepeat<T(==)>(s: seq<T>)
  {
    forall i, j :: 0 <= i < j < |s| ==> s[i] != s[j]
  }

  lemma BothOnce<T>(p: seq<T>, q: seq<T>)
    requires NoRepeat(p) && NoRepeat(q) && forall x :: x in p ==> x !in q
    ensures NoRepeat(p + q)
  {
    forall i, j | 0 <= i < j < |p + q|
      ensures (p + q)[i] != (p + q)[j]
    {
      if i < |p| <= j {
        assert (p + q)[i] in p && (p + q)[j] in q;
      }
    }
  }

  lemma NothingRepeats<T>()
    ensures NoRepeat<T>([])
  {
  }
}
