/** Least and greatest elements of finite sets: SQL's MIN, MAX and ORDER BY rest on them. */
module Extremes {

  lemma Member<T>(s: set<T>) returns (x: T)
    requires s != {}
    ensures x in s
  {
    x :| x in s;
  }

  lemma Outside<T>(a: set<T>, b: set<T>) returns (x: T)
    requires !(a <= b)
    ensures x in a && x !in b
  {
    x :| x in a && x !in b;
  }

  lemma SubsetSize<T>(a: set<T>, b: set<T>)
    requires a <= b
    ensures |a| <= |b| && (|a| == |b| ==> a == b)
  {
    assert |b - a| == |b| - |a|;
  }

  /** The places of a list where a property holds. */
  function Places<T>(s: seq<T>, p: T -> bool): (places: set<nat>)
  {
    set i: nat | i < |s| && p(s[i])
  }

  lemma OneMorePlace<T>(s: seq<T>, p: T -> bool)
    requires s != []
    ensures |Places(s, p)| == |Places(s[..|s| - 1], p)| + if p(s[|s| - 1]) then 1 else 0
    ensures Places(s[..0], p) == {}
  {
    var last := |s| - 1;
    assert Places(s, p) == Places(s[..last], p) + if p(s[last]) then {last} else {};
  }

  lemma {:induction false} HasLeast(s: set<int>)
    requires s != {}
    ensures exists m :: m in s && forall x :: x in s ==> m <= x
    decreases |s|
  {
    var some := Member(s);
    var rest := s - {some};
    if rest == {} {
      assert s == {some};
    } else {
      HasLeast(rest);
      var r :| r in rest && forall x :: x in rest ==> r <= x;
      var m := if r < some then r else some;
      assert forall x :: x in s ==> x == some || x in rest;
      assert m in s && forall x :: x in s ==> m <= x;
    }
  }

  function Least(s: set<int>): (m: int)
    requires s != {}
    ensures m in s && forall x :: x in s ==> m <= x
  {
    HasLeast(s);
    var m :| m in s && forall x :: x in s ==> m <= x;
    m
  }

  lemma {:induction false} HasGreatest(s: set<int>)
    requires s != {}
    ensures exists m :: m in s && forall x :: x in s ==> x <= m
    decreases |s|
  {
    var some := Member(s);
    var rest := s - {some};
    if rest == {} {
      assert s == {some};
    } else {
      HasGreatest(rest);
      var r :| r in rest && forall x :: x in rest ==> x <= r;
      var m := if r > some then r else some;
      assert forall x :: x in s ==> x == some || x in rest;
      assert m in s && forall x :: x in s ==> x <= m;
    }
  }

  function Greatest(s: set<int>): (m: int)
    requires s != {}
    ensures m in s && forall x :: x in s ==> x <= m
  {
    HasGreatest(s);
    var m :| m in s && forall x :: x in s ==> x <= m;
    m
  }
}
