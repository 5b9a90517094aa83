// Sequences without repetition, and how many elements they hold.

module Sequences {
  ghost predicate Distinct<T>(s: seq<T>) {
    forall i, j :: 0 <= i < j < |s| ==> s[i] != s[j]
  }

  ghost function Elements<T>(s: seq<T>): (r: set<T>)
    ensures Distinct(s) ==> |r| == |s|
  {
    var r := set x | x in s;
    DistinctSize(s);
    r
  }

  lemma {:induction false} DistinctSize<T>(s: seq<T>)
    ensures Distinct(s) ==> |set x | x in s| == |s|
  {
    if s == [] {
      assert (set x | x in s) == {};
    } else {
      var n := |s| - 1;
      var shorter := s[..n];
      DistinctSize(shorter);
      assert Distinct(s) ==> Distinct(shorter) && s[n] !in shorter;
      assert (set x | x in s) == (set x | x in shorter) + {s[n]};
    }
  }

  function Upto(n: nat): (r: set<nat>)
    ensures |r| == n && forall i: nat :: i in r <==> i < n
  {
    if n == 0 then {} else Upto(n - 1) + {n - 1}
  }

  lemma SubsetSize<T>(a: set<T>, b: set<T>)
    requires a <= b
    ensures |a| <= |b| && (|a| == |b| ==> a == b)
  {
    assert |b - a| == |b| - |a|;
    if |a| == |b| {
      assert b - a == {};
      assert b == a + (b - a);
    }
  }

  /** There are no more than n distinct numbers below n; and n of them are all. */
  lemma DistinctBelow(s: seq<nat>, n: nat)
    requires Distinct(s) && forall i :: 0 <= i < |s| ==> s[i] < n
    ensures |s| <= n && (|s| == n ==> forall i: nat :: i < n ==> i in s)
  {
    assert Elements(s) <= Upto(n);
    SubsetSize(Elements(s), Upto(n));
    forall i: nat | |s| == n && i < n ensures i in s {
      assert i in Elements(s);
    }
  }
}
