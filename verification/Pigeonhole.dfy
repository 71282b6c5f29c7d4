/** Counting facts about sequences without repetition. */
module Pigeonhole {

  ghost predicate Distinct<T>(s: seq<T>) {
    forall i, j :: 0 <= i < j < |s| ==> s[i] != s[j]
  }

  ghost predicate AllBelow(s: seq<int>, n: nat) {
    forall i :: 0 <= i < |s| ==> 0 <= s[i] < n
  }

  ghost function Range(n: nat): (r: set<int>)
    ensures forall v :: v in r <==> 0 <= v < n
    ensures |r| == n
  {
    if n == 0 then {} else Range(n - 1) + {n - 1}
  }

  ghost function Elements<T(!new)>(s: seq<T>): (r: set<T>)
    ensures forall v :: v in r <==> v in s
    ensures |r| <= |s|
    ensures Distinct(s) ==> |r| == |s|
  {
    if s == [] then {}
    else
      var last := s[|s| - 1];
      assert s == s[..|s| - 1] + [last];
      Elements(s[..|s| - 1]) + {last}
  }

  lemma SubsetSize<T>(a: set<T>, b: set<T>)
    requires a <= b
    ensures |a| <= |b|
    ensures |a| == |b| ==> a == b
  {
    assert |b - a| == |b| - |a|;
  }

  /** No more than n distinct values fit below n, and n of them use up every value. */
  lemma DistinctBelow(s: seq<int>, n: nat)
    requires Distinct(s) && AllBelow(s, n)
    ensures |s| <= n
    ensures |s| == n ==> forall v :: 0 <= v < n ==> v in s
  {
    SubsetSize(Elements(s), Range(n));
  }
}
