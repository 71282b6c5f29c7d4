/** Presence masks and the increasing lists of positions they select. */
module Masks {
  function CountTrue(mask: seq<bool>): (n: nat)
    ensures n <= |mask|
  {
    if mask == [] then 0
    else CountTrue(mask[..|mask| - 1]) + (if mask[|mask| - 1] then 1 else 0)
  }

  lemma {:induction false} CountIsSize(mask: seq<bool>)
    ensures CountTrue(mask) == |set i | 0 <= i < |mask| && mask[i]|
  {
    if mask != [] {
      var n := |mask| - 1;
      CountIsSize(mask[..n]);
      var shorter := set i | 0 <= i < n && mask[..n][i];
      assert (set i | 0 <= i < |mask| && mask[i]) == shorter + if mask[n] then {n} else {};
    }
  }

  ghost function Chosen(mask: seq<bool>): (s: seq<nat>)
    ensures |s| == CountTrue(mask)
  {
    if mask == [] then []
    else Chosen(mask[..|mask| - 1]) + (if mask[|mask| - 1] then [|mask| - 1] else [])
  }

  function Not(mask: seq<bool>): (r: seq<bool>)
    ensures |r| == |mask| && forall i :: 0 <= i < |mask| ==> r[i] == !mask[i]
  {
    seq(|mask|, i requires 0 <= i < |mask| => !mask[i])
  }

  ghost predicate Increasing(s: seq<nat>) {
    forall i, j :: 0 <= i < j < |s| ==> s[i] < s[j]
  }

  /** The list names exactly the set positions, in increasing order. */
  lemma {:induction false} ChosenIsMask(mask: seq<bool>)
    ensures Increasing(Chosen(mask))
    ensures forall i :: 0 <= i < |Chosen(mask)| ==> Chosen(mask)[i] < |mask| && mask[Chosen(mask)[i]]
    ensures forall p :: 0 <= p < |mask| && mask[p] ==> p in Chosen(mask)
  {
    if mask != [] {
      ChosenIsMask(mask[..|mask| - 1]);
    }
  }

  lemma {:induction false} ChosenPrefix(mask: seq<bool>, i: nat)
    requires i <= |mask|
    ensures Chosen(mask[..i]) <= Chosen(mask)
  {
    if i < |mask| {
      ChosenPrefix(mask[..|mask| - 1], i);
      assert mask[..|mask| - 1][..i] == mask[..i];
    } else {
      assert mask[..i] == mask;
    }
  }

  lemma ChosenStep(mask: seq<bool>, i: nat)
    requires i < |mask|
    ensures Chosen(mask[..i + 1]) == Chosen(mask[..i]) + (if mask[i] then [i] else [])
  {
    assert mask[..i + 1][..i] == mask[..i];
  }

  lemma {:induction false} CountSplit(mask: seq<bool>, i: nat)
    requires i <= |mask|
    ensures CountTrue(mask) == CountTrue(mask[..i]) + CountTrue(mask[i..])
  {
    if i == |mask| {
      assert mask[..i] == mask;
    } else {
      var n := |mask| - 1;
      CountSplit(mask[..n], i);
      assert mask[..n][..i] == mask[..i];
      assert mask[..n][i..] == mask[i..][..n - i];
    }
  }

  lemma {:induction false} CountNot(mask: seq<bool>)
    ensures CountTrue(mask) + CountTrue(Not(mask)) == |mask|
  {
    if mask != [] {
      CountNot(mask[..|mask| - 1]);
      assert Not(mask)[..|mask| - 1] == Not(mask[..|mask| - 1]);
    }
  }

  /** With at least k of n present, no more data shards are missing than there are parity shards. */
  lemma MissingFit(present: seq<bool>, k: nat)
    requires k <= |present| && CountTrue(present) >= k
    ensures CountTrue(Not(present[..k])) <= |present| - k
  {
    CountSplit(present, k);
    CountNot(present[..k]);
  }

  /** The data shards that are present are all among the first k present shards. */
  lemma PresentDataUsed(present: seq<bool>, k: nat, p: nat)
    requires k <= |present| && CountTrue(present) >= k && p < k && present[p]
    ensures p in Chosen(present)[..k]
  {
    ChosenIsMask(present[..k]);
    assert p in Chosen(present[..k]);
    ChosenPrefix(present, k);
  }

  lemma {:induction false} CountSet(mask: seq<bool>, p: nat)
    requires p < |mask| && !mask[p]
    ensures CountTrue(mask[p := true]) == CountTrue(mask) + 1
  {
    var n := |mask| - 1;
    if p == n {
      assert mask[p := true][..n] == mask[..n];
    } else {
      CountSet(mask[..n], p);
      assert mask[p := true][..n] == mask[..n][p := true];
    }
  }

  lemma {:induction false} CountNone(mask: seq<bool>)
    requires forall i :: 0 <= i < |mask| ==> !mask[i]
    ensures CountTrue(mask) == 0
  {
    if mask != [] {
      CountNone(mask[..|mask| - 1]);
    }
  }
}
