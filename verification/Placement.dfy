/** Which node stores which chunk: node numbers in the order in which an epoch's draws first name them. */
module Placement {
  import opened Pigeonhole

  /** An epoch's draws: an endless stream of numbers below n. */
  type Draws = nat -> nat

  ghost predicate DrawnFrom(d: Draws, v: nat, t: nat) {
    exists u :: u >= t && d(u) == v
  }

  /** All draws are in range and every number keeps coming up. */
  ghost predicate Recurring(d: Draws, n: nat) {
    (forall t: nat :: d(t) < n) && forall v: nat, t: nat :: v < n ==> DrawnFrom(d, v, t)
  }

  ghost predicate IsFirstDraw(d: Draws, v: nat, t: nat) {
    d(t) == v && forall s :: 0 <= s < t ==> d(s) != v
  }

  /** A permutation of the numbers below n, ordered by first draw. */
  ghost predicate IsPlacement(d: Draws, n: nat, a: seq<nat>) {
    && |a| == n && Distinct(a) && AllBelow(a, n)
    && exists times: seq<nat> :: InDrawOrder(d, a, times)
  }

  ghost predicate InDrawOrder(d: Draws, a: seq<nat>, times: seq<nat>) {
    && |times| == |a|
    && (forall i :: 0 <= i < |a| ==> IsFirstDraw(d, a[i], times[i]))
    && forall i, j :: 0 <= i < j < |a| ==> times[i] < times[j]
  }

  lemma FirstDrawUnique(d: Draws, v: nat, t: nat, t': nat)
    requires IsFirstDraw(d, v, t) && IsFirstDraw(d, v, t')
    ensures t == t'
  {
  }

  lemma PlacementCovers(d: Draws, n: nat, a: seq<nat>, v: nat)
    requires IsPlacement(d, n, a) && v < n
    ensures exists i :: 0 <= i < n && a[i] == v
  {
    DistinctBelow(a, n);
    assert v in a;
  }

  /** Every node works out the same placement. */
  lemma PlacementUnique(d: Draws, n: nat, a: seq<nat>, b: seq<nat>)
    requires IsPlacement(d, n, a) && IsPlacement(d, n, b)
    ensures a == b
  {
    var ta: seq<nat> :| InDrawOrder(d, a, ta);
    var tb: seq<nat> :| InDrawOrder(d, b, tb);
    forall i | 0 <= i < n
      ensures a[i] == b[i]
    {
      SamePrefix(d, n, a, ta, b, tb, i);
    }
  }

  lemma {:induction false} SamePrefix(d: Draws, n: nat, a: seq<nat>, ta: seq<nat>, b: seq<nat>, tb: seq<nat>, i: nat)
    requires IsPlacement(d, n, a) && IsPlacement(d, n, b)
    requires InDrawOrder(d, a, ta) && InDrawOrder(d, b, tb) && i < n
    ensures a[i] == b[i]
  {
    forall j | 0 <= j < i
      ensures a[j] == b[j]
    {
      SamePrefix(d, n, a, ta, b, tb, j);
    }
    NotLater(d, n, a, ta, b, tb, i);
    NotLater(d, n, b, tb, a, ta, i);
    assert IsFirstDraw(d, a[i], ta[i]) && IsFirstDraw(d, b[i], tb[i]);
  }

  lemma NotLater(d: Draws, n: nat, a: seq<nat>, ta: seq<nat>, b: seq<nat>, tb: seq<nat>, i: nat)
    requires IsPlacement(d, n, a) && IsPlacement(d, n, b)
    requires InDrawOrder(d, a, ta) && InDrawOrder(d, b, tb) && i < n
    requires forall j :: 0 <= j < i ==> a[j] == b[j]
    ensures ta[i] <= tb[i]
  {
    PlacementCovers(d, n, a, b[i]);
    var j :| 0 <= j < n && a[j] == b[i];
    assert j >= i;
    FirstDrawUnique(d, b[i], ta[j], tb[i]);
  }

  /** Slot i holds the first number drawn that no earlier slot holds. */
  lemma InFirstDrawOrder(d: Draws, n: nat, a: seq<nat>, i: nat)
    requires Recurring(d, n) && IsPlacement(d, n, a) && i < n
    ensures a[i] < n && a[i] !in a[..i]
    ensures exists t: nat :: d(t) == a[i] && forall s: nat :: s < t ==> d(s) in a[..i]
  {
    var times: seq<nat> :| InDrawOrder(d, a, times);
    assert IsFirstDraw(d, a[i], times[i]);
    forall s: nat | s < times[i]
      ensures d(s) in a[..i]
    {
      PlacementCovers(d, n, a, d(s));
      var j :| 0 <= j < n && a[j] == d(s);
      assert IsFirstDraw(d, a[j], times[j]);
      assert j < i;
      assert a[..i][j] == d(s);
    }
    assert d(times[i]) == a[i];
  }

  // ----- the loops

  /** After t draws, the numbers seen are exactly the ones placed, in the order they came up. */
  ghost predicate DrawnSoFar(d: Draws, n: nat, drawn: seq<nat>, times: seq<nat>, t: nat) {
    && Distinct(drawn) && AllBelow(drawn, n) && InDrawOrder(d, drawn, times)
    && (forall i :: 0 <= i < |times| ==> times[i] < t)
    && forall s :: 0 <= s < t ==> d(s) in drawn
  }

  lemma DrawNew(d: Draws, n: nat, drawn: seq<nat>, times: seq<nat>, t: nat)
    requires Recurring(d, n) && DrawnSoFar(d, n, drawn, times, t) && d(t) !in drawn
    ensures DrawnSoFar(d, n, drawn + [d(t)], times + [t], t + 1)
  {
    hide Recurring;
    assert d(t) < n by {
      DrawBelow(d, n, t);
    }
    assert IsFirstDraw(d, d(t), t);
  }

  lemma DrawBelow(d: Draws, n: nat, t: nat)
    requires Recurring(d, n)
    ensures d(t) < n
  {
  }

  /** While a slot is free, a number not drawn yet comes up at some later time. */
  lemma NextNew(d: Draws, n: nat, drawn: seq<nat>, t: nat) returns (u: nat)
    requires Recurring(d, n) && Distinct(drawn) && AllBelow(drawn, n) && |drawn| < n
    ensures u >= t && d(u) !in drawn
  {
    var v: nat :| v < n && v !in drawn by {
      if forall v :: 0 <= v < n ==> v in drawn {
        SubsetSize(Range(n), Elements(drawn));
        assert false;
      }
    }
    assert DrawnFrom(d, v, t);
    u :| u >= t && d(u) == v;
  }

  /** Draws until every slot holds a number not seen before; a repeated number is drawn again. */
  method GetDistinctChunkSet(d: Draws, n: nat) returns (chunkSet: array<nat>)
    requires Recurring(d, n)
    ensures fresh(chunkSet) && IsPlacement(d, n, chunkSet[..]) && chunkSet[..] == PlacementOf(d, n)
    ensures forall i :: 0 <= i < n ==>
      && chunkSet[i] < n && chunkSet[i] !in chunkSet[..i]
      && exists t: nat :: d(t) == chunkSet[i] && forall s: nat :: s < t ==> d(s) in chunkSet[..i]
  {
    hide Recurring, DrawnSoFar, IsPlacement;
    chunkSet := new nat[n];
    var j, t := 0, 0;
    ghost var drawn: seq<nat>, times: seq<nat>, next := [], [], 0;
    StartDrawing(d, n);
    if n > 0 {
      next := NextNew(d, n, drawn, 0);
    }
    while j < n
      invariant 0 <= j <= n && drawn == chunkSet[..j] && |times| == j
      invariant DrawnSoFar(d, n, drawn, times, t)
      invariant j < n ==> t <= next && d(next) !in drawn
      decreases n - j, if t <= next then next - t else 0
    {
      chunkSet[j] := d(t);
      var i := 0;
      while i < j && chunkSet[j] != chunkSet[i]
        invariant 0 <= i <= j
        invariant forall l :: 0 <= l < i ==> chunkSet[l] != d(t)
      {
        i := i + 1;
      }
      assert chunkSet[..j] == drawn;
      if i == j {
        DrawNew(d, n, drawn, times, t);
        drawn, times := drawn + [d(t)], times + [t];
        j := j + 1;
        if j < n {
          FreshStillDistinct(d, n, drawn, times, t + 1);
          next := NextNew(d, n, drawn, t + 1);
        }
      } else {
        assert drawn[i] == d(t);
        DrawAgain(d, n, drawn, times, t);
      }
      t := t + 1;
    }
    DrawingDone(d, n, drawn, times, t);
    assert chunkSet[..] == drawn;
    PlacementUnique(d, n, drawn, PlacementOf(d, n));
    SlotsInDrawOrder(d, n, chunkSet);
  }

  lemma SlotsInDrawOrder(d: Draws, n: nat, chunkSet: array<nat>)
    requires Recurring(d, n) && chunkSet.Length == n && IsPlacement(d, n, chunkSet[..])
    ensures forall i :: 0 <= i < n ==>
      && chunkSet[i] < n && chunkSet[i] !in chunkSet[..i]
      && exists t: nat :: d(t) == chunkSet[i] && forall s: nat :: s < t ==> d(s) in chunkSet[..i]
  {
    hide Recurring;
    var a := chunkSet[..];
    forall i | 0 <= i < n
      ensures chunkSet[i] < n && chunkSet[i] !in chunkSet[..i]
      ensures exists t: nat :: d(t) == chunkSet[i] && forall s: nat :: s < t ==> d(s) in chunkSet[..i]
    {
      InFirstDrawOrder(d, n, a, i);
      assert a[i] == chunkSet[i] && a[..i] == chunkSet[..i];
    }
  }

  lemma StartDrawing(d: Draws, n: nat)
    ensures DrawnSoFar(d, n, [], [], 0)
  {
  }

  lemma FreshStillDistinct(d: Draws, n: nat, drawn: seq<nat>, times: seq<nat>, t: nat)
    requires DrawnSoFar(d, n, drawn, times, t)
    ensures Distinct(drawn) && AllBelow(drawn, n)
  {
  }

  lemma DrawAgain(d: Draws, n: nat, drawn: seq<nat>, times: seq<nat>, t: nat)
    requires DrawnSoFar(d, n, drawn, times, t) && d(t) in drawn
    ensures DrawnSoFar(d, n, drawn, times, t + 1)
  {
  }

  lemma DrawingDone(d: Draws, n: nat, drawn: seq<nat>, times: seq<nat>, t: nat)
    requires DrawnSoFar(d, n, drawn, times, t) && |drawn| == n
    ensures IsPlacement(d, n, drawn)
  {
  }

  /** The placement of an epoch, as a function of its draws. */
  ghost function PlacementOf(d: Draws, n: nat): (a: seq<nat>)
    requires Recurring(d, n)
    ensures IsPlacement(d, n, a)
    ensures |a| == n && Distinct(a) && forall i :: 0 <= i < n ==> a[i] < n
  {
    PlacementExists(d, n);
    var a: seq<nat> :| IsPlacement(d, n, a);
    a
  }

  lemma PlacementExists(d: Draws, n: nat)
    requires Recurring(d, n)
    ensures exists a: seq<nat> :: IsPlacement(d, n, a)
  {
    hide DrawnSoFar, IsPlacement, Recurring;
    StartDrawing(d, n);
    var next := 0;
    if n > 0 {
      next := NextNew(d, n, [], 0);
    }
    var a := KeepDrawing(d, n, [], [], 0, next);
  }

  lemma KeepDrawing(d: Draws, n: nat, drawn: seq<nat>, times: seq<nat>, t: nat, next: nat) returns (a: seq<nat>)
    requires Recurring(d, n) && DrawnSoFar(d, n, drawn, times, t) && |drawn| <= n
    requires |drawn| < n ==> t <= next && d(next) !in drawn
    ensures IsPlacement(d, n, a)
    decreases n - |drawn|, if t <= next then next - t else 0
  {
    hide DrawnSoFar, IsPlacement, Recurring;
    if |drawn| == n {
      DrawingDone(d, n, drawn, times, t);
      a := drawn;
    } else if d(t) in drawn {
      DrawAgain(d, n, drawn, times, t);
      a := KeepDrawing(d, n, drawn, times, t + 1, next);
    } else {
      DrawNew(d, n, drawn, times, t);
      FreshStillDistinct(d, n, drawn + [d(t)], times + [t], t + 1);
      var next' := 0;
      if |drawn| + 1 < n {
        next' := NextNew(d, n, drawn + [d(t)], t + 1);
      }
      a := KeepDrawing(d, n, drawn + [d(t)], times + [t], t + 1, next');
    }
  }

  /** For every node, the position of the chunk it stores. */
  method GetChunkPosByNode(d: Draws, n: nat) returns (pos: array<nat>)
    requires Recurring(d, n)
    ensures fresh(pos) && IsInversePlacement(PlacementOf(d, n), pos[..])
    ensures forall v :: 0 <= v < n ==> pos[v] < n && PlacementOf(d, n)[pos[v]] == v
    ensures forall i :: 0 <= i < n ==> pos[PlacementOf(d, n)[i]] == i
  {
    hide Recurring, IsPlacement;
    var chunkSet := GetDistinctChunkSet(d, n);
    pos := new nat[n];
    for i := 0 to n
      invariant chunkSet[..] == PlacementOf(d, n)
      invariant forall j :: 0 <= j < n ==> chunkSet[j] == chunkSet[..][j] < n
      invariant forall j :: 0 <= j < i ==> pos[chunkSet[j]] == j
    {
      pos[chunkSet[i]] := i;
    }
    forall v | 0 <= v < n
      ensures pos[v] < n && chunkSet[pos[v]] == v
    {
      PlacementCovers(d, n, chunkSet[..], v);
    }
  }

  ghost predicate IsInversePlacement(a: seq<nat>, pos: seq<nat>) {
    && |pos| == |a|
    && (forall v :: 0 <= v < |a| ==> pos[v] < |a| && a[pos[v]] == v)
    && forall i :: 0 <= i < |a| ==> a[i] < |a| && pos[a[i]] == i
  }
}
