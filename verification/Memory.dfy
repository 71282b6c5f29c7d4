/** Byte buffers in one memory: a pointer is an address, a shard is the run of bytes it points to. */
module Memory {
  import opened Gf256
  import opened LinearAlgebra

  /** A pointer as the caller passes it. */
  datatype Pointer = Null | At(address: nat)

  predicate AllGiven(ptrs: seq<Pointer>) {
    forall i :: 0 <= i < |ptrs| ==> ptrs[i].At?
  }

  function Addresses(ptrs: seq<Pointer>): (a: seq<nat>)
    requires AllGiven(ptrs)
    ensures |a| == |ptrs| && forall i :: 0 <= i < |ptrs| ==> a[i] == ptrs[i].address
  {
    seq(|ptrs|, i requires 0 <= i < |ptrs| => ptrs[i].address)
  }

  function Given(addresses: seq<nat>): (p: seq<Pointer>)
    ensures |p| == |addresses| && AllGiven(p) && Addresses(p) == addresses
  {
    seq(|addresses|, i requires 0 <= i < |addresses| => At(addresses[i]))
  }

  /** Looks for a null pointer. */
  method HasNull(ptrs: seq<Pointer>) returns (found: bool)
    ensures found <==> !AllGiven(ptrs)
  {
    for i := 0 to |ptrs|
      invariant forall j :: 0 <= j < i ==> ptrs[j].At?
    {
      if ptrs[i].Null? {
        return true;
      }
    }
    return false;
  }

  ghost predicate InBounds(ptrs: seq<nat>, n: nat, size: nat) {
    forall i :: 0 <= i < |ptrs| ==> ptrs[i] + n <= size
  }

  predicate Apart(p: nat, q: nat, n: nat) {
    p + n <= q || q + n <= p
  }

  ghost predicate AllApart(ptrs: seq<nat>, n: nat) {
    forall i, j :: 0 <= i < j < |ptrs| ==> Apart(ptrs[i], ptrs[j], n)
  }

  ghost predicate ApartFrom(ps: seq<nat>, qs: seq<nat>, n: nat) {
    forall i, j :: 0 <= i < |ps| && 0 <= j < |qs| ==> Apart(ps[i], qs[j], n)
  }

  /** The same pointers, d bytes further on. */
  function Shift(ptrs: seq<nat>, d: nat): (s: seq<nat>)
    ensures |s| == |ptrs| && forall i :: 0 <= i < |ptrs| ==> s[i] == ptrs[i] + d
  {
    seq(|ptrs|, i requires 0 <= i < |ptrs| => ptrs[i] + d)
  }

  ghost predicate Covered(a: nat, ptrs: seq<nat>, n: nat) {
    exists i :: 0 <= i < |ptrs| && ptrs[i] <= a < ptrs[i] + n
  }

  /** Nothing but the given shards differs. */
  ghost predicate OnlyShardsChanged(before: seq<Byte>, after: seq<Byte>, ptrs: seq<nat>, n: nat) {
    |after| == |before| &&
    forall a :: 0 <= a < |before| && !Covered(a, ptrs, n) ==> after[a] == before[a]
  }

  ghost function Shard(s: seq<Byte>, p: nat, n: nat): (v: Vec)
    requires p + n <= |s|
    ensures |v| == n
  {
    s[p..p + n]
  }

  /** The shards as the rows of a matrix. */
  ghost function Shards(s: seq<Byte>, ptrs: seq<nat>, n: nat): (m: Mat)
    requires InBounds(ptrs, n, |s|)
    ensures IsMat(m, |ptrs|, n) && forall i :: 0 <= i < |ptrs| ==> m[i] == Shard(s, ptrs[i], n)
  {
    seq(|ptrs|, i requires 0 <= i < |ptrs| => Shard(s, ptrs[i], n))
  }

  lemma ApartShardKept(before: seq<Byte>, after: seq<Byte>, ptrs: seq<nat>, n: nat, p: nat)
    requires OnlyShardsChanged(before, after, ptrs, n) && p + n <= |before|
    requires forall j :: 0 <= j < |ptrs| ==> Apart(p, ptrs[j], n)
    ensures Shard(after, p, n) == Shard(before, p, n)
  {
    var u, v := Shard(after, p, n), Shard(before, p, n);
    forall b | 0 <= b < n
      ensures u[b] == v[b]
    {
      assert !Covered(p + b, ptrs, n);
      assert u[b] == after[p + b] && v[b] == before[p + b];
    }
  }

  lemma ApartShardsKept(before: seq<Byte>, after: seq<Byte>, ptrs: seq<nat>, n: nat, others: seq<nat>)
    requires OnlyShardsChanged(before, after, ptrs, n) && InBounds(others, n, |before|)
    requires ApartFrom(others, ptrs, n)
    ensures Shards(after, others, n) == Shards(before, others, n)
  {
    hide Shard;
    forall i | 0 <= i < |others|
      ensures Shards(after, others, n)[i] == Shards(before, others, n)[i]
    {
      ApartShardKept(before, after, ptrs, n, others[i]);
    }
  }
}
