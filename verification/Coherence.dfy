/** When a read shows the block saved last: what the operations before it have to be. */
module Coherence {
  import opened Gf256
  import opened LinearAlgebra
  import opened Decoding
  import opened EpochChunks
  import opened Framing
  import opened Keys
  import opened Placement
  import opened LruSpec
  import opened Store
  import opened StoreRuns

  // ----- a cached chunk is the one last put

  /**
   The value last cached for chunk i of epoch e: this node's own when it saved the epoch, or one received by
   decode.
   */
  ghost function LastCached(node: Erasure, ops: seq<StoreOp>, e: nat, i: nat): Bytes
    requires node.Configured() && AllWellFormed(ops, node.k, node.k + node.m)
  {
    LastPut(AllCacheOps(node, ops), CacheKey(e, i))
  }

  /** A read that hits the cache shows the block of the version whose chunk was cached last, saved last or not. */
  lemma HitShowsLastCached(node: Erasure, ops: seq<StoreOp>, b: nat, version: seq<Bytes>)
    requires node.Configured() && AllWellFormed(ops, node.k, node.k + node.m) && b >= 1 && |version| >= node.k
    requires var (e, p) := ComputeChunkPosition(b, node.k);
      && HasKey(CacheAfter(node, ops), CacheKey(e, p))
      && LastCached(node, ops, e, p) == EpochChunksOf(node.k + node.m, node.k, version)[p]
    ensures MayRead(node, ops, b)
    ensures ReadAnswer(node, ops, b) == Readable(version[ComputeChunkPosition(b, node.k).1])
  {
    hide Recurring, EpochChunksOf, CacheKey, HasKey, Latest, ContentsAfter, IsFramed, UnpackChunkToBlock, Readable,
      SavedBy, AllCacheOps, ComputeChunkPosition;
    var (e, p) := ComputeChunkPosition(b, node.k);
    HeldIsLastPut(AllCacheOps(node, ops), node.cache.capacity, CacheKey(e, p));
    UnpackDataChunk(node.k + node.m, node.k, version, p);
  }

  // ----- a chunk received is what a later read shows

  /** The operation caches nothing for chunk i of epoch e. */
  ghost predicate LeavesChunk(node: Erasure, op: StoreOp, e: nat, i: nat)
    requires node.Configured() && IsWellFormed(op, node.k, node.k + node.m) && i < node.k + node.m
  {
    EpochOf(op, node.k, node.k + node.m) == e ==>
      match op
      case Save(_, _) => PlacementOf(node.draws(e), node.k + node.m)[i] != node.position
      case Read(_) => true
      case Decode(_, index, _) => i !in index
  }

  lemma PutsStep(log: seq<Op>, e: nat, input: seq<Bytes>, index: seq<nat>, t: nat, e': nat, i: nat)
    requires t < |index| <= |input|
    ensures LastPut(log + Puts(e, input, index, t + 1), CacheKey(e', i))
      == if e' == e && i == index[t] then input[t] else LastPut(log + Puts(e, input, index, t), CacheKey(e', i))
  {
    hide CacheKey, LastPut;
    var before := log + Puts(e, input, index, t);
    OnePutMore(before, e, index[t], input[t], e', i);
    assert log + Puts(e, input, index, t + 1) == before + [Put(CacheKey(e, index[t]), input[t])];
  }

  lemma {:induction false} OthersReceived(log: seq<Op>, e: nat, input: seq<Bytes>, index: seq<nat>, t: nat, e': nat,
                                          i: nat)
    requires t <= |index| <= |input| && (e' == e ==> forall r :: 0 <= r < t ==> index[r] != i)
    ensures LastPut(log + Puts(e, input, index, t), CacheKey(e', i)) == LastPut(log, CacheKey(e', i))
  {
    hide CacheKey, LastPut;
    if t == 0 {
      assert log + [] == log;
    } else {
      OthersReceived(log, e, input, index, t - 1, e', i);
      PutsStep(log, e, input, index, t - 1, e', i);
    }
  }

  lemma {:induction false} LastReceived(log: seq<Op>, e: nat, input: seq<Bytes>, index: seq<nat>, t: nat, j: nat)
    requires j < t <= |index| <= |input| && forall r :: j < r < t ==> index[r] != index[j]
    ensures LastPut(log + Puts(e, input, index, t), CacheKey(e, index[j])) == input[j]
  {
    hide CacheKey, LastPut, Puts;
    if j < t - 1 {
      LastReceived(log, e, input, index, t - 1, j);
    }
    PutsStep(log, e, input, index, t - 1, e, index[j]);
  }

  lemma LeavesLastCached(node: Erasure, ops: seq<StoreOp>, op: StoreOp, e: nat, i: nat)
    requires node.Configured() && AllWellFormed(ops, node.k, node.k + node.m) && i < node.k + node.m
    requires IsWellFormed(op, node.k, node.k + node.m) && LeavesChunk(node, op, e, i)
    ensures AllWellFormed(ops + [op], node.k, node.k + node.m)
    ensures LastCached(node, ops + [op], e, i) == LastCached(node, ops, e, i)
  {
    hide Recurring, EpochChunksOf, CacheKey, LastPut, EpochOf, AllCacheOps, SavedBy, ComputeChunkPosition;
    OneMore(node, ops, op, e);
    var log := AllCacheOps(node, ops);
    match op
    case Save(_, _) => SaveOneMore(node, ops, op, log, e, i);
    case Read(_) => RefLogStep(log, 0, CacheOps(node, op)[0]);
    case Decode(input, index, _) =>
      OthersReceived(log, EpochOf(op, node.k, node.k + node.m), input, index, |index|, e, i);
  }

  lemma {:induction false} LeavesLastCachedAll(node: Erasure, ops: seq<StoreOp>, start: nat, e: nat, i: nat)
    requires node.Configured() && AllWellFormed(ops, node.k, node.k + node.m) && i < node.k + node.m
    requires start <= |ops| && forall j :: start <= j < |ops| ==> LeavesChunk(node, ops[j], e, i)
    ensures LastCached(node, ops, e, i) == LastCached(node, ops[..start], e, i)
  {
    hide Recurring, EpochChunksOf, LastCached, LeavesChunk, IsWellFormed;
    var last := |ops| - 1;
    if start <= last {
      var before := ops[..last];
      assert forall j :: 0 <= j < last ==> before[j] == ops[j];
      LeavesLastCachedAll(node, before, start, e, i);
      LeavesLastCached(node, before, ops[last], e, i);
      assert before[..start] == ops[..start] && before + [ops[last]] == ops;
    } else {
      assert ops[..start] == ops;
    }
  }

  /**
   Once decode received a true chunk of epoch e, a read of its block shows it as long as the chunk was not
   evicted, saved over or received again, whatever else was saved, read and received since.
   */
  lemma ReceivedThenRead(node: Erasure, ops: seq<StoreOp>, d: nat, j: nat, b: nat, version: seq<Bytes>)
    requires node.Configured() && AllWellFormed(ops, node.k, node.k + node.m) && b >= 1 && |version| >= node.k
    requires var (e, p) := ComputeChunkPosition(b, node.k);
      && d < |ops| && ops[d].Decode? && IsWellFormed(ops[d], node.k, node.k + node.m)
      && EpochOf(ops[d], node.k, node.k + node.m) == e
      && j < |ops[d].index| && ops[d].index[j] == p && (forall r :: j < r < |ops[d].index| ==> ops[d].index[r] != p)
      && ops[d].input[j] == EpochChunksOf(node.k + node.m, node.k, version)[p]
      && (forall i :: d < i < |ops| ==> LeavesChunk(node, ops[i], e, p))
      && HasKey(CacheAfter(node, ops), CacheKey(e, p))
    ensures MayRead(node, ops, b)
    ensures ReadAnswer(node, ops, b) == Readable(version[ComputeChunkPosition(b, node.k).1])
  {
    hide Recurring, EpochChunksOf, CacheKey, CacheAfter, Readable, SavedBy, AllCacheOps, ComputeChunkPosition,
      LeavesChunk, EpochOf, HasKey;
    var (e, p) := ComputeChunkPosition(b, node.k);
    LeavesLastCachedAll(node, ops, d + 1, e, p);
    RunStep(node, ops, d);
    LastReceived(AllCacheOps(node, ops[..d]), e, ops[d].input, ops[d].index, |ops[d].index|, j);
    HitShowsLastCached(node, ops, b, version);
  }

  /** A decode directly followed by a read: a true chunk received among the last that fit the cache is shown. */
  method DecodeThenRead(node: Erasure, input: seq<Bytes>, index: seq<nat>, j: nat, target: nat, b: nat,
                        ghost version: seq<Bytes>)
    returns (block: Bytes)
    requires node.Valid() && target >= 1 && b >= 1 && |version| >= node.k
    requires MayDecode(input, index, node.k + node.m) && j < |index| && |index| - j <= node.cache.capacity
    requires var (e, p) := ComputeChunkPosition(b, node.k);
      && ComputeChunkPosition(target, node.k).0 == e && index[j] == p && (forall r :: j < r < |index| ==> index[r] != p)
      && input[j] == EpochChunksOf(node.k + node.m, node.k, version)[p]
    modifies node.cache.Repr()
    ensures node.Valid() && block == Readable(version[ComputeChunkPosition(b, node.k).1])
  {
    hide Recurring, Erasure.Valid, EpochChunksOf, CacheKey, AfterReceiving, Readable, ComputeChunkPosition, Received,
      PlacementOf, IsFramed, UnpackChunkToBlock, GetList, HasKey, Latest, Erasure.Answer;
    ghost var (e, p) := ComputeChunkPosition(b, node.k);
    ghost var l := node.cache.Contents();
    node.ValidParts();
    var decoded := node.Decode(input, index, target);
    ReceivedStays(l, node.cache.capacity, e, input, index, j, |index|);
    node.ValidParts();
    CachedCanRead(node, node.cache.Contents(), e, p, version);
    block := node.GetBlockByNumber(b);
  }

  /** A true chunk among the entries can be read, whatever epochs are saved. */
  lemma CachedCanRead(node: Erasure, l: seq<Entry>, e: nat, p: nat, version: seq<Bytes>)
    requires node.Configured() && DistinctKeys(l) && p < node.k <= |version|
    requires var c := EpochChunksOf(node.k + node.m, node.k, version)[p];
      exists x :: 0 <= x < |l| && l[x] == Entry(CacheKey(e, p), c)
    ensures node.CanRead(node.saved, l, e, p)
  {
    hide Recurring, EpochChunksOf, CacheKey, IsFramed, Latest;
    var x :| 0 <= x < |l| && l[x] == Entry(CacheKey(e, p), EpochChunksOf(node.k + node.m, node.k, version)[p]);
    LatestAt(l, x);
    UnpackDataChunk(node.k + node.m, node.k, version, p);
    FramedNotEmpty(l[x].value);
  }

  /**
   Exactly when a read shows the block saved last, for any history: the version cached last has to agree in
   that block.
   */
  lemma WhenReadIsCurrent(node: Erasure, ops: seq<StoreOp>, b: nat, version: seq<Bytes>)
    requires node.Configured() && AllWellFormed(ops, node.k, node.k + node.m) && b >= 1 && |version| >= node.k
    requires var (e, p) := ComputeChunkPosition(b, node.k);
      && e in SavedBy(ops, node.k, node.k + node.m)
      && (HasKey(CacheAfter(node, ops), CacheKey(e, p)) ==>
          LastCached(node, ops, e, p) == EpochChunksOf(node.k + node.m, node.k, version)[p])
    ensures MayRead(node, ops, b)
    ensures var (e, p) := ComputeChunkPosition(b, node.k);
      var block := SavedBy(ops, node.k, node.k + node.m)[e][p];
      ReadAnswer(node, ops, b) == Readable(block) <==>
        if HasKey(CacheAfter(node, ops), CacheKey(e, p)) then Readable(version[p]) == Readable(block)
        else node.Owns(e, p) || Readable(block) == []
  {
    hide Recurring, EpochChunksOf, IsFramed, UnpackChunkToBlock, Readable, SavedBy, LastCached, CacheAfter,
      ComputeChunkPosition, HasKey, Latest, CacheKey, Erasure.Owns;
    var (e, p) := ComputeChunkPosition(b, node.k);
    if HasKey(CacheAfter(node, ops), CacheKey(e, p)) {
      HitShowsLastCached(node, ops, b, version);
    }
  }

  // ----- histories that keep the cache in step with what is saved

  ghost predicate ReceivesFrom(op: StoreOp, e: nat, k: nat, n: nat) {
    k >= 1 && IsWellFormed(op, k, n) && op.Decode? && EpochOf(op, k, n) == e
  }

  /** Chunks of epoch e have been received from other nodes. */
  ghost predicate HasReceived(ops: seq<StoreOp>, e: nat, k: nat, n: nat) {
    exists j :: 0 <= j < |ops| && ReceivesFrom(ops[j], e, k, n)
  }

  /**
   Decode is given true chunks of a saved epoch, and an epoch whose chunks were received is not saved again
   with other blocks.
   */
  ghost predicate StaysInStep(ops: seq<StoreOp>, op: StoreOp, k: nat, n: nat)
    requires AllWellFormed(ops, k, n) && IsWellFormed(op, k, n)
  {
    var s, e := SavedBy(ops, k, n), EpochOf(op, k, n);
    match op
    case Save(blocks, _) => HasReceived(ops, e, k, n) ==> e in s && s[e] == blocks[..k]
    case Read(_) => true
    case Decode(input, index, _) => e in s && AreChunksOf(input, index, n, k, s[e])
  }

  ghost predicate IsInStep(ops: seq<StoreOp>, k: nat, n: nat)
    requires AllWellFormed(ops, k, n)
  {
    forall i :: 0 <= i < |ops| ==> StaysInStep(ops[..i], ops[i], k, n)
  }

  lemma ReceivedStep(ops: seq<StoreOp>, e: nat, k: nat, n: nat)
    requires ops != []
    ensures HasReceived(ops, e, k, n) <==>
      HasReceived(ops[..|ops| - 1], e, k, n) || ReceivesFrom(ops[|ops| - 1], e, k, n)
  {
    hide ReceivesFrom;
    var before := ops[..|ops| - 1];
    if j :| 0 <= j < |before| && ReceivesFrom(before[j], e, k, n) {
      assert ops[j] == before[j];
    }
    if j :| 0 <= j < |ops| && ReceivesFrom(ops[j], e, k, n) {
      assert j < |before| ==> before[j] == ops[j];
    }
  }

  lemma {:induction false} PutsLookup(log: seq<Op>, e: nat, input: seq<Bytes>, index: seq<nat>, t: nat, w: Mat,
                                      e': nat, i: nat)
    requires t <= |index| <= |input| && forall j :: 0 <= j < |index| ==> index[j] < |w| && input[j] == w[index[j]]
    ensures LastPut(log + Puts(e, input, index, t), CacheKey(e', i))
      == if e' == e && i in index[..t] then w[i] else LastPut(log, CacheKey(e', i))
  {
    hide CacheKey, LastPut;
    if t == 0 {
      assert log + [] == log;
    } else {
      PutsLookup(log, e, input, index, t - 1, w, e', i);
      PutsStep(log, e, input, index, t - 1, e', i);
      InPrefix(index, t, i);
    }
  }

  lemma OnePutMore(log: seq<Op>, e: nat, j: nat, v: Bytes, e': nat, i: nat)
    ensures LastPut(log + [Put(CacheKey(e, j), v)], CacheKey(e', i))
      == if e' == e && i == j then v else LastPut(log, CacheKey(e', i))
  {
    hide CacheKey, LastPut;
    RefLogStep(log, 0, Put(CacheKey(e, j), v));
    KeysInjective(e, j, e', i);
  }

  lemma InPrefix(index: seq<nat>, t: nat, i: nat)
    requires 0 < t <= |index|
    ensures i in index[..t] <==> i in index[..t - 1] || i == index[t - 1]
  {
    assert index[..t] == index[..t - 1] + [index[t - 1]];
  }

  /** Nothing was cached for the chunk, or the chunk of the blocks saved last, owned by this node or received. */
  ghost predicate CachedAsSaved(node: Erasure, ops: seq<StoreOp>, e: nat, i: nat)
    requires node.Configured() && AllWellFormed(ops, node.k, node.k + node.m) && i < node.k + node.m
  {
    var k, n := node.k, node.k + node.m;
    var s := SavedBy(ops, k, n);
    LastCached(node, ops, e, i) == [] ||
    (&& e in s && LastCached(node, ops, e, i) == EpochChunksOf(n, k, s[e])[i]
     && (node.Owns(e, i) || HasReceived(ops, e, k, n)))
  }

  lemma {:induction false} InStepCachesSaved(node: Erasure, ops: seq<StoreOp>, e: nat, i: nat)
    requires node.Configured() && AllWellFormed(ops, node.k, node.k + node.m) && i < node.k + node.m
    requires IsInStep(ops, node.k, node.k + node.m)
    ensures CachedAsSaved(node, ops, e, i)
  {
    hide Recurring, EpochChunksOf, CacheKey, LastPut, EpochOf, HasReceived, CacheOps, Erasure.Owns, StaysInStep;
    if ops == [] {
      NothingPut(CacheKey(e, i));
    } else {
      var last := |ops| - 1;
      var before, op := ops[..last], ops[last];
      assert forall j :: 0 <= j < last ==> before[..j] == ops[..j] && before[j] == ops[j];
      InStepCachesSaved(node, before, e, i);
      InStepOneMore(node, before, op, e, i);
      assert before + [op] == ops;
    }
  }

  lemma NothingPut(k: string)
    ensures LastPut([], k) == []
  {
  }

  lemma InStepOneMore(node: Erasure, ops: seq<StoreOp>, op: StoreOp, e: nat, i: nat)
    requires node.Configured() && AllWellFormed(ops, node.k, node.k + node.m) && i < node.k + node.m
    requires IsWellFormed(op, node.k, node.k + node.m) && StaysInStep(ops, op, node.k, node.k + node.m)
    requires CachedAsSaved(node, ops, e, i)
    ensures AllWellFormed(ops + [op], node.k, node.k + node.m) && CachedAsSaved(node, ops + [op], e, i)
  {
    hide Erasure.Configured, IsWellFormed, StaysInStep, CachedAsSaved;
    if op.Save? {
      InStepSave(node, ops, op, e, i);
    } else {
      InStepOther(node, ops, op, e, i);
    }
  }

  lemma OneMore(node: Erasure, ops: seq<StoreOp>, op: StoreOp, e: nat)
    requires node.Configured() && AllWellFormed(ops, node.k, node.k + node.m)
      && IsWellFormed(op, node.k, node.k + node.m)
    ensures AllWellFormed(ops + [op], node.k, node.k + node.m)
    ensures AllCacheOps(node, ops + [op]) == AllCacheOps(node, ops) + CacheOps(node, op)
    ensures var k, n := node.k, node.k + node.m;
      && SavedBy(ops + [op], k, n) == (if op.Save?
          then SavedBy(ops, k, n)[EpochOf(op, k, n) := op.blocks[..k]] else SavedBy(ops, k, n))
      && (HasReceived(ops + [op], e, k, n) <==> HasReceived(ops, e, k, n) || ReceivesFrom(op, e, k, n))
  {
    hide Recurring, EpochOf, AllCacheOps, SavedBy, IsWellFormed, HasReceived, ReceivesFrom, CacheOps;
    var more := ops + [op];
    assert more[..|ops|] == ops && more[|ops|] == op && more[..|ops| + 1] == more;
    RunStep(node, more, |ops|);
    ReceivedStep(more, e, node.k, node.k + node.m);
  }

  lemma InStepSave(node: Erasure, ops: seq<StoreOp>, op: StoreOp, e: nat, i: nat)
    requires node.Configured() && AllWellFormed(ops, node.k, node.k + node.m) && i < node.k + node.m
    requires IsWellFormed(op, node.k, node.k + node.m) && StaysInStep(ops, op, node.k, node.k + node.m)
    requires CachedAsSaved(node, ops, e, i) && op.Save?
    ensures AllWellFormed(ops + [op], node.k, node.k + node.m) && CachedAsSaved(node, ops + [op], e, i)
  {
    hide Recurring, EpochChunksOf, CacheKey, LastPut, HasReceived, Erasure.Owns, EpochOf, AllCacheOps, SavedBy,
      CacheOps;
    OneMore(node, ops, op, e);
    SaveOneMore(node, ops, op, AllCacheOps(node, ops), e, i);
  }

  lemma InStepOther(node: Erasure, ops: seq<StoreOp>, op: StoreOp, e: nat, i: nat)
    requires node.Configured() && AllWellFormed(ops, node.k, node.k + node.m) && i < node.k + node.m
    requires IsWellFormed(op, node.k, node.k + node.m) && StaysInStep(ops, op, node.k, node.k + node.m)
    requires CachedAsSaved(node, ops, e, i) && !op.Save?
    ensures AllWellFormed(ops + [op], node.k, node.k + node.m) && CachedAsSaved(node, ops + [op], e, i)
  {
    hide Recurring, EpochChunksOf, CacheKey, LastPut, HasReceived, Erasure.Owns, EpochOf, AllCacheOps, SavedBy,
      IsWellFormed, ComputeChunkPosition;
    var k, n := node.k, node.k + node.m;
    OneMore(node, ops, op, e);
    var log := AllCacheOps(node, ops);
    match op
    case Read(_) => RefLogStep(log, 0, CacheOps(node, op)[0]);
    case Decode(input, index, _) =>
      var e0 := EpochOf(op, k, n);
      PutsLookup(log, e0, input, index, |index|, EpochChunksOf(n, k, SavedBy(ops, k, n)[e0]), e, i);
  }

  /**
   A save caches nothing but this node's own chunk; others that were cached had been received, so their blocks
   are the same.
   */
  lemma SaveOneMore(node: Erasure, ops: seq<StoreOp>, op: StoreOp, log: seq<Op>, e: nat, i: nat)
    requires node.Configured() && AllWellFormed(ops, node.k, node.k + node.m) && i < node.k + node.m
    requires IsWellFormed(op, node.k, node.k + node.m) && op.Save?
    ensures var k, n := node.k, node.k + node.m;
      LastPut(log + CacheOps(node, op), CacheKey(e, i)) == if e == EpochOf(op, k, n) && node.Owns(e, i)
        then EpochChunksOf(n, k, op.blocks[..k])[i] else LastPut(log, CacheKey(e, i))
  {
    hide Recurring, EpochChunksOf, CacheKey, LastPut, EpochOf;
    var e0 := EpochOf(op, node.k, node.k + node.m);
    if node.position < node.k + node.m {
      RefLogStep(log, 0, CacheOps(node, op)[0]);
      KeysInjective(e0, node.OwnIndex(e0), e, i);
    } else {
      assert log + [] == log;
    }
  }

  /**
   As long as a history stays in step, every read of a saved epoch shows the block saved last: from the cache
   if its chunk is there, from the store if this node owns it; otherwise it shows nothing.
   */
  lemma ReadsAreCurrent(node: Erasure, ops: seq<StoreOp>, b: nat)
    requires node.Configured() && AllWellFormed(ops, node.k, node.k + node.m) && b >= 1
    requires IsInStep(ops, node.k, node.k + node.m)
    requires ComputeChunkPosition(b, node.k).0 in SavedBy(ops, node.k, node.k + node.m)
    ensures MayRead(node, ops, b)
    ensures var (e, p) := ComputeChunkPosition(b, node.k);
      ReadAnswer(node, ops, b) == if Latest(CacheAfter(node, ops), CacheKey(e, p)) != [] || node.Owns(e, p)
        then Readable(SavedBy(ops, node.k, node.k + node.m)[e][p]) else []
    ensures var (e, p) := ComputeChunkPosition(b, node.k);
      Latest(CacheAfter(node, ops), CacheKey(e, p)) != [] ==>
        node.Owns(e, p) || HasReceived(ops, e, node.k, node.k + node.m)
  {
    hide Recurring, EpochChunksOf, CacheKey, HasKey, Latest, ContentsAfter, IsFramed, UnpackChunkToBlock, Readable,
      SavedBy, AllCacheOps, ComputeChunkPosition, IsInStep, HasReceived, Erasure.Owns, LastPut;
    var (e, p) := ComputeChunkPosition(b, node.k);
    if !HasKey(CacheAfter(node, ops), CacheKey(e, p)) {
      LatestOfNone(CacheAfter(node, ops), CacheKey(e, p));
    } else if Latest(CacheAfter(node, ops), CacheKey(e, p)) != [] {
      InStepCachesSaved(node, ops, e, p);
      HeldIsLastPut(AllCacheOps(node, ops), node.cache.capacity, CacheKey(e, p));
      HitShowsLastCached(node, ops, b, SavedBy(ops, node.k, node.k + node.m)[e]);
    }
  }

  // ----- a history that does not stay in step

  /** Two nodes, one-byte blocks: the draws alternate, so node 0 stores chunk 0 and node 1 stores chunk 1. */
  function Alternating(t: nat): nat {
    t % 2
  }

  lemma AlternatingPlaces()
    ensures Recurring(Alternating, 2) && PlacementOf(Alternating, 2) == [0, 1]
  {
    forall v: nat, t: nat | v < 2
      ensures DrawnFrom(Alternating, v, t)
    {
      assert Alternating(2 * t + v) == v;
    }
    assert IsFirstDraw(Alternating, 0, 0) && IsFirstDraw(Alternating, 1, 1);
    assert InDrawOrder(Alternating, [0, 1], [0, 1]);
    assert IsPlacement(Alternating, 2, [0, 1]);
    PlacementUnique(Alternating, 2, [0, 1], PlacementOf(Alternating, 2));
  }

  lemma HeaderOfOne()
    ensures Header(1) == [0, 0, 1]
  {
    DigitsOfOne();
    hide Lead, Middle, Last, Digit;
    DigitValue(0);
    DigitValue(1);
    AsIntInjective(Digit(0), 0);
    AsIntInjective(Digit(1), 1);
  }

  lemma DigitsOfOne()
    ensures Lead(1) == 0 && Middle(1) == 0 && Last(1) == 1
  {
  }

  /** The framed one-byte block 1. */
  lemma FrameOfOne()
    ensures EpochChunksOf(2, 1, [[1]])[0] == [0, 0, 1, 1]
  {
    hide EpochChunksOf, Header;
    DataChunkOf(2, 1, [[1]], 0);
    HeaderOfOne();
    assert MaxLen([[1]], 1) == 1;
  }

  /** What is cached when an epoch is saved, another node's chunk of it is received, and the epoch is saved again. */
  lemma StaleEntry(own: Bytes, received: Bytes, own': Bytes)
    ensures var l := PutList(PutList([], 2, CacheKey(0, 1), own), 2, CacheKey(0, 0), received);
      var after := PutList(l, 2, CacheKey(0, 1), own');
      HasKey(after, CacheKey(0, 0)) && Latest(after, CacheKey(0, 0)) == received
  {
    hide CacheKey, Without;
    KeysInjective(0, 1, 0, 0);
    var k0, k1 := CacheKey(0, 0), CacheKey(0, 1);
    assert !HasKey([], k1);
    assert PutList([], 2, k1, own) == [Entry(k1, own)];
    var l := PutList([Entry(k1, own)], 2, k0, received);
    assert l == [Entry(k0, received), Entry(k1, own)];
    assert l[0].key == k0 && l[1].key == k1;
    PutLookup(l, 2, k1, own', k0);
  }

  /** A new node 1 of two, with room for two entries in its cache. */
  method NewNode() returns (node: Erasure)
    ensures node.Valid() && IsNodeOne(node) && node.saved == map[] && node.cache.Contents() == []
    ensures fresh(node) && fresh(node.cache.Repr())
  {
    hide Recurring, PlacementOf, IsPlacement, LruCache.Cache.Valid;
    AlternatingPlaces();
    node := new Erasure(1, 1, [1], [[0], [1]], 2, _ => Alternating, _ => seq(DIGEST_LENGTH, _ => 0));
    assert node.Configured();
    assert node.Owner(0, 1) == PlacementOf(Alternating, 2)[1];
  }

  ghost predicate IsNodeOne(node: Erasure) {
    node.Configured() && node.k == node.m == 1 && node.position == 1 && node.cache.capacity == 2 && node.Owns(0, 1)
  }

  method SaveBlock(node: Erasure, blocks: seq<Bytes>)
    requires node.Valid() && IsNodeOne(node) && |blocks| == 1
    modifies node, node.cache.Repr()
    ensures node.Valid() && fresh(node.cache.Repr() - old(node.cache.Repr()))
      && node.saved == old(node.saved)[0 := blocks]
    ensures node.cache.Contents()
      == PutList(old(node.cache.Contents()), 2, CacheKey(0, 1), EpochChunksOf(2, 1, blocks)[1])
  {
    hide Erasure.Configured, Erasure.Valid, Erasure.AfterWriting, EpochChunksOf, PutList, OthersCurrent, IsCurrent,
      CacheKey;
    ghost var l := node.cache.Contents();
    node.SaveChunk(blocks, 1);
    assert blocks[..1] == blocks;
    OwnWritten(node, l, EpochChunksOf(2, 1, blocks));
  }

  method ReceiveChunk(node: Erasure, chunk: Bytes)
    requires node.Valid() && IsNodeOne(node)
    modifies node.cache.Repr()
    ensures node.Valid() && fresh(node.cache.Repr() - old(node.cache.Repr()))
    ensures node.cache.Contents() == PutList(old(node.cache.Contents()), 2, CacheKey(0, 0), chunk)
  {
    hide Erasure.Configured, Erasure.Valid, AfterReceiving, Received, PutList, CacheKey;
    ghost var l := node.cache.Contents();
    var decoded := node.Decode([chunk], [0], 1);
    OneReceived(l, 2, chunk);
  }

  lemma FrameReads(node: Erasure, l: seq<Entry>, epochs: map<nat, seq<Bytes>>)
    requires node.Configured() && node.k == 1 && HasKey(l, CacheKey(0, 0)) && Latest(l, CacheKey(0, 0)) == [0, 0, 1, 1]
    ensures node.CanRead(epochs, l, 0, 0) && node.Answer(epochs, l, 0, 0) == [1]
  {
    hide Recurring, EpochChunksOf, CacheKey, HasKey, Latest, IsFramed, UnpackChunkToBlock, Readable, Erasure.Owns;
    FrameOfOne();
    UnpackDataChunk(2, 1, [[1]], 0);
    ReadableIsWhole([1]);
  }

  lemma NodeOneReads(node: Erasure)
    requires IsNodeOne(node)
    ensures node.Configured() && node.k == 1 && ComputeChunkPosition(1, node.k) == (0, 0)
  {
    hide Erasure.Configured, Erasure.Owns;
  }

  method ReadFrame(node: Erasure) returns (answer: Bytes)
    requires node.Valid() && IsNodeOne(node)
    requires HasKey(node.cache.Contents(), CacheKey(0, 0))
    requires Latest(node.cache.Contents(), CacheKey(0, 0)) == [0, 0, 1, 1]
    modifies node.cache.Repr()
    ensures node.Valid() && answer == [1]
  {
    hide Erasure.Configured, Erasure.Valid, Erasure.CanRead, Erasure.Answer, CacheKey, HasKey, Latest, GetList,
      EpochChunksOf, IsFramed, UnpackChunkToBlock, Readable, PlacementOf, Recurring, ComputeChunkPosition, IsNodeOne;
    NodeOneReads(node);
    FrameReads(node, node.cache.Contents(), node.saved);
    answer := node.GetBlockByNumber(1);
  }

  /**
   The block saved last is 2, and the read shows 1: node 1 saves the block 1, decode is given the true chunk of
   node 0, and node 1 saves the block 2 for the same epoch.
   */
  method StaleRead() returns (node: Erasure, answer: Bytes)
    ensures node.Valid() && node.saved == map[0 := [[2]]] && answer == [1]
  {
    hide IsNodeOne, Erasure.Configured, Erasure.Valid, EpochChunksOf, CacheKey, PutList, HasKey, Latest;
    node := NewNode();
    var frame: Bytes := [0, 0, 1, 1];
    SaveBlock(node, [[1]]);
    ReceiveChunk(node, frame);
    SaveBlock(node, [[2]]);
    StaleEntry(EpochChunksOf(2, 1, [[1]])[1], frame, EpochChunksOf(2, 1, [[2]])[1]);
    answer := ReadFrame(node);
  }

  lemma OwnWritten(node: Erasure, l: seq<Entry>, w: Mat)
    requires IsNodeOne(node) && |w| == 2
    ensures node.AfterWriting(l, 0, w, 2) == PutList(l, 2, CacheKey(0, 1), w[1])
  {
    hide Recurring, CacheKey, PutList, Erasure.OwnIndex;
  }

  lemma OneReceived(l: seq<Entry>, capacity: int, chunk: Bytes)
    ensures AfterReceiving(l, capacity, 0, [chunk], [0], 1) == PutList(l, capacity, CacheKey(0, 0), chunk)
  {
    hide CacheKey, PutList;
  }
}
