/** Whole runs of saves, reads and decodes on one node. */
module StoreRuns {
  import opened Gf256
  import opened Decoding
  import opened EpochChunks
  import opened Framing
  import opened Keys
  import opened Placement
  import opened LruSpec
  import LruCache
  import opened Store

  datatype StoreOp =
    | Save(blocks: seq<Bytes>, lastBlockNumber: nat)
    | Read(blockNumber: nat)
    | Decode(input: seq<Bytes>, index: seq<nat>, targetBlockNumber: nat)

  /** What each operation asks of its caller on its own: whole epochs, block numbers from 1, chunks that fit. */
  predicate IsWellFormed(op: StoreOp, k: nat, n: nat) {
    match op
    case Save(blocks, last) => |blocks| >= k && last >= 1
    case Read(b) => b >= 1
    case Decode(input, index, b) => b >= 1 && MayDecode(input, index, n)
  }

  ghost predicate AllWellFormed(ops: seq<StoreOp>, k: nat, n: nat) {
    k >= 1 && forall i :: 0 <= i < |ops| ==> IsWellFormed(ops[i], k, n)
  }

  function EpochOf(op: StoreOp, k: nat, n: nat): nat
    requires k >= 1 && IsWellFormed(op, k, n)
  {
    match op
    case Save(_, last) => (last - 1) / k
    case Read(b) => ComputeChunkPosition(b, k).0
    case Decode(_, _, b) => ComputeChunkPosition(b, k).0
  }

  // ----- what a run leaves, from its operations alone

  /** The blocks saved last for every epoch. */
  ghost function SavedBy(ops: seq<StoreOp>, k: nat, n: nat): (s: map<nat, seq<Bytes>>)
    requires AllWellFormed(ops, k, n)
    ensures forall e :: e in s ==> |s[e]| == k
  {
    if ops == [] then map[]
    else
      var before, op := SavedBy(ops[..|ops| - 1], k, n), ops[|ops| - 1];
      if op.Save? then before[EpochOf(op, k, n) := op.blocks[..k]] else before
  }

  ghost function Puts(e: nat, input: seq<Bytes>, index: seq<nat>, t: nat): (p: seq<Op>)
    requires t <= |index| <= |input|
  {
    if t == 0 then [] else Puts(e, input, index, t - 1) + [Put(CacheKey(e, index[t - 1]), input[t - 1])]
  }

  /** What one operation does to the cache. */
  ghost function CacheOps(node: Erasure, op: StoreOp): seq<Op>
    requires node.Configured() && IsWellFormed(op, node.k, node.k + node.m)
  {
    var k, n := node.k, node.k + node.m;
    var e := EpochOf(op, k, n);
    match op
    case Save(blocks, _) =>
      if node.position < n
      then [Put(CacheKey(e, node.OwnIndex(e)), EpochChunksOf(n, k, blocks[..k])[node.OwnIndex(e)])] else []
    case Read(b) => [Get(CacheKey(e, ComputeChunkPosition(b, k).1))]
    case Decode(input, index, _) => Puts(e, input, index, |index|)
  }

  /** What a run does to the cache. */
  ghost function AllCacheOps(node: Erasure, ops: seq<StoreOp>): seq<Op>
    requires node.Configured() && AllWellFormed(ops, node.k, node.k + node.m)
  {
    if ops == [] then [] else AllCacheOps(node, ops[..|ops| - 1]) + CacheOps(node, ops[|ops| - 1])
  }

  /** The entries cached after a run: the most recently touched keys of its cache operations. */
  ghost function CacheAfter(node: Erasure, ops: seq<StoreOp>): seq<Entry>
    requires node.Configured() && AllWellFormed(ops, node.k, node.k + node.m)
  {
    ContentsAfter(AllCacheOps(node, ops), node.cache.capacity)
  }

  /** A read relies on framed chunks in the cache and on the epochs whose chunks this node must have. */
  ghost predicate IsRun(node: Erasure, ops: seq<StoreOp>)
    requires node.Configured()
  {
    && AllWellFormed(ops, node.k, node.k + node.m)
    && forall i :: 0 <= i < |ops| && ops[i].Read? ==> MayRead(node, ops[..i], ops[i].blockNumber)
  }

  ghost predicate MayRead(node: Erasure, ops: seq<StoreOp>, b: nat)
    requires node.Configured() && AllWellFormed(ops, node.k, node.k + node.m) && b >= 1
  {
    var (e, p) := ComputeChunkPosition(b, node.k);
    node.CanRead(SavedBy(ops, node.k, node.k + node.m), CacheAfter(node, ops), e, p)
  }

  /** What a read answers after a run. */
  ghost function ReadAnswer(node: Erasure, ops: seq<StoreOp>, b: nat): Bytes
    requires node.Configured() && AllWellFormed(ops, node.k, node.k + node.m) && b >= 1 && MayRead(node, ops, b)
  {
    var (e, p) := ComputeChunkPosition(b, node.k);
    node.Answer(SavedBy(ops, node.k, node.k + node.m), CacheAfter(node, ops), e, p)
  }

  /** What operation i of a run answers. */
  ghost function RightAnswer(node: Erasure, ops: seq<StoreOp>, i: nat): Bytes
    requires node.Configured() && IsRun(node, ops) && i < |ops|
  {
    match ops[i]
    case Save(_, _) => []
    case Read(b) => ReadAnswer(node, ops[..i], b)
    case Decode(input, index, b) => Received(input, index, |index|, ComputeChunkPosition(b, node.k).1, |input[0]|)
  }

  // ----- one operation more

  lemma RunStep(node: Erasure, ops: seq<StoreOp>, i: nat)
    requires node.Configured() && AllWellFormed(ops, node.k, node.k + node.m) && i < |ops|
    ensures AllWellFormed(ops[..i], node.k, node.k + node.m) && AllWellFormed(ops[..i + 1], node.k, node.k + node.m)
    ensures IsWellFormed(ops[i], node.k, node.k + node.m)
    ensures AllCacheOps(node, ops[..i + 1]) == AllCacheOps(node, ops[..i]) + CacheOps(node, ops[i])
    ensures var k, n := node.k, node.k + node.m;
      SavedBy(ops[..i + 1], k, n) == if ops[i].Save?
        then SavedBy(ops[..i], k, n)[EpochOf(ops[i], k, n) := ops[i].blocks[..k]] else SavedBy(ops[..i], k, n)
  {
    hide CacheOps, EpochOf, Recurring;
    assert ops[..i + 1][..i] == ops[..i];
  }

  lemma {:induction false} PutsAgree(log: seq<Op>, capacity: int, e: nat, input: seq<Bytes>, index: seq<nat>, t: nat)
    requires t <= |index| <= |input|
    ensures ContentsAfter(log + Puts(e, input, index, t), capacity)
      == AfterReceiving(ContentsAfter(log, capacity), capacity, e, input, index, t)
  {
    hide ContentsAfter, CacheKey, PutList;
    if t == 0 {
      assert log + [] == log;
    } else {
      PutsAgree(log, capacity, e, input, index, t - 1);
      var before, op := log + Puts(e, input, index, t - 1), Put(CacheKey(e, index[t - 1]), input[t - 1]);
      ContentsStep(before, capacity, op);
      assert log + Puts(e, input, index, t) == before + [op];
    }
  }

  /** What one operation makes of the cached entries, by the contracts of the node's methods. */
  ghost function CacheStep(node: Erasure, l: seq<Entry>, op: StoreOp): seq<Entry>
    requires node.Configured() && IsWellFormed(op, node.k, node.k + node.m)
  {
    var k, n := node.k, node.k + node.m;
    var e := EpochOf(op, k, n);
    match op
    case Save(blocks, _) => node.AfterWriting(l, e, EpochChunksOf(n, k, blocks[..k]), n)
    case Read(b) => GetList(l, CacheKey(e, ComputeChunkPosition(b, k).1))
    case Decode(input, index, _) => AfterReceiving(l, node.cache.capacity, e, input, index, |index|)
  }

  lemma CacheStepAgrees(node: Erasure, log: seq<Op>, op: StoreOp)
    requires node.Configured() && IsWellFormed(op, node.k, node.k + node.m)
    ensures ContentsAfter(log + CacheOps(node, op), node.cache.capacity)
      == CacheStep(node, ContentsAfter(log, node.cache.capacity), op)
  {
    hide Recurring, ContentsAfter, CacheKey, PutList, GetList, EpochChunksOf, Erasure.OwnIndex, EpochOf,
      ComputeChunkPosition;
    var e := EpochOf(op, node.k, node.k + node.m);
    match op
    case Save(_, _) =>
      if node.position < node.k + node.m {
        ContentsStep(log, node.cache.capacity, CacheOps(node, op)[0]);
      } else {
        assert log + [] == log;
      }
    case Read(b) =>
      ContentsStep(log, node.cache.capacity, CacheOps(node, op)[0]);
    case Decode(input, index, _) =>
      PutsAgree(log, node.cache.capacity, e, input, index, |index|);
  }

  /** What holds between the operations of a run: the ones before have been carried out, and nothing else. */
  ghost predicate InRun(node: Erasure, ops: seq<StoreOp>, i: nat)
    requires i <= |ops|
    reads node, node.cache, node.cache.Repr()
  {
    && node.Valid() && IsRun(node, ops)
    && HasRun(node, ops[..i])
  }

  ghost predicate HasRun(node: Erasure, ops: seq<StoreOp>)
    requires node.Valid() && AllWellFormed(ops, node.k, node.k + node.m)
    reads node, node.cache, node.cache.Repr()
  {
    node.saved == SavedBy(ops, node.k, node.k + node.m) && node.cache.Contents() == CacheAfter(node, ops)
  }

  /** A node that did what the contracts say for operation i stands one operation further in the run. */
  lemma InRunStep(node: Erasure, ops: seq<StoreOp>, i: nat, l: seq<Entry>, epochs: map<nat, seq<Bytes>>)
    requires i < |ops| && node.Valid() && IsRun(node, ops) && IsWellFormed(ops[i], node.k, node.k + node.m)
    requires AllWellFormed(ops[..i], node.k, node.k + node.m)
    requires epochs == SavedBy(ops[..i], node.k, node.k + node.m) && l == CacheAfter(node, ops[..i])
    requires node.saved == if ops[i].Save?
      then epochs[EpochOf(ops[i], node.k, node.k + node.m) := ops[i].blocks[..node.k]] else epochs
    requires node.cache.Contents() == CacheStep(node, l, ops[i])
    ensures InRun(node, ops, i + 1)
  {
    hide Erasure.Valid, Erasure.Configured, IsRun, IsWellFormed, EpochOf, CacheStep, CacheOps, SavedBy, AllCacheOps,
      ContentsAfter;
    node.ValidParts();
    RunShape(node, ops);
    RunStep(node, ops, i);
    CacheStepAgrees(node, AllCacheOps(node, ops[..i]), ops[i]);
  }

  lemma RunShape(node: Erasure, ops: seq<StoreOp>)
    requires node.Configured() && IsRun(node, ops)
    ensures AllWellFormed(ops, node.k, node.k + node.m)
  {
  }

  lemma InRunState(node: Erasure, ops: seq<StoreOp>, i: nat)
    requires i < |ops| && InRun(node, ops, i)
    ensures node.Valid() && node.Configured() && IsRun(node, ops)
    ensures AllWellFormed(ops[..i], node.k, node.k + node.m) && IsWellFormed(ops[i], node.k, node.k + node.m)
    ensures node.saved == SavedBy(ops[..i], node.k, node.k + node.m)
    ensures node.cache.Contents() == CacheAfter(node, ops[..i])
    ensures ops[i].Read? ==> MayRead(node, ops[..i], ops[i].blockNumber)
  {
    hide MayRead, SavedBy, CacheAfter, Erasure.Stored, Recurring, LruCache.Cache.Valid;
  }

  // ----- the operations

  method RunSave(node: Erasure, ops: seq<StoreOp>, i: nat)
    requires i < |ops| && InRun(node, ops, i) && ops[i].Save?
    modifies node, node.cache.Repr()
    ensures InRun(node, ops, i + 1) && fresh(node.cache.Repr() - old(node.cache.Repr()))
  {
    hide Erasure.Valid, Erasure.Configured, Erasure.AfterWriting, OthersCurrent, IsCurrent, InRun, IsRun, SavedBy,
      CacheAfter, AllWellFormed, EpochChunksOf;
    InRunState(node, ops, i);
    ghost var l, epochs := node.cache.Contents(), node.saved;
    node.SaveChunk(ops[i].blocks, ops[i].lastBlockNumber);
    InRunStep(node, ops, i, l, epochs);
  }

  method RunRead(node: Erasure, ops: seq<StoreOp>, i: nat) returns (answer: Bytes)
    requires i < |ops| && InRun(node, ops, i) && ops[i].Read?
    modifies node.cache.Repr()
    ensures InRun(node, ops, i + 1) && fresh(node.cache.Repr() - old(node.cache.Repr()))
    ensures node.Configured() && IsRun(node, ops) && answer == RightAnswer(node, ops, i)
  {
    hide Erasure.Valid, Erasure.Configured, Erasure.CanRead, Erasure.Answer, InRun, IsRun, SavedBy, CacheAfter,
      AllWellFormed, GetList, ComputeChunkPosition, CacheKey, EpochChunksOf, IsFramed, UnpackChunkToBlock, Readable,
      PlacementOf, Recurring;
    InRunState(node, ops, i);
    ghost var l, epochs := node.cache.Contents(), node.saved;
    answer := node.GetBlockByNumber(ops[i].blockNumber);
    InRunStep(node, ops, i, l, epochs);
  }

  method RunDecode(node: Erasure, ops: seq<StoreOp>, i: nat) returns (answer: Bytes)
    requires i < |ops| && InRun(node, ops, i) && ops[i].Decode?
    modifies node.cache.Repr()
    ensures InRun(node, ops, i + 1) && fresh(node.cache.Repr() - old(node.cache.Repr()))
    ensures node.Configured() && IsRun(node, ops) && answer == RightAnswer(node, ops, i)
  {
    hide Erasure.Valid, Erasure.Configured, InRun, IsRun, SavedBy, CacheAfter, AllWellFormed, ComputeChunkPosition,
      AfterReceiving, Received;
    InRunState(node, ops, i);
    ghost var l, epochs := node.cache.Contents(), node.saved;
    answer := node.Decode(ops[i].input, ops[i].index, ops[i].targetBlockNumber);
    InRunStep(node, ops, i, l, epochs);
  }

  /**
   Over any run from a new node on, every answer, the epochs saved and the entries cached are those that the
   operations determine, whatever the cache evicts in between.
   */
  method Run(node: Erasure, ops: seq<StoreOp>) returns (answers: seq<Bytes>)
    requires node.Valid() && node.saved == map[] && node.cache.Contents() == [] && IsRun(node, ops)
    modifies node, node.cache.Repr()
    ensures node.Valid() && AllWellFormed(ops, node.k, node.k + node.m)
    ensures node.saved == SavedBy(ops, node.k, node.k + node.m) && node.cache.Contents() == CacheAfter(node, ops)
    ensures
      forall key :: HasKey(node.cache.Contents(), key) <==> IsHeld(AllCacheOps(node, ops), node.cache.capacity, key)
    ensures |answers| == |ops| && forall i :: 0 <= i < |ops| ==> answers[i] == RightAnswer(node, ops, i)
  {
    hide InRun, RightAnswer, IsRun, Erasure.Configured, Erasure.Valid, SavedBy, AllCacheOps, ContentsAfter, HasKey,
      IsHeld;
    NothingRun(node, ops);
    answers := [];
    for i := 0 to |ops|
      invariant InRun(node, ops, i) && node.Configured() && IsRun(node, ops)
      invariant fresh(node.cache.Repr() - old(node.cache.Repr()))
      invariant |answers| == i && forall j :: 0 <= j < i ==> answers[j] == RightAnswer(node, ops, j)
    {
      var answer := [];
      match ops[i] {
        case Save(_, _) =>
          SaveAnswer(node, ops, i);
          RunSave(node, ops, i);
        case Read(_) =>
          answer := RunRead(node, ops, i);
        case Decode(_, _, _) =>
          answer := RunDecode(node, ops, i);
      }
      answers := answers + [answer];
    }
    AllRun(node, ops);
    forall key
      ensures HasKey(CacheAfter(node, ops), key) <==> IsHeld(AllCacheOps(node, ops), node.cache.capacity, key)
    {
      HeldIsCached(AllCacheOps(node, ops), node.cache.capacity, key);
    }
  }

  lemma NothingRun(node: Erasure, ops: seq<StoreOp>)
    requires node.Valid() && node.saved == map[] && node.cache.Contents() == [] && IsRun(node, ops)
    ensures node.Configured() && InRun(node, ops, 0)
  {
    hide MayRead, Erasure.Stored, Recurring, LruCache.Cache.Valid;
  }

  lemma AllRun(node: Erasure, ops: seq<StoreOp>)
    requires InRun(node, ops, |ops|)
    ensures node.Valid() && AllWellFormed(ops, node.k, node.k + node.m) && HasRun(node, ops)
  {
    hide MayRead, HasRun, Erasure.Stored, Recurring, LruCache.Cache.Valid;
    assert ops[..|ops|] == ops;
  }

  lemma SaveAnswer(node: Erasure, ops: seq<StoreOp>, i: nat)
    requires node.Configured() && IsRun(node, ops) && i < |ops| && ops[i].Save?
    ensures RightAnswer(node, ops, i) == []
  {
  }
}
