/** A node of the store: it encodes epochs of blocks, keeps its own chunk in full and digests of the others. */
module Store {
  import opened Gf256
  import opened LinearAlgebra
  import opened Memory
  import opened Encoder
  import opened Decoding
  import opened EpochChunks
  import opened Framing
  import opened Keys
  import opened Placement
  import opened Pigeonhole
  import opened LruSpec
  import opened LruCache
  import RS = ReedSolomon

  type NodeId = seq<Byte>

  const NOT_A_SEALER: nat := 0xFFFF_FFFF

  const DIGEST_LENGTH: nat := 64

  /** The cache after n received chunks of epoch e entered it, one after the other. */
  ghost function AfterReceiving(l: seq<Entry>, capacity: int, e: nat, input: seq<Bytes>, index: seq<nat>,
                                n: nat): seq<Entry>
    requires n <= |index| <= |input|
  {
    if n == 0 then l
    else PutList(AfterReceiving(l, capacity, e, input, index, n - 1), capacity, CacheKey(e, index[n - 1]), input[n - 1])
  }

  lemma ReceivingStep(l: seq<Entry>, capacity: int, e: nat, input: seq<Bytes>, index: seq<nat>, n: nat)
    requires n < |index| <= |input|
    ensures AfterReceiving(l, capacity, e, input, index, n + 1)
      == PutList(AfterReceiving(l, capacity, e, input, index, n), capacity, CacheKey(e, index[n]), input[n])
  {
    hide PutList, CacheKey;
  }

  /** The received chunks enter the cache one after the other. */
  method CacheReceived(cache: Cache, e: nat, input: seq<Bytes>, index: seq<nat>)
    requires cache.Valid() && |index| <= |input|
    modifies cache.Repr()
    ensures cache.Valid() && fresh(cache.Repr() - old(cache.Repr()))
    ensures cache.Contents() == AfterReceiving(old(cache.Contents()), cache.capacity, e, input, index, |index|)
  {
    hide CacheKey, LruCache.Cache.Valid, PutList, AfterReceiving;
    ghost var l := cache.Contents();
    NothingReceived(l, cache.capacity, e, input, index);
    for i := 0 to |index|
      invariant cache.Valid() && fresh(cache.Repr() - old(cache.Repr()))
      invariant cache.Contents() == AfterReceiving(l, cache.capacity, e, input, index, i)
    {
      ReceivingStep(l, cache.capacity, e, input, index, i);
      cache.Put(CacheKey(e, index[i]), input[i]);
    }
  }

  lemma NothingReceived(l: seq<Entry>, capacity: int, e: nat, input: seq<Bytes>, index: seq<nat>)
    requires |index| <= |input|
    ensures AfterReceiving(l, capacity, e, input, index, 0) == l
  {
  }

  /** A received chunk stays in the cache while fewer further ones are received than there is room for. */
  lemma {:induction false} ReceivedStays(l: seq<Entry>, capacity: int, e: nat, input: seq<Bytes>, index: seq<nat>,
                                         t: nat, n: nat)
    requires DistinctKeys(l) && t < n <= |index| <= |input| && n - t <= capacity
    requires forall r :: t < r < n ==> index[r] != index[t]
    ensures var after := AfterReceiving(l, capacity, e, input, index, n);
      exists x :: 0 <= x < n - t && x < |after| && after[x] == Entry(CacheKey(e, index[t]), input[t])
  {
    hide PutList, CacheKey, AfterReceiving, DistinctKeys;
    ReceivingStep(l, capacity, e, input, index, n - 1);
    var before := AfterReceiving(l, capacity, e, input, index, n - 1);
    ReceivedDistinct(l, capacity, e, input, index, n - 1);
    PutLeads(before, capacity, CacheKey(e, index[n - 1]), input[n - 1]);
    if t < n - 1 {
      ReceivedStays(l, capacity, e, input, index, t, n - 1);
      var x :| 0 <= x < n - 1 - t && x < |before| && before[x] == Entry(CacheKey(e, index[t]), input[t]);
      KeysInjective(e, index[n - 1], e, index[t]);
      PutKeepsPlace(before, capacity, CacheKey(e, index[n - 1]), input[n - 1], x);
    }
  }

  lemma {:induction false} ReceivedDistinct(l: seq<Entry>, capacity: int, e: nat, input: seq<Bytes>,
                                            index: seq<nat>, n: nat)
    requires DistinctKeys(l) && n <= |index| <= |input|
    ensures DistinctKeys(AfterReceiving(l, capacity, e, input, index, n))
  {
    hide PutList, CacheKey, DistinctKeys;
    if n > 0 {
      ReceivedDistinct(l, capacity, e, input, index, n - 1);
      PutDistinct(AfterReceiving(l, capacity, e, input, index, n - 1), capacity, CacheKey(e, index[n - 1]),
        input[n - 1]);
    }
  }

  /** Whatever the cache holds of epoch e are the chunks w. */
  ghost predicate IsCurrent(l: seq<Entry>, e: nat, w: Mat) {
    forall i :: 0 <= i < |w| && HasKey(l, CacheKey(e, i)) ==> Latest(l, CacheKey(e, i)) == w[i]
  }

  /**
   After chunk i is put, the cache is current exactly if every other chunk of the epoch that survives was
   right before.
   */
  lemma CurrentAfterPut(l: seq<Entry>, capacity: int, e: nat, w: Mat, i: nat)
    requires DistinctKeys(l) && i < |w|
    ensures IsCurrent(PutList(l, capacity, CacheKey(e, i), w[i]), e, w) <==> OthersCurrent(l, capacity, e, w, i)
  {
    hide CacheKey, PutList, HasKey, Latest, Survives;
    var after := PutList(l, capacity, CacheKey(e, i), w[i]);
    forall j | 0 <= j < |w|
      ensures j == i && HasKey(after, CacheKey(e, j)) ==> Latest(after, CacheKey(e, j)) == w[j]
      ensures j != i ==> (HasKey(after, CacheKey(e, j)) <==> Survives(l, capacity, CacheKey(e, i), CacheKey(e, j)))
      ensures j != i && Survives(l, capacity, CacheKey(e, i), CacheKey(e, j)) ==>
        Latest(after, CacheKey(e, j)) == Latest(l, CacheKey(e, j))
    {
      KeysInjective(e, i, e, j);
      PutLookup(l, capacity, CacheKey(e, i), w[i], CacheKey(e, j));
    }
  }

  /** Every chunk of epoch e but chunk i that survives a put of chunk i is cached with its value in w. */
  ghost predicate OthersCurrent(l: seq<Entry>, capacity: int, e: nat, w: Mat, i: nat) {
    forall j :: 0 <= j < |w| && j != i && Survives(l, capacity, CacheKey(e, i), CacheKey(e, j)) ==>
      Latest(l, CacheKey(e, j)) == w[j]
  }

  class Erasure {
    const k: nat
    const m: nat
    const nodeId: NodeId
    const sealers: seq<NodeId>
    const draws: nat -> Draws
    const sha256: Bytes -> Bytes
    const position: nat
    var db: map<string, Bytes>
    const cache: Cache
    var completeEpoch: int

    /** The blocks of every epoch saved so far. */
    ghost var saved: map<nat, seq<Bytes>>

    /** What a node is configured with: k + m different sealers, endless draws, a digest of fixed length. */
    ghost predicate Configured() {
      && 1 <= k && 1 <= m && k + m < 256
      && |sealers| == k + m && Distinct(sealers)
      && (forall e: nat :: Recurring(draws(e), k + m))
      && forall b :: |sha256(b)| == DIGEST_LENGTH
    }

    ghost function Owner(e: nat, i: nat): (v: nat)
      requires Configured() && i < k + m
      ensures v < k + m
    {
      PlacementOf(draws(e), k + m)[i]
    }

    /** This node is the one that stores chunk i of epoch e in full. */
    ghost predicate Owns(e: nat, i: nat)
      requires Configured() && i < k + m
    {
      Owner(e, i) == position
    }

    /** The one chunk of an epoch that a sealer stores in full. */
    ghost function OwnIndex(e: nat): (i: nat)
      requires Configured() && position < k + m
      ensures i < k + m && Owns(e, i) && forall j :: 0 <= j < k + m && Owns(e, j) ==> j == i
    {
      hide Recurring, IsPlacement;
      PlacementCovers(draws(e), k + m, PlacementOf(draws(e), k + m), position);
      var i :| 0 <= i < k + m && PlacementOf(draws(e), k + m)[i] == position;
      i
    }

    ghost predicate KnowsItself() {
      if position < |sealers| then sealers[position] == nodeId
      else position == NOT_A_SEALER && nodeId !in sealers
    }

    /** The store has the right value for chunk i of w under its key. */
    ghost predicate Holds(d: map<string, Bytes>, e: nat, i: nat, w: Mat)
      requires Configured() && i < k + m == |w|
    {
      && GetChunkDataKey(e, i) in d
      && d[GetChunkDataKey(e, i)] == if Owns(e, i) then w[i] + sha256(w[i]) else sha256(w[i])
    }

    ghost predicate SavedEpochs()
      reads this`saved
    {
      forall e :: e in saved ==> |saved[e]| == k
    }

    /** The chunks of a saved epoch. */
    ghost function ChunksOf(e: nat): (w: Mat)
      requires Configured() && SavedEpochs() && e in saved
      reads this`saved
      ensures |w| == k + m
    {
      EpochChunksOf(k + m, k, saved[e])
    }

    ghost predicate HoldsSaved(d: map<string, Bytes>, e: nat, i: nat)
      requires Configured() && SavedEpochs() && e in saved && i < k + m
      reads this`saved
    {
      Holds(d, e, i, ChunksOf(e))
    }

    ghost predicate Stored()
      requires Configured() && SavedEpochs()
      reads this`db, this`saved
    {
      forall e, i :: e in saved && 0 <= i < k + m ==> HoldsSaved(db, e, i)
    }

    ghost predicate Valid()
      reads this, cache, cache.Repr()
    {
      && Configured() && KnowsItself() && SavedEpochs() && Stored()
      && this !in cache.Repr() && cache.Valid()
    }

    constructor (k: nat, m: nat, nodeId: NodeId, sealers: seq<NodeId>, cacheCapacity: int, draws: nat -> Draws,
                 sha256: Bytes -> Bytes)
      ensures this.k == k && this.m == m && this.nodeId == nodeId && this.sealers == sealers
      ensures this.draws == draws && this.sha256 == sha256 && cache.capacity == cacheCapacity
      ensures if nodeId in sealers then position < |sealers| && sealers[position] == nodeId
              else position == NOT_A_SEALER
      ensures saved == map[] && db == map[] && completeEpoch == -1
      ensures cache.Valid() && cache.Contents() == [] && fresh(cache.Repr()) && this !in cache.Repr()
      ensures Configured() ==> Valid()
    {
      var index := FindSequenceInSealers(nodeId, sealers);
      var newCache := new Cache(cacheCapacity);
      this.k, this.m, this.nodeId, this.sealers, this.draws, this.sha256 := k, m, nodeId, sealers, draws, sha256;
      position := index;
      db := map[];
      cache := newCache;
      completeEpoch := -1;
      saved := map[];
    }

    static method FindSequenceInSealers(nodeId: NodeId, sealers: seq<NodeId>) returns (position: nat)
      ensures if nodeId in sealers then position < |sealers| && sealers[position] == nodeId
              else position == 0xFFFF_FFFF
    {
      for i := 0 to |sealers|
        invariant nodeId !in sealers[..i]
      {
        if nodeId == sealers[i] {
          return i;
        }
      }
      return NOT_A_SEALER;
    }

    // ----- saving an epoch

    method WriteDb(epoch: nat, pos: nat, chunk: Bytes, full: bool) returns (ok: bool)
      requires cache.Valid() && this !in cache.Repr()
      modifies this`db, cache.Repr()
      ensures ok && cache.Valid() && fresh(cache.Repr() - old(cache.Repr()))
      ensures db == old(db)[GetChunkDataKey(epoch, pos) := if full then chunk + sha256(chunk) else sha256(chunk)]
      ensures cache.Contents() ==
        if full then PutList(old(cache.Contents()), cache.capacity, CacheKey(epoch, pos), chunk)
        else old(cache.Contents())
    {
      hide LruCache.Cache.Valid, PutList, GetChunkDataKey, CacheKey;
      var key := GetChunkDataKey(epoch, pos);
      var value := chunk;
      var digest := sha256(value);
      if full {
        cache.Put(CacheKey(epoch, pos), chunk);
        value := value + digest;
      } else {
        value := digest;
      }
      db := db[key := value];
      ok := true;
    }

    /** The cache after the first chunks of an epoch were written: only a sealer's own chunk enters it. */
    ghost function AfterWriting(l: seq<Entry>, e: nat, w: Mat, done: nat): seq<Entry>
      requires Configured() && done <= k + m == |w|
    {
      if position < k + m && OwnIndex(e) < done
      then PutList(l, cache.capacity, CacheKey(e, OwnIndex(e)), w[OwnIndex(e)])
      else l
    }

    lemma WritingStep(l: seq<Entry>, e: nat, w: Mat, i: nat)
      requires Configured() && i < k + m == |w|
      ensures AfterWriting(l, e, w, i + 1)
        == if Owns(e, i) then PutList(AfterWriting(l, e, w, i), cache.capacity, CacheKey(e, i), w[i])
           else AfterWriting(l, e, w, i)
    {
      hide Recurring, PutList, CacheKey;
    }

    ghost predicate OthersStored(d: map<string, Bytes>, e: nat)
      requires Configured() && SavedEpochs()
      reads this`saved
    {
      forall e', i :: e' in saved && e' != e && 0 <= i < k + m ==> HoldsSaved(d, e', i)
    }

    /** How far the writing of epoch e has got, from a cache with the entries l. */
    ghost predicate Saving(e: nat, w: Mat, done: nat, l: seq<Entry>)
      requires Configured() && SavedEpochs() && |w| == k + m && done <= k + m
      reads this, cache, cache.Repr()
    {
      && cache.Valid() && this !in cache.Repr()
      && OthersStored(db, e) && (forall i :: 0 <= i < done ==> Holds(db, e, i, w))
      && cache.Contents() == AfterWriting(l, e, w, done)
    }

    lemma SavingStarts(e: nat, w: Mat)
      requires Valid() && |w| == k + m
      ensures Saving(e, w, 0, cache.Contents())
    {
      hide Recurring, LruCache.Cache.Valid, Holds;
    }

    /** Writes one chunk: this node's own in full and into the cache, a digest of any other. */
    method StoreChunk(e: nat, i: nat, chunk: Bytes, owner: nat, ghost w: Mat, ghost l: seq<Entry>)
      requires Configured() && SavedEpochs() && |w| == k + m && i < k + m && Saving(e, w, i, l)
      requires chunk == w[i] && owner == Owner(e, i)
      modifies this`db, cache.Repr()
      ensures Saving(e, w, i + 1, l) && fresh(cache.Repr() - old(cache.Repr()))
    {
      hide LruCache.Cache.Valid, PutList, GetChunkDataKey, CacheKey, Recurring, SavedEpochs, OthersStored, Holds,
        AfterWriting;
      ghost var before := db;
      if owner != position {
        var written := WriteDb(e, i, chunk, false);
      } else {
        var written := WriteDb(e, i, chunk, true);
      }
      WritingStep(l, e, w, i);
      DbStep(before, db, e, i, w);
    }

    /** Writing one chunk leaves the values of all others in place. */
    lemma DbStep(before: map<string, Bytes>, after: map<string, Bytes>, e: nat, i: nat, w: Mat)
      requires Configured() && i < k + m == |w| && SavedEpochs()
      requires after == before[GetChunkDataKey(e, i) := if Owns(e, i) then w[i] + sha256(w[i]) else sha256(w[i])]
      requires OthersStored(before, e) && forall j :: 0 <= j < i ==> Holds(before, e, j, w)
      ensures OthersStored(after, e) && forall j :: 0 <= j < i + 1 ==> Holds(after, e, j, w)
    {
      hide GetChunkDataKey, Owns, Recurring, ChunksOf;
      forall j | 0 <= j < i
        ensures Holds(after, e, j, w)
      {
        assert Holds(before, e, j, w);
        KeysInjective(e, i, e, j);
      }
      forall e', i' | e' in saved && e' != e && 0 <= i' < k + m
        ensures HoldsSaved(after, e', i')
      {
        assert HoldsSaved(before, e', i');
        KeysInjective(e, i, e', i');
      }
    }

    /** Writes every chunk of an epoch. */
    method StoreChunks(e: nat, chunkSet: array<nat>, buf: array<Byte>, len: nat, ghost w: Mat)
      requires Configured() && SavedEpochs() && |w| == k + m && Saving(e, w, 0, cache.Contents())
      requires buf !in cache.Repr() && chunkSet !in cache.Repr()
      requires chunkSet[..] == PlacementOf(draws(e), k + m)
      requires InBounds(RowPtrs(k + m, len), len, buf.Length) && w == Shards(buf[..], RowPtrs(k + m, len), len)
      modifies this`db, cache.Repr()
      ensures Saving(e, w, k + m, old(cache.Contents())) && fresh(cache.Repr() - old(cache.Repr()))
    {
      hide Recurring, SavedEpochs, Saving;
      for i := 0 to k + m
        invariant Saving(e, w, i, old(cache.Contents())) && fresh(cache.Repr() - old(cache.Repr()))
        invariant buf[..] == old(buf[..]) && chunkSet[..] == old(chunkSet[..])
      {
        var p := RowPtrs(k + m, len)[i];
        var chunk := buf[p..p + len];
        assert chunk == Shard(buf[..], p, len) == w[i];
        StoreChunk(e, i, chunk, chunkSet[i], w, old(cache.Contents()));
      }
    }

    method EncodeEpoch(blocks: seq<Bytes>) returns (buf: array<Byte>, len: nat, ghost w: Mat)
      requires Configured() && |blocks| >= k
      ensures fresh(buf) && InBounds(RowPtrs(k + m, len), len, buf.Length)
      ensures w == Shards(buf[..], RowPtrs(k + m, len), len)
      ensures w == EpochChunksOf(k + m, k, blocks[..k])
    {
      hide Recurring, EpochChunksOf, Shard, Shards, MaxLen, RS.IsCoding, Coded;
      buf, len := Preprocess(blocks, k, m);
      EncodeRows(buf, len, k, m);
      w := Shards(buf[..], RowPtrs(k + m, len), len);
      ChunksAreEpochChunks(k + m, k, blocks, len, w);
    }

    /** Encodes an epoch and writes all of its chunks. */
    method WriteEpoch(epoch: nat, blocks: seq<Bytes>) returns (ghost w: Mat)
      requires Valid() && |blocks| >= k
      modifies this`db, cache.Repr()
      ensures w == EpochChunksOf(k + m, k, blocks[..k]) && |w| == k + m
      ensures Saving(epoch, w, k + m, old(cache.Contents())) && fresh(cache.Repr() - old(cache.Repr()))
    {
      hide Recurring, EpochChunksOf, LruCache.Cache.Valid, Saving, Stored, Shard, Shards, MaxLen, PlacementOf,
        IsPlacement;
      var chunkSet := GetDistinctChunkSet(draws(epoch), k + m);
      var buf, len;
      buf, len, w := EncodeEpoch(blocks);
      SavingStarts(epoch, w);
      StoreChunks(epoch, chunkSet, buf, len, w);
    }

    /** With all chunks written, the epoch counts as saved. */
    method RecordEpoch(e: nat, ghost blocks: seq<Bytes>, ghost w: Mat, ghost l: seq<Entry>)
      requires Configured() && KnowsItself() && SavedEpochs() && |w| == k + m && Saving(e, w, k + m, l)
      requires |blocks| == k && w == EpochChunksOf(k + m, k, blocks)
      modifies this`saved, this`completeEpoch
      ensures Valid() && saved == old(saved)[e := blocks] && completeEpoch == e
      ensures cache.Contents() == AfterWriting(l, e, w, k + m)
    {
      hide Recurring, EpochChunksOf, LruCache.Cache.Valid, Holds, AfterWriting;
      saved := saved[e := blocks];
      completeEpoch := e;
      forall e', i | e' in saved && 0 <= i < k + m
        ensures HoldsSaved(db, e', i)
      {
        if e' != e {
          assert old(HoldsSaved(db, e', i));
        } else {
          assert old(Holds(db, e, i, w));
        }
      }
    }

    /**
     Saves an epoch.  A sealer's own chunk enters the cache and nothing leaves it but by eviction: chunks of the
     epoch received before stay as they were, so the cache is current only if they are those of the new blocks.
     */
    method SaveChunk(blocks: seq<Bytes>, lastBlockNumber: nat)
      requires Valid() && |blocks| >= k && lastBlockNumber >= 1
      modifies this, cache.Repr()
      ensures Valid() && fresh(cache.Repr() - old(cache.Repr())) && completeEpoch == (lastBlockNumber - 1) / k
      ensures saved == old(saved)[(lastBlockNumber - 1) / k := blocks[..k]]
      ensures var e, w := (lastBlockNumber - 1) / k, EpochChunksOf(k + m, k, blocks[..k]);
        && cache.Contents() == AfterWriting(old(cache.Contents()), e, w, k + m)
        && (IsCurrent(cache.Contents(), e, w) <==>
            if position < k + m then OthersCurrent(old(cache.Contents()), cache.capacity, e, w, OwnIndex(e))
            else IsCurrent(old(cache.Contents()), e, w))
      ensures var e, w := (lastBlockNumber - 1) / k, EpochChunksOf(k + m, k, blocks[..k]);
        forall i :: 0 <= i < k + m ==>
          && GetChunkDataKey(e, i) in db
          && if PlacementOf(draws(e), k + m)[i] == position
             then db[GetChunkDataKey(e, i)] == w[i] + sha256(w[i])
               && cache.Contents() == PutList(old(cache.Contents()), cache.capacity, CacheKey(e, i), w[i])
             else db[GetChunkDataKey(e, i)] == sha256(w[i])
      ensures position >= k + m ==> cache.Contents() == old(cache.Contents())
    {
      hide Recurring, EpochChunksOf, IsCurrent, OthersCurrent, LruCache.Cache.Valid, Saving, Stored, OwnIndex,
        PutList, CacheKey, GetChunkDataKey, AfterWriting;
      var epoch := (lastBlockNumber - 1) / k;
      ghost var l := cache.Contents();
      cache.KeysAgree("");
      ghost var w := WriteEpoch(epoch, blocks);
      RecordEpoch(epoch, blocks[..k], w, l);
      if position < k + m {
        CurrentAfterPut(l, cache.capacity, epoch, w, OwnIndex(epoch));
      }
      EverythingWritten(l, epoch, w);
      ValuesStored(epoch);
    }

    /** What a save puts into the cache, whichever chunk the placement gives this node. */
    lemma EverythingWritten(l: seq<Entry>, e: nat, w: Mat)
      requires Configured() && |w| == k + m
      ensures position < k + m ==>
        AfterWriting(l, e, w, k + m) == PutList(l, cache.capacity, CacheKey(e, OwnIndex(e)), w[OwnIndex(e)])
      ensures forall i :: 0 <= i < k + m && PlacementOf(draws(e), k + m)[i] == position ==>
        AfterWriting(l, e, w, k + m) == PutList(l, cache.capacity, CacheKey(e, i), w[i])
      ensures position >= k + m ==> AfterWriting(l, e, w, k + m) == l
    {
      hide Recurring, PutList, CacheKey, OwnIndex;
      forall i | 0 <= i < k + m && Owner(e, i) == position
        ensures position < k + m && i == OwnIndex(e)
      {
        assert Owns(e, i);
      }
    }

    /** The values stored for a saved epoch: chunk and digest for this node's own, the digest for any other. */
    lemma ValuesStored(e: nat)
      requires Configured() && SavedEpochs() && Stored() && e in saved
      ensures forall i :: 0 <= i < k + m ==>
        && GetChunkDataKey(e, i) in db
        && db[GetChunkDataKey(e, i)] ==
          if PlacementOf(draws(e), k + m)[i] == position then ChunksOf(e)[i] + sha256(ChunksOf(e)[i])
          else sha256(ChunksOf(e)[i])
    {
      hide Recurring, EpochChunksOf, GetChunkDataKey, ChunksOf;
      forall i | 0 <= i < k + m
        ensures GetChunkDataKey(e, i) in db
        ensures db[GetChunkDataKey(e, i)] ==
          if PlacementOf(draws(e), k + m)[i] == position then ChunksOf(e)[i] + sha256(ChunksOf(e)[i])
          else sha256(ChunksOf(e)[i])
      {
        assert HoldsSaved(db, e, i);
      }
    }

    // ----- reading a block

    method ComputeBlocksInWhichNode(blockNumber: nat) returns (target: NodeId)
      requires Configured() && KnowsItself() && blockNumber >= 1
      ensures var (e, p) := ComputeChunkPosition(blockNumber, k);
        && target == sealers[PlacementOf(draws(e), k + m)[p]]
        && (target == nodeId <==> PlacementOf(draws(e), k + m)[p] == position)
    {
      hide Recurring, ComputeChunkPosition;
      var (epoch, chunkPos) := ComputeChunkPosition(blockNumber, k);
      var chunkSet := GetDistinctChunkSet(draws(epoch), k + m);
      var targetIdx := chunkSet[chunkPos];
      assert targetIdx == chunkSet[..][chunkPos];
      target := sealers[targetIdx];
    }

    method ReadChunk(epoch: nat, pos: nat) returns (value: Bytes)
      requires GetChunkDataKey(epoch, pos) in db
      ensures value == db[GetChunkDataKey(epoch, pos)]
    {
      value := db[GetChunkDataKey(epoch, pos)];
    }

    /** A chunk is unpacked only if its own digest stands behind it; a damaged value is answered with nothing. */
    method LocalReadBlock(epoch: nat, pos: nat) returns (block: Bytes)
      requires GetChunkDataKey(epoch, pos) in db && |db[GetChunkDataKey(epoch, pos)]| >= DIGEST_LENGTH
      requires var value := db[GetChunkDataKey(epoch, pos)];
        var c, d := value[..|value| - DIGEST_LENGTH], value[|value| - DIGEST_LENGTH..];
        sha256(c) == d ==> IsFramed(c)
      ensures var value := db[GetChunkDataKey(epoch, pos)];
        var c, d := value[..|value| - DIGEST_LENGTH], value[|value| - DIGEST_LENGTH..];
        block == if sha256(c) == d then UnpackChunkToBlock(c) else []
      ensures
        forall c, d :: |d| == DIGEST_LENGTH && db[GetChunkDataKey(epoch, pos)] == c + d
          ==>
            && (sha256(c) != d ==> block == [])
            && (sha256(c) == d ==> IsFramed(c) && block == UnpackChunkToBlock(c))
    {
      hide GetChunkDataKey, IsFramed, UnpackChunkToBlock;
      var value := ReadChunk(epoch, pos);
      var chunkData := value[..|value| - DIGEST_LENGTH];
      var chunkDigest := value[|value| - DIGEST_LENGTH..];
      if sha256(chunkData) != chunkDigest {
        return [];
      }
      block := UnpackChunkToBlock(chunkData);
    }

    /**
     What the store holds for a chunk this node owns is a framed chunk and its digest, and gives the block saved,
     as far as the header can tell.
     */
    lemma OwnValue(e: nat, p: nat)
      requires Configured() && SavedEpochs() && Stored() && e in saved && p < k && Owns(e, p)
      ensures GetChunkDataKey(e, p) in db
      ensures |db[GetChunkDataKey(e, p)]| >= DIGEST_LENGTH
      ensures var value := db[GetChunkDataKey(e, p)];
        var c, d := value[..|value| - DIGEST_LENGTH], value[|value| - DIGEST_LENGTH..];
        sha256(c) == d && IsFramed(c) && UnpackChunkToBlock(c) == Readable(saved[e][p])
    {
      hide Recurring, GetChunkDataKey, Owns, EpochChunksOf, IsFramed, UnpackChunkToBlock, Readable;
      assert HoldsSaved(db, e, p);
      var c := ChunksOf(e)[p];
      SplitValue(c, sha256(c));
      UnpackDataChunk(k + m, k, saved[e], p);
    }

    lemma ValidParts()
      requires Valid()
      ensures Configured() && KnowsItself() && SavedEpochs() && Stored() && DistinctKeys(cache.Contents())
    {
      hide Configured, KnowsItself, SavedEpochs, Stored;
      cache.KeysAgree("");
    }

    /**
     What a read relies on: a cached chunk is framed, and an epoch whose chunk this node must have is among
     the saved ones.
     */
    ghost predicate CanRead(epochs: map<nat, seq<Bytes>>, l: seq<Entry>, e: nat, p: nat)
      requires Configured() && p < k
    {
      if HasKey(l, CacheKey(e, p)) && Latest(l, CacheKey(e, p)) != [] then IsFramed(Latest(l, CacheKey(e, p)))
      else Owns(e, p) ==> e in epochs && |epochs[e]| == k
    }

    /** The cached chunk's block, else the block saved if this node owns its chunk, else nothing. */
    ghost function Answer(epochs: map<nat, seq<Bytes>>, l: seq<Entry>, e: nat, p: nat): Bytes
      requires Configured() && p < k && CanRead(epochs, l, e, p)
    {
      if HasKey(l, CacheKey(e, p)) && Latest(l, CacheKey(e, p)) != []
      then UnpackChunkToBlock(Latest(l, CacheKey(e, p)))
      else if Owns(e, p) then Readable(epochs[e][p])
      else []
    }

    /** What a read answers, in terms of the entries themselves. */
    lemma AnswerIs(epochs: map<nat, seq<Bytes>>, l: seq<Entry>, e: nat, p: nat)
      requires Configured() && DistinctKeys(l) && p < k && CanRead(epochs, l, e, p)
      ensures forall i :: 0 <= i < |l| && l[i].key == CacheKey(e, p) && l[i].value != [] ==>
        IsFramed(l[i].value) && Answer(epochs, l, e, p) == UnpackChunkToBlock(l[i].value)
      ensures (forall i :: 0 <= i < |l| && l[i].key == CacheKey(e, p) ==> l[i].value == []) ==>
        if PlacementOf(draws(e), k + m)[p] == position
        then e in epochs && |epochs[e]| == k && Answer(epochs, l, e, p) == Readable(epochs[e][p])
        else Answer(epochs, l, e, p) == []
      ensures forall version: seq<Bytes> :: |version| >= k ==>
        Entry(CacheKey(e, p), EpochChunksOf(k + m, k, version)[p]) in l ==>
          Answer(epochs, l, e, p) == Readable(version[p])
    {
      hide Recurring, CacheKey, Latest, IsFramed, UnpackChunkToBlock, Readable, EpochChunksOf;
      forall i | 0 <= i < |l| && l[i].key == CacheKey(e, p)
        ensures HasKey(l, CacheKey(e, p)) && Latest(l, CacheKey(e, p)) == l[i].value
      {
        LatestAt(l, i);
      }
      forall version | |version| >= k
        ensures var c := EpochChunksOf(k + m, k, version)[p];
          c != [] && IsFramed(c) && UnpackChunkToBlock(c) == Readable(version[p])
      {
        UnpackDataChunk(k + m, k, version, p);
        FramedNotEmpty(EpochChunksOf(k + m, k, version)[p]);
      }
    }

    /**
     A chunk in the cache is unpacked, own or not, current or not; without one the block saved is read if this
     node owns its chunk, and nothing otherwise.
     */
    method GetBlockByNumber(blockNumber: nat) returns (block: Bytes)
      requires Valid() && blockNumber >= 1
      requires var (e, p) := ComputeChunkPosition(blockNumber, k); CanRead(saved, cache.Contents(), e, p)
      modifies cache.Repr()
      ensures Valid() && fresh(cache.Repr() - old(cache.Repr()))
      ensures var (e, p) := ComputeChunkPosition(blockNumber, k);
        && cache.Contents() == GetList(old(cache.Contents()), CacheKey(e, p))
        && block == Answer(saved, old(cache.Contents()), e, p)
      ensures var (e, p), l := ComputeChunkPosition(blockNumber, k), old(cache.Contents());
        forall i :: 0 <= i < |l| && l[i].key == CacheKey(e, p) && l[i].value != [] ==>
          IsFramed(l[i].value) && block == UnpackChunkToBlock(l[i].value)
      ensures var (e, p), l := ComputeChunkPosition(blockNumber, k), old(cache.Contents());
        (forall i :: 0 <= i < |l| && l[i].key == CacheKey(e, p) ==> l[i].value == []) ==>
          if PlacementOf(draws(e), k + m)[p] == position then e in saved && block == Readable(saved[e][p])
          else block == []
      ensures var (e, p), l := ComputeChunkPosition(blockNumber, k), old(cache.Contents());
        forall version: seq<Bytes> :: |version| >= k ==>
          forall i :: 0 <= i < |l| && l[i] == Entry(CacheKey(e, p), EpochChunksOf(k + m, k, version)[p]) ==>
            block == Readable(version[p])
    {
      hide Recurring, Valid, GetChunkDataKey, CacheKey, PlacementOf, IsFramed, UnpackChunkToBlock, Readable, GetList,
        HasKey, Latest, ComputeChunkPosition, EpochChunksOf;
      ValidParts();
      var (epoch, chunkPos) := ComputeChunkPosition(blockNumber, k);
      AnswerIs(saved, cache.Contents(), epoch, chunkPos);
      var chunkData := GetCachedChunk(epoch, chunkPos);
      if |chunkData| > 0 {
        return UnpackChunkToBlock(chunkData);
      }
      block := GetStoredBlock(blockNumber);
    }

    /** The first half of a read: the chunk cached under the key, if there is one. */
    method GetCachedChunk(epoch: nat, pos: nat) returns (chunkData: Bytes)
      requires Valid()
      modifies cache.Repr()
      ensures Valid() && fresh(cache.Repr() - old(cache.Repr()))
      ensures cache.Contents() == GetList(old(cache.Contents()), CacheKey(epoch, pos))
      ensures chunkData == if HasKey(old(cache.Contents()), CacheKey(epoch, pos))
        then Latest(old(cache.Contents()), CacheKey(epoch, pos)) else []
    {
      hide Configured, SavedEpochs, KnowsItself, CacheKey, LruCache.Cache.Valid, Stored, HasKey, Latest, GetList;
      chunkData := cache.Get(CacheKey(epoch, pos));
    }

    /** The second half of a read: without a cached chunk, the store is asked if this node owns the chunk. */
    method GetStoredBlock(blockNumber: nat) returns (block: Bytes)
      requires Configured() && KnowsItself() && SavedEpochs() && Stored() && blockNumber >= 1
      requires var (e, p) := ComputeChunkPosition(blockNumber, k);
        PlacementOf(draws(e), k + m)[p] == position ==> e in saved
      ensures var (e, p) := ComputeChunkPosition(blockNumber, k);
        block == if PlacementOf(draws(e), k + m)[p] == position then Readable(saved[e][p]) else []
    {
      hide Recurring, KnowsItself, GetChunkDataKey, Stored, PlacementOf, IsFramed, UnpackChunkToBlock, Readable,
        ComputeChunkPosition;
      var (epoch, chunkPos) := ComputeChunkPosition(blockNumber, k);
      var target := ComputeBlocksInWhichNode(blockNumber);
      if target != nodeId {
        return [];
      }
      OwnValue(epoch, chunkPos);
      block := LocalReadBlock(epoch, chunkPos);
      if |block| == 0 {
        return [];
      }
    }

    // ----- decoding received chunks

    method Decode(input: seq<Bytes>, index: seq<nat>, targetBlockNumber: nat) returns (res: Bytes)
      requires Valid() && targetBlockNumber >= 1 && MayDecode(input, index, k + m)
      modifies cache.Repr()
      ensures Valid() && fresh(cache.Repr() - old(cache.Repr()))
      ensures var (e, p) := ComputeChunkPosition(targetBlockNumber, k);
        && cache.Contents() == AfterReceiving(old(cache.Contents()), cache.capacity, e, input, index, |index|)
        && res == Received(input, index, |index|, p, |input[0]|)
    {
      hide Recurring, LruCache.Cache.Valid, Stored, SavedEpochs, KnowsItself, AfterReceiving, Received,
        ComputeChunkPosition;
      var (epoch, chunkPos) := ComputeChunkPosition(targetBlockNumber, k);
      CacheReceived(cache, epoch, input, index);
      res := DecodeRow(input, index, chunkPos, k, m);
    }
  }

  lemma FramedNotEmpty(chunk: Bytes)
    requires IsFramed(chunk)
    ensures chunk != []
  {
  }

  lemma SplitValue(a: Bytes, b: Bytes)
    ensures (a + b)[..|a + b| - |b|] == a && (a + b)[|a + b| - |b|..] == b
  {
  }
}
