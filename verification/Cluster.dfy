/** Several nodes together: what any k of them store is enough to read every block of an epoch. */
module Cluster {
  import opened Gf256
  import opened LinearAlgebra
  import opened Memory
  import opened Masks
  import opened Matrices
  import opened Pigeonhole
  import opened Encoder
  import opened EpochChunks
  import opened Decoding
  import opened Framing
  import opened Keys
  import opened Placement
  import opened Store
  import Recovery
  import RS = ReedSolomon

  /** A sealer of the network with k data chunks, m parity chunks and these draws. */
  ghost predicate IsMember(node: Erasure, k: nat, m: nat, draws: nat -> Draws) {
    node.Configured() && node.k == k && node.m == m && node.draws == draws && node.position < k + m
  }

  /** Different sealers of one network: all of them, or those that are still there. */
  ghost predicate AreMembers(nodes: seq<Erasure>, k: nat, m: nat, draws: nat -> Draws) {
    && (forall j :: 0 <= j < |nodes| ==> IsMember(nodes[j], k, m, draws))
    && Distinct(Positions(nodes))
  }

  ghost function Positions(nodes: seq<Erasure>): (p: seq<nat>)
    ensures |p| == |nodes| && forall j :: 0 <= j < |nodes| ==> p[j] == nodes[j].position
  {
    seq(|nodes|, j requires 0 <= j < |nodes| => nodes[j].position)
  }

  ghost predicate HasSaved(node: Erasure, e: nat, blocks: seq<Bytes>)
    reads node
  {
    node.Configured() && node.SavedEpochs() && node.Stored() && e in node.saved && node.saved[e] == blocks
  }

  ghost predicate HaveSaved(nodes: seq<Erasure>, e: nat, blocks: seq<Bytes>)
    reads nodes
  {
    forall j :: 0 <= j < |nodes| ==> HasSaved(nodes[j], e, blocks)
  }

  // ----- what the nodes store

  lemma SavedShape(node: Erasure, e: nat, blocks: seq<Bytes>)
    requires HasSaved(node, e, blocks)
    ensures 1 <= node.k && 1 <= node.m && node.k + node.m < 256 && |blocks| == node.k
  {
    hide Recurring, Erasure.Stored;
  }

  lemma StoredValue(node: Erasure, e: nat, blocks: seq<Bytes>, i: nat)
    requires HasSaved(node, e, blocks) && i < node.k + node.m
    ensures |blocks| == node.k && node.k + node.m < 256 && 1 <= node.k && 1 <= node.m
    ensures var chunk := EpochChunksOf(node.k + node.m, node.k, blocks)[i];
      && GetChunkDataKey(e, i) in node.db
      && node.db[GetChunkDataKey(e, i)]
        == if node.Owner(e, i) == node.position then chunk + node.sha256(chunk) else node.sha256(chunk)
  {
    hide Recurring, EpochChunksOf, GetChunkDataKey, Erasure.Owner;
    SavedShape(node, e, blocks);
    assert node.HoldsSaved(node.db, e, i);
  }

  /** Once all sealers saved an epoch, every chunk is stored in full by one of them, and the others have its digest. */
  lemma OneFullCopy(nodes: seq<Erasure>, k: nat, m: nat, draws: nat -> Draws, e: nat, blocks: seq<Bytes>, i: nat)
    returns (owner: nat)
    requires AreMembers(nodes, k, m, draws) && |nodes| == k + m && HaveSaved(nodes, e, blocks) && i < k + m
    ensures 1 <= k && 1 <= m && k + m < 256 && |blocks| == k && owner < |nodes|
    ensures forall j :: 0 <= j < |nodes| ==>
      && GetChunkDataKey(e, i) in nodes[j].db
      && var chunk := EpochChunksOf(k + m, k, blocks)[i];
      nodes[j].db[GetChunkDataKey(e, i)] ==
        if j == owner then chunk + nodes[j].sha256(chunk) else nodes[j].sha256(chunk)
  {
    hide Recurring, EpochChunksOf, HaveSaved, IsMember, GetChunkDataKey, PlacementOf;
    MemberStores(nodes, k, m, draws, e, blocks, i, 0);
    var chunk := EpochChunksOf(k + m, k, blocks)[i];
    var v := PlacementOf(draws(e), k + m)[i];
    PositionsCover(nodes, k, m, draws, v);
    owner :| 0 <= owner < |nodes| && Positions(nodes)[owner] == v;
    forall j | 0 <= j < |nodes|
      ensures GetChunkDataKey(e, i) in nodes[j].db
      ensures nodes[j].db[GetChunkDataKey(e, i)] ==
        if j == owner then chunk + nodes[j].sha256(chunk) else nodes[j].sha256(chunk)
    {
      MemberStores(nodes, k, m, draws, e, blocks, i, j);
      assert j != owner ==> Positions(nodes)[j] != v;
    }
  }

  lemma MemberStores(nodes: seq<Erasure>, k: nat, m: nat, draws: nat -> Draws, e: nat, blocks: seq<Bytes>, i: nat,
                     j: nat)
    requires AreMembers(nodes, k, m, draws) && HaveSaved(nodes, e, blocks) && i < k + m && j < |nodes|
    ensures 1 <= k && 1 <= m && k + m < 256 && |blocks| == k && Recurring(draws(e), k + m)
    ensures GetChunkDataKey(e, i) in nodes[j].db
    ensures var chunk := EpochChunksOf(k + m, k, blocks)[i];
      nodes[j].db[GetChunkDataKey(e, i)] ==
        if nodes[j].position == PlacementOf(draws(e), k + m)[i] then chunk + nodes[j].sha256(chunk)
        else nodes[j].sha256(chunk)
  {
    hide Recurring, EpochChunksOf, HasSaved, IsMember, GetChunkDataKey, PlacementOf, Distinct, Positions;
    MemberAt(nodes, k, m, draws, j, e, i);
    StoredValue(nodes[j], e, blocks, i);
  }

  lemma MemberAt(nodes: seq<Erasure>, k: nat, m: nat, draws: nat -> Draws, j: nat, e: nat, i: nat)
    requires AreMembers(nodes, k, m, draws) && j < |nodes| && i < k + m
    ensures IsMember(nodes[j], k, m, draws) && nodes[j].k == k && nodes[j].m == m && Recurring(draws(e), k + m)
    ensures nodes[j].Configured() && nodes[j].Owner(e, i) == PlacementOf(draws(e), k + m)[i]
  {
    hide Recurring;
  }

  lemma PositionsCover(nodes: seq<Erasure>, k: nat, m: nat, draws: nat -> Draws, v: nat)
    requires AreMembers(nodes, k, m, draws) && |nodes| == k + m && v < k + m
    ensures exists j :: 0 <= j < |nodes| && Positions(nodes)[j] == v
  {
    hide Erasure.Configured;
    DistinctBelow(Positions(nodes), k + m);
    assert v in Positions(nodes);
  }

  /** Every sealer that saved an epoch stores one chunk of it in full and only digests of all others. */
  lemma OneChunkEach(node: Erasure, e: nat, blocks: seq<Bytes>) returns (i: nat)
    requires HasSaved(node, e, blocks) && node.position < node.k + node.m
    ensures |blocks| == node.k && 1 <= node.k && 1 <= node.m && node.k + node.m < 256 && i < node.k + node.m
    ensures var w := EpochChunksOf(node.k + node.m, node.k, blocks);
      forall j :: 0 <= j < |w| ==>
        && GetChunkDataKey(e, j) in node.db
        && node.db[GetChunkDataKey(e, j)] == if j == i then w[j] + node.sha256(w[j]) else node.sha256(w[j])
  {
    hide Recurring, EpochChunksOf, GetChunkDataKey, Erasure.Owner, Erasure.OwnIndex;
    SavedShape(node, e, blocks);
    i := node.OwnIndex(e);
    var w := EpochChunksOf(node.k + node.m, node.k, blocks);
    forall j | 0 <= j < node.k + node.m
      ensures GetChunkDataKey(e, j) in node.db
      ensures node.db[GetChunkDataKey(e, j)] == if j == i then w[j] + node.sha256(w[j]) else node.sha256(w[j])
    {
      StoredValue(node, e, blocks, j);
      assert node.Owns(e, j) ==> j == i;
    }
  }

  // ----- reading an epoch from any k nodes

  /** The shards of one buffer, with the known ones marked. */
  ghost predicate KnownChunks(s: seq<Byte>, ptrs: seq<nat>, present: seq<bool>, len: nat, w: Mat)
    requires |ptrs| == |present| == |w| && InBounds(ptrs, len, |s|)
  {
    forall i :: 0 <= i < |ptrs| && present[i] ==> Shard(s, ptrs[i], len) == w[i]
  }

  /** Recovery and unpacking on one buffer: k true chunks of an epoch give every block. */
  method RecoverBlocks(buf: array<Byte>, len: nat, present: seq<bool>, k: nat, m: nat, ghost blocks: seq<Bytes>)
    returns (out: seq<Bytes>)
    requires 1 <= k && 1 <= m && k + m < 256 && |blocks| == k && len == ChunkLen(blocks, k)
    requires |present| == k + m && CountTrue(present) >= k && buf.Length == len * (k + m)
    requires InBounds(RowPtrs(k + m, len), len, buf.Length)
    requires KnownChunks(buf[..], RowPtrs(k + m, len), present, len, EpochChunksOf(k + m, k, blocks))
    modifies buf
    ensures |out| == k && forall i :: 0 <= i < k ==> out[i] == Readable(blocks[i])
  {
    hide RS.IsCoding, Coded, Rows, Recovery.IsRecovered, CountTrue, Apart, Shard, IsFramed, UnpackChunkToBlock,
      Readable, EpochChunksOf, IsEpochChunks, MaxLen, AllGiven;
    var ptrs := RowPtrs(k + m, len);
    RowPtrsApart(k + m, len, buf.Length);
    var encoder := CreateEncoder(k + m, k, len, AdvImpl);
    ghost var before, w := buf[..], EpochChunksOf(k + m, k, blocks);
    TrueChunks(Rows(encoder.codingMat), k + m, k, blocks, ptrs, present, len, before);
    var err := Recovery.Recover(buf, encoder, Given(ptrs), present);
    assert Shards(buf[..], ptrs, len) == w;
    out := [];
    for i := 0 to k
      invariant Shards(buf[..], ptrs, len) == w
      invariant |out| == i && forall j :: 0 <= j < i ==> out[j] == Readable(blocks[j])
    {
      var chunk := buf[ptrs[i]..ptrs[i] + len];
      ShardIsSlice(buf[..], ptrs[i], len);
      assert chunk == Shards(buf[..], ptrs, len)[i] == w[i];
      UnpackDataChunk(k + m, k, blocks, i);
      out := out + [UnpackChunkToBlock(chunk)];
    }
  }

  lemma TrueChunks(c: Mat, n: nat, k: nat, blocks: seq<Bytes>, ptrs: seq<nat>, present: seq<bool>, len: nat,
                   s: seq<Byte>)
    requires 1 <= k < n < 256 && |blocks| == k && RS.IsCoding(c, n, k) && len == ChunkLen(blocks, k)
    requires |ptrs| == |present| == n && InBounds(ptrs, len, |s|)
    requires KnownChunks(s, ptrs, present, len, EpochChunksOf(n, k, blocks))
    ensures IsMat(DataChunks(blocks, k), k, len) && EpochChunksOf(n, k, blocks) == Coded(c, DataChunks(blocks, k), len)
    ensures Recovery.PresentShardsOf(c, DataChunks(blocks, k), ptrs, present, len, s)
  {
    hide RS.IsBasisChange, Coded, Shard, MaxLen, Chunk, EpochChunksOf;
    var c': Mat :| EncodesTo(c', n, k, blocks, EpochChunksOf(n, k, blocks));
    RS.CodingUnique(c, c', n, k);
  }

  /** The chunk a node stores in full, taken from its store value. */
  method FetchChunk(node: Erasure, e: nat, i: nat, ghost blocks: seq<Bytes>) returns (chunk: Bytes)
    requires HasSaved(node, e, blocks) && i < node.k + node.m && node.Owner(e, i) == node.position
    ensures |blocks| == node.k && 1 <= node.k && 1 <= node.m && node.k + node.m < 256
    ensures chunk == EpochChunksOf(node.k + node.m, node.k, blocks)[i]
  {
    hide Recurring, EpochChunksOf, GetChunkDataKey, Erasure.Owner, Erasure.Stored, Erasure.SavedEpochs;
    StoredValue(node, e, blocks, i);
    ghost var c := EpochChunksOf(node.k + node.m, node.k, blocks)[i];
    var value := node.ReadChunk(e, i);
    SplitValue(c, node.sha256(c));
    chunk := value[..|value| - DIGEST_LENGTH];
  }

  /** What the gathering of chunks from the first t readers has brought; pos maps a node to its chunk. */
  ghost predicate Gathered(s: seq<Byte>, ptrs: seq<nat>, present: seq<bool>, len: nat, w: Mat,
                           pos: seq<nat>, readers: seq<nat>, t: nat)
    requires |ptrs| == |present| == |w| == |pos| && InBounds(ptrs, len, |s|) && t <= |readers|
  {
    && KnownChunks(s, ptrs, present, len, w) && CountTrue(present) == t
    && forall r :: t <= r < |readers| ==> readers[r] < |pos| && pos[readers[r]] < |present| && !present[pos[readers[r]]]
  }

  lemma GatherStep(before: seq<Byte>, after: seq<Byte>, ptrs: seq<nat>, present: seq<bool>, len: nat, w: Mat,
                   pos: seq<nat>, readers: seq<nat>, t: nat)
    requires |ptrs| == |present| == |w| == |pos| && InBounds(ptrs, len, |before|) && AllApart(ptrs, len)
      && t < |readers|
    requires Gathered(before, ptrs, present, len, w, pos, readers, t) && |after| == |before|
    requires Distinct(readers) && Distinct(pos)
    requires Shard(after, ptrs[pos[readers[t]]], len) == w[pos[readers[t]]]
    requires var p := ptrs[pos[readers[t]]];
      forall a :: 0 <= a < |before| && !(p <= a < p + len) ==> after[a] == before[a]
    ensures Gathered(after, ptrs, present[pos[readers[t]] := true], len, w, pos, readers, t + 1)
  {
    hide Shard, Apart, CountTrue;
    var i := pos[readers[t]];
    CountSet(present, i);
    forall r | 0 <= r < |ptrs| && r != i
      ensures Shard(after, ptrs[r], len) == Shard(before, ptrs[r], len)
    {
      OtherRowKept(before, after, ptrs, r, i, len);
    }
  }

  /** The positions are those the placement of epoch e gives the nodes. */
  ghost predicate ArePositions(d: Draws, n: nat, pos: seq<nat>)
    requires Recurring(d, n)
  {
    && |pos| == n && Distinct(pos)
    && forall v :: 0 <= v < n ==> pos[v] < n && PlacementOf(d, n)[pos[v]] == v
  }

  lemma InverseGivesPositions(d: Draws, n: nat, pos: seq<nat>)
    requires Recurring(d, n) && IsInversePlacement(PlacementOf(d, n), pos)
    ensures ArePositions(d, n, pos)
  {
    hide Recurring;
    var a := PlacementOf(d, n);
    forall v, v' | 0 <= v < v' < |pos|
      ensures pos[v] != pos[v']
    {
      assert a[pos[v]] == v && a[pos[v']] == v';
    }
  }

  /** Puts the chunks of the readers in place and marks them. */
  method Gather(readers: seq<Erasure>, k: nat, m: nat, draws: nat -> Draws, e: nat, position: array<nat>,
                buf: array<Byte>, present: array<bool>, len: nat, ghost blocks: seq<Bytes>)
    requires AreMembers(readers, k, m, draws) && HaveSaved(readers, e, blocks) && Recurring(draws(e), k + m)
    requires 1 <= k && 1 <= m && k + m < 256 && |blocks| == k && len == ChunkLen(blocks, k)
    requires ArePositions(draws(e), k + m, position[..]) && present.Length == k + m
    requires present as object != position && present as object != buf && buf as object != position
    requires InBounds(RowPtrs(k + m, len), len, buf.Length) && AllApart(RowPtrs(k + m, len), len)
    requires forall i :: 0 <= i < present.Length ==> !present[i]
    modifies buf, present
    ensures KnownChunks(buf[..], RowPtrs(k + m, len), present[..], len, EpochChunksOf(k + m, k, blocks))
    ensures CountTrue(present[..]) == |readers|
  {
    hide HasSaved, Gathered, CountTrue, Shard, Apart, Distinct, Erasure.Configured, EpochChunksOf, IsEpochChunks,
      Recurring, MaxLen;
    var ptrs := RowPtrs(k + m, len);
    ghost var pos, at, w := position[..], Positions(readers), EpochChunksOf(k + m, k, blocks);
    StartGathering(buf[..], ptrs, present[..], len, w, pos, at);
    for t := 0 to |readers|
      invariant HaveSaved(readers, e, blocks) && position[..] == pos
      invariant Gathered(buf[..], ptrs, present[..], len, w, pos, at, t)
    {
      var v := readers[t].position;
      var i := position[v];
      assert i == pos[at[t]];
      MemberAt(readers, k, m, draws, t, e, i);
      var chunk := FetchChunk(readers[t], e, i, blocks);
      ghost var before, marked := buf[..], present[..];
      CopyChunk(buf, ptrs[i], chunk);
      present[i] := true;
      GatherStep(before, buf[..], ptrs, marked, len, w, pos, at, t);
      assert present[..] == marked[i := true];
    }
    AllGathered(buf[..], ptrs, present[..], len, w, pos, at);
  }

  lemma StartGathering(s: seq<Byte>, ptrs: seq<nat>, present: seq<bool>, len: nat, w: Mat, pos: seq<nat>,
                       readers: seq<nat>)
    requires |ptrs| == |present| == |w| == |pos| && InBounds(ptrs, len, |s|)
    requires forall i :: 0 <= i < |present| ==> !present[i]
    requires forall t :: 0 <= t < |readers| ==> readers[t] < |pos|
    requires forall v :: 0 <= v < |pos| ==> pos[v] < |pos|
    ensures Gathered(s, ptrs, present, len, w, pos, readers, 0)
  {
    hide CountTrue;
    CountNone(present);
  }

  lemma AllGathered(s: seq<Byte>, ptrs: seq<nat>, present: seq<bool>, len: nat, w: Mat, pos: seq<nat>,
                    readers: seq<nat>)
    requires |ptrs| == |present| == |w| == |pos| && InBounds(ptrs, len, |s|)
    requires Gathered(s, ptrs, present, len, w, pos, readers, |readers|)
    ensures KnownChunks(s, ptrs, present, len, w) && CountTrue(present) == |readers|
  {
  }

  /**
   The guarantee of the whole store: the chunks that any k sealers hold in full, each put at the position
   the placement gives its node, recover and unpack to every block of the epoch.  Nothing is asked of the
   other sealers: they may have lost the epoch or never saved it.
   */
  method ReadEpoch(readers: seq<Erasure>, k: nat, m: nat, draws: nat -> Draws, e: nat, ghost blocks: seq<Bytes>)
    returns (out: seq<Bytes>)
    requires AreMembers(readers, k, m, draws) && |readers| == k && k >= 1 && HaveSaved(readers, e, blocks)
    ensures |out| == |blocks| == k && forall i :: 0 <= i < k ==> out[i] == Readable(blocks[i])
    ensures forall i :: 0 <= i < k ==> (out[i] == blocks[i] <==> |blocks[i]| < SIZE_LIMIT)
  {
    hide HasSaved, Erasure.Configured, EpochChunksOf, IsEpochChunks, Recurring, MaxLen, KnownChunks, CountTrue,
      Readable, Shard, AllApart, InBounds;
    SavedShape(readers[0], e, blocks);
    MemberAt(readers, k, m, draws, 0, e, 0);
    var position := GetChunkPosByNode(draws(e), k + m);
    InverseGivesPositions(draws(e), k + m, position[..]);
    var v := readers[0].position;
    var i := position[v];
    assert i == position[..][v];
    MemberAt(readers, k, m, draws, 0, e, i);
    var first := FetchChunk(readers[0], e, i, blocks);
    var len := |first|;
    var buf := new Byte[len * (k + m)](_ => 0);
    var present := new bool[k + m](_ => false);
    RowPtrsApart(k + m, len, buf.Length);
    Gather(readers, k, m, draws, e, position, buf, present, len, blocks);
    out := RecoverBlocks(buf, len, present[..], k, m, blocks);
    forall i | 0 <= i < k
      ensures out[i] == blocks[i] <==> |blocks[i]| < SIZE_LIMIT
    {
      ReadableIsWhole(blocks[i]);
    }
  }

  // ----- saving on several nodes

  ghost function Footprint(node: Erasure): (f: set<object>)
    reads node, node.cache
    ensures node in f && node.cache in f && node.cache.Repr() <= f
  {
    {node} + node.cache.Repr()
  }

  ghost function Footprints(nodes: seq<Erasure>): (f: seq<set<object>>)
    reads nodes, set i | 0 <= i < |nodes| :: nodes[i].cache
    ensures |f| == |nodes| && forall i :: 0 <= i < |nodes| ==> f[i] == Footprint(nodes[i])
  {
    seq(|nodes|, i requires 0 <= i < |nodes| reads nodes, set l | 0 <= l < |nodes| ::
      nodes[l].cache => Footprint(nodes[i]))
  }

  /** No two nodes share memory. */
  ghost predicate NoneShared(f: seq<set<object>>) {
    forall i, j :: 0 <= i < |f| && 0 <= j < |f| && i != j ==> f[i] !! f[j]
  }

  ghost predicate IsValid(node: Erasure)
    reads Footprint(node)
  {
    node.Valid()
  }

  method SaveOne(node: Erasure, blocks: seq<Bytes>, lastBlockNumber: nat)
    requires IsValid(node) && |blocks| >= node.k && lastBlockNumber >= 1
    modifies Footprint(node)
    ensures node.k >= 1 && fresh(Footprint(node) - old(Footprint(node)))
    ensures HasSaved(node, (lastBlockNumber - 1) / node.k, blocks[..node.k])
  {
    hide Erasure.Valid, Erasure.Configured, Erasure.SavedEpochs, Erasure.Stored, OthersCurrent, IsCurrent,
      Erasure.AfterWriting;
    node.ValidParts();
    AtLeastOne(node);
    node.SaveChunk(blocks, lastBlockNumber);
    node.ValidParts();
  }

  lemma AtLeastOne(node: Erasure)
    requires node.Configured()
    ensures node.k >= 1
  {
  }

  /** Each of the given nodes saves the same blocks. */
  method SaveAll(nodes: seq<Erasure>, k: nat, m: nat, draws: nat -> Draws, blocks: seq<Bytes>, lastBlockNumber: nat)
    requires AreMembers(nodes, k, m, draws) && NoneShared(Footprints(nodes))
    requires k >= 1 && |blocks| >= k && lastBlockNumber >= 1
    requires forall j :: 0 <= j < |nodes| ==> IsValid(nodes[j])
    modifies set j, o | 0 <= j < |nodes| && o in Footprint(nodes[j]) :: o
    ensures HaveSaved(nodes, (lastBlockNumber - 1) / k, blocks[..k])
  {
    hide IsValid, HasSaved, Footprint, Footprints, Erasure.Configured, Distinct;
    ghost var e, saved := (lastBlockNumber - 1) / k, blocks[..k];
    ghost var prints := Footprints(nodes);
    assert forall i, j :: 0 <= i < |nodes| && 0 <= j < |nodes| && i != j ==> nodes[i] !in prints[j] by {
      assert forall i :: 0 <= i < |nodes| ==> nodes[i] in prints[i];
    }
    for j := 0 to |nodes|
      invariant forall i :: 0 <= i < j ==> HasSaved(nodes[i], e, saved)
      invariant forall i :: j <= i < |nodes| ==> IsValid(nodes[i])
      invariant forall i :: j <= i < |nodes| ==> Footprint(nodes[i]) == prints[i] && allocated(prints[i])
    {
      label before:
      assert IsMember(nodes[j], k, m, draws);
      SaveOne(nodes[j], blocks, lastBlockNumber);
      forall i | j < i < |nodes|
        ensures IsValid(nodes[i])
      {
        assert prints[i] !! prints[j] && old@before(allocated(prints[i]));
        assert old@before(IsValid(nodes[i]));
      }
    }
  }

  lemma SomeMembers(nodes: seq<Erasure>, k: nat, m: nat, draws: nat -> Draws, chosen: seq<nat>)
    requires AreMembers(nodes, k, m, draws)
    requires Distinct(chosen) && forall t :: 0 <= t < |chosen| ==> chosen[t] < |nodes|
    ensures AreMembers(Pick(nodes, chosen), k, m, draws)
  {
    hide IsMember, Pick, Positions;
    var readers := Pick(nodes, chosen);
    forall s, t | 0 <= s < t < |readers|
      ensures Positions(readers)[s] != Positions(readers)[t]
    {
      assert Positions(readers)[s] == Positions(nodes)[chosen[s]] && Positions(readers)[t]
        == Positions(nodes)[chosen[t]];
      assert chosen[s] != chosen[t];
    }
  }

  /** From saving to reading: once some nodes have saved an epoch, any k of them give back its blocks. */
  method SaveThenRead(nodes: seq<Erasure>, k: nat, m: nat, draws: nat -> Draws, blocks: seq<Bytes>,
                      lastBlockNumber: nat,
                      chosen: seq<nat>)
    returns (out: seq<Bytes>)
    requires AreMembers(nodes, k, m, draws) && NoneShared(Footprints(nodes))
    requires k >= 1 && |blocks| >= k && lastBlockNumber >= 1
    requires forall j :: 0 <= j < |nodes| ==> IsValid(nodes[j])
    requires |chosen| == k && Distinct(chosen) && forall t :: 0 <= t < |chosen| ==> chosen[t] < |nodes|
    modifies set j, o | 0 <= j < |nodes| && o in Footprint(nodes[j]) :: o
    ensures |out| == k && forall i :: 0 <= i < k ==> out[i] == Readable(blocks[i])
    ensures forall i :: 0 <= i < k ==> (out[i] == blocks[i] <==> |blocks[i]| < SIZE_LIMIT)
  {
    hide IsValid, HasSaved, Footprint, Footprints, NoneShared, AreMembers, Distinct, Pick, Readable;
    SaveAll(nodes, k, m, draws, blocks, lastBlockNumber);
    var readers := Pick(nodes, chosen);
    SomeMembers(nodes, k, m, draws, chosen);
    out := ReadEpoch(readers, k, m, draws, (lastBlockNumber - 1) / k, blocks[..k]);
  }
}
