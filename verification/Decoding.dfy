/**
 Decoding received chunks, as it is written: every shard is marked present before recovery,
 so recovery has nothing to rebuild.
 */
module Decoding {
  import opened Gf256
  import opened LinearAlgebra
  import opened Memory
  import opened Masks
  import opened Matrices
  import opened Encoder
  import opened EpochChunks
  import opened Framing
  import Recovery
  import RS = ReedSolomon

  /** What decode can take: positions in range, and no chunk longer than the first one. */
  predicate MayDecode(input: seq<Bytes>, index: seq<nat>, n: nat) {
    && input != [] && |index| <= |input|
    && forall i :: 0 <= i < |index| ==> index[i] < n && |input[i]| <= |input[0]|
  }

  /**
   What a row holds after the first n received chunks have been copied in: each one over what was there, zeros
   at first.
   */
  ghost function Received(input: seq<Bytes>, index: seq<nat>, n: nat, row: nat, len: nat): (r: Bytes)
    requires n <= |index| && n <= |input| && forall i :: 0 <= i < n ==> |input[i]| <= len
    ensures |r| == len
  {
    if n == 0 then Zero(len)
    else
      var before := Received(input, index, n - 1, row, len);
      if index[n - 1] == row then input[n - 1] + before[|input[n - 1]|..] else before
  }

  /** Byte by byte: the last chunk received for the row that is long enough, or zero. */
  lemma {:induction false} ReceivedByte(input: seq<Bytes>, index: seq<nat>, n: nat, row: nat, len: nat, b: nat)
    requires n <= |index| && n <= |input| && (forall i :: 0 <= i < n ==> |input[i]| <= len) && b < len
    ensures
      forall t :: 0 <= t < n && index[t] == row && b < |input[t]|
          && (forall s :: t < s < n ==> index[s] != row || |input[s]| <= b)
        ==> Received(input, index, n, row, len)[b] == input[t][b]
    ensures (forall t :: 0 <= t < n ==> index[t] != row || |input[t]| <= b) ==>
      Received(input, index, n, row, len)[b] == 0
  {
    if n > 0 {
      ReceivedByte(input, index, n - 1, row, len, b);
      ReceiveStep(input, index, n - 1, row, len);
      var before := Received(input, index, n - 1, row, len);
      hide Received;
      if index[n - 1] == row {
        OverlayByte(input[n - 1], before, b);
      }
    }
  }

  lemma OverlayByte(chunk: Bytes, before: Bytes, b: nat)
    requires |chunk| <= |before| && b < |before|
    ensures (chunk + before[|chunk|..])[b] == if b < |chunk| then chunk[b] else before[b]
  {
  }

  lemma {:induction false} AllPresent(mask: seq<bool>)
    requires forall i :: 0 <= i < |mask| ==> mask[i]
    ensures CountTrue(mask) == |mask|
  {
    if mask != [] {
      AllPresent(mask[..|mask| - 1]);
    }
  }

  /** Recovery with every shard marked present changes nothing. */
  lemma NothingRecovered(c: Mat, k: nat, shards: seq<nat>, present: seq<bool>, len: nat, before: seq<Byte>,
                         after: seq<Byte>)
    requires IsMat(c, |shards|, k) && |present| == |shards| && k <= CountTrue(present) && k <= |shards|
    requires InBounds(shards, len, |before|) && forall i :: 0 <= i < |present| ==> present[i]
    requires Recovery.IsRecovered(c, k, shards, present, len, before, after)
    ensures after == before
  {
    hide Coded, Shards, Pick, Recovery.Used;
    forall a | 0 <= a < |before|
      ensures after[a] == before[a]
    {
      assert !Recovery.CoveredByMissing(a, shards, present, len);
    }
  }

  method CopyChunk(buf: array<Byte>, p: nat, chunk: Bytes)
    requires p + |chunk| <= buf.Length
    modifies buf
    ensures Shard(buf[..], p, |chunk|) == chunk
    ensures forall a :: 0 <= a < buf.Length && !(p <= a < p + |chunk|) ==> buf[a] == old(buf[a])
  {
    for i := 0 to |chunk|
      invariant forall a :: p <= a < p + i ==> buf[a] == chunk[a - p]
      invariant forall a :: 0 <= a < buf.Length && !(p <= a < p + i) ==> buf[a] == old(buf[a])
    {
      buf[p + i] := chunk[i];
    }
  }

  method DecodeRow(input: seq<Bytes>, index: seq<nat>, row: nat, k: nat, m: nat) returns (res: Bytes)
    requires 1 <= k && 1 <= m && k + m < 256 && row < k + m && MayDecode(input, index, k + m)
    ensures res == Received(input, index, |index|, row, |input[0]|)
    ensures |res| == |input[0]|
    ensures
      forall b, t :: 0 <= b < |res| && 0 <= t < |index| && index[t] == row && b < |input[t]|
          && (forall s :: t < s < |index| ==> index[s] != row || |input[s]| <= b)
        ==> res[b] == input[t][b]
    ensures
      forall b :: 0 <= b < |res| && (forall t :: 0 <= t < |index| ==> index[t] != row || |input[t]| <= b)
        ==> res[b] == 0
  {
    hide RS.IsCoding, Rows, Shard, Apart, Received, Recovery.IsRecovered, CountTrue, AllGiven;
    var len, n := |input[0]|, k + m;
    var present := new bool[n](_ => false);
    var data := new Byte[len * n](_ => 0);
    var ptrs := RowPtrs(n, len);
    RowPtrsApart(n, len, data.Length);
    for i := 0 to n
      invariant forall j :: 0 <= j < i ==> present[j]
      invariant forall a :: 0 <= a < data.Length ==> data[a] == 0
    {
      present[i] := true;
    }
    StartZero(data[..], ptrs, input, index, len);
    for i := 0 to |index|
      invariant forall j :: 0 <= j < n ==> present[j]
      invariant forall r :: 0 <= r < n ==> Shard(data[..], ptrs[r], len) == Received(input, index, i, r, len)
    {
      var seq' := index[i];
      ghost var before := data[..];
      present[seq'] := true;
      CopyChunk(data, ptrs[seq'], input[i]);
      forall r | 0 <= r < n
        ensures Shard(data[..], ptrs[r], len) == Received(input, index, i + 1, r, len)
      {
        ReceiveStep(input, index, i, r, len);
        if r != seq' {
          OtherRowKept(before, data[..], ptrs, r, seq', len);
        } else {
          RowOverwritten(before, data[..], ptrs[r], input[i], len);
        }
      }
    }
    RecoverAll(data, ptrs, present[..], len, k, m);
    res := data[ptrs[row]..ptrs[row] + len];
    ShardIsSlice(data[..], ptrs[row], len);
    forall b | 0 <= b < len
      ensures
        forall t :: 0 <= t < |index| && index[t] == row && b < |input[t]|
            && (forall s :: t < s < |index| ==> index[s] != row || |input[s]| <= b)
          ==> res[b] == input[t][b]
      ensures (forall t :: 0 <= t < |index| ==> index[t] != row || |input[t]| <= b) ==> res[b] == 0
    {
      ReceivedByte(input, index, |index|, row, len, b);
    }
  }

  /** Recovery as decode calls it: there is no encoder for chunks of length zero, and nothing is missing. */
  method RecoverAll(data: array<Byte>, ptrs: seq<nat>, present: seq<bool>, len: nat, k: nat, m: nat)
    requires 1 <= k && 1 <= m && k + m < 256 && |ptrs| == |present| == k + m
    requires InBounds(ptrs, len, data.Length) && AllApart(ptrs, len)
    requires forall i :: 0 <= i < |present| ==> present[i]
    modifies data
    ensures data[..] == old(data[..])
  {
    hide RS.IsCoding, Rows, Recovery.IsRecovered, CountTrue, AllGiven, AllApart, InBounds;
    var encoder := CreateEncoder(k + m, k, len, AdvImpl);
    if encoder == null {
      return;
    }
    AllPresent(present);
    ghost var received := data[..];
    var err := Recovery.Recover(data, encoder, Given(ptrs), present);
    NothingRecovered(Rows(encoder.codingMat), k, ptrs, present, len, received, data[..]);
  }

  lemma ShardIsSlice(s: seq<Byte>, p: nat, n: nat)
    requires p + n <= |s|
    ensures Shard(s, p, n) == s[p..p + n]
  {
  }

  lemma StartZero(s: seq<Byte>, ptrs: seq<nat>, input: seq<Bytes>, index: seq<nat>, len: nat)
    requires InBounds(ptrs, len, |s|) && forall a :: 0 <= a < |s| ==> s[a] == 0
    ensures forall r :: 0 <= r < |ptrs| ==> Shard(s, ptrs[r], len) == Received(input, index, 0, r, len)
  {
    forall r | 0 <= r < |ptrs|
      ensures Shard(s, ptrs[r], len) == Zero(len)
    {
    }
  }

  lemma ReceiveStep(input: seq<Bytes>, index: seq<nat>, i: nat, row: nat, len: nat)
    requires i < |index| && i < |input| && forall j :: 0 <= j <= i ==> |input[j]| <= len
    ensures var before := Received(input, index, i, row, len);
      Received(input, index, i + 1, row, len) == if index[i] == row then input[i] + before[|input[i]|..] else before
  {
  }

  lemma OtherRowKept(before: seq<Byte>, after: seq<Byte>, ptrs: seq<nat>, r: nat, w: nat, len: nat)
    requires r < |ptrs| && w < |ptrs| && r != w && InBounds(ptrs, len, |before|) && AllApart(ptrs, len)
    requires |after| == |before|
    requires forall a :: 0 <= a < |before| && !(ptrs[w] <= a < ptrs[w] + len) ==> after[a] == before[a]
    ensures Shard(after, ptrs[r], len) == Shard(before, ptrs[r], len)
  {
    assert Apart(ptrs[if r < w then r else w], ptrs[if r < w then w else r], len);
    ShardSame(before, after, ptrs[r], len);
  }

  lemma RowOverwritten(before: seq<Byte>, after: seq<Byte>, p: nat, chunk: Bytes, len: nat)
    requires |chunk| <= len && p + len <= |before| == |after| && Shard(after, p, |chunk|) == chunk
    requires forall a :: 0 <= a < |before| && !(p <= a < p + |chunk|) ==> after[a] == before[a]
    ensures Shard(after, p, len) == chunk + Shard(before, p, len)[|chunk|..]
  {
    var s := after[p..p + len];
    assert s[..|chunk|] == after[p..p + |chunk|];
    assert s[|chunk|..] == before[p..p + len][|chunk|..];
    assert s == s[..|chunk|] + s[|chunk|..];
  }

  // ----- when decoding gives the right chunk

  /** A block whose chunk is all zeros: only zero bytes, and a size whose header wraps to zero. */
  ghost predicate FramesToZeros(block: Bytes) {
    |block| % SIZE_LIMIT == 0 && block == Zero(|block|)
  }

  lemma ZeroChunk(block: Bytes, maxLen: nat)
    requires |block| <= maxLen
    ensures Chunk(block, maxLen) == Zero(HEADER + maxLen) <==> FramesToZeros(block)
  {
    hide Header, BlockSize;
    var c := Chunk(block, maxLen);
    assert c[..HEADER] == Header(|block|);
    HeaderValue(|block|, c);
    if c == Zero(HEADER + maxLen) {
      ZeroSize(c);
      assert block == c[HEADER..HEADER + |block|];
    }
    if FramesToZeros(block) {
      SizeZero(c);
      assert c == Header(|block|) + Zero(|block|) + Zero(maxLen - |block|);
    }
  }

  lemma ZeroSize(c: Bytes)
    requires |c| >= HEADER && c == Zero(|c|)
    ensures BlockSize(c) == 0
  {
  }

  lemma SizeZero(c: Bytes)
    requires |c| >= HEADER && BlockSize(c) == 0
    ensures c[..HEADER] == Zero(HEADER)
  {
    AsIntInjective(c[0], 0);
    AsIntInjective(c[1], 0);
    AsIntInjective(c[2], 0);
  }

  /** The chunks passed to decode are those of these blocks, under their own positions. */
  ghost predicate AreChunksOf(input: seq<Bytes>, index: seq<nat>, n: nat, k: nat, blocks: seq<Bytes>) {
    && 1 <= k < n < 256 && k <= |blocks| && |index| <= |input|
    && forall i :: 0 <= i < |index| ==> index[i] < n && input[i] == EpochChunksOf(n, k, blocks)[index[i]]
  }

  lemma {:induction false} ReceivedRow(w: Mat, input: seq<Bytes>, index: seq<nat>, n: nat, row: nat, len: nat)
    requires n <= |index| <= |input| && row < |w| && IsMat(w, |w|, len)
    requires forall i :: 0 <= i < |index| ==> index[i] < |w| && input[i] == w[index[i]]
    ensures Received(input, index, n, row, len) == if row in index[..n] then w[row] else Zero(len)
  {
    if n > 0 {
      ReceivedRow(w, input, index, n - 1, row, len);
      assert index[..n] == index[..n - 1] + [index[n - 1]];
    }
  }

  lemma ZeroDataChunk(n: nat, k: nat, blocks: seq<Bytes>, p: nat)
    requires 1 <= k < n < 256 && k <= |blocks| && p < k
    ensures EpochChunksOf(n, k, blocks)[p] == Zero(ChunkLen(blocks, k)) <==> FramesToZeros(blocks[p])
  {
    hide Chunk, MaxLen, EpochChunksOf, IsEpochChunks, Zero, FramesToZeros;
    DataChunkOf(n, k, blocks, p);
    ZeroChunk(blocks[p], MaxLen(blocks, k));
  }

  /**
   From true chunks of an epoch, decoding gives the wanted chunk exactly when that very chunk was
   among those received, or is all zeros anyway: a chunk that was not received is never rebuilt.
   */
  lemma DecodesOnlyWhatItWasGiven(n: nat, k: nat, blocks: seq<Bytes>, input: seq<Bytes>, index: seq<nat>, p: nat)
    requires AreChunksOf(input, index, n, k, blocks) && p < k
    ensures Received(input, index, |index|, p, ChunkLen(blocks, k)) == EpochChunksOf(n, k, blocks)[p]
      <==> p in index || (|blocks[p]| % SIZE_LIMIT == 0 && forall i :: 0 <= i < |blocks[p]| ==> blocks[p][i] == 0)
  {
    hide IsEpochChunks, EpochChunksOf, ChunkLen, Received, Zero;
    ReceivedRow(EpochChunksOf(n, k, blocks), input, index, |index|, p, ChunkLen(blocks, k));
    assert index[..|index|] == index;
    ZeroDataChunk(n, k, blocks, p);
    assert blocks[p] == Zero(|blocks[p]|) <==> forall i :: 0 <= i < |blocks[p]| ==> blocks[p][i] == 0;
  }

  /** Two nodes, the one-byte block 1, and only the parity chunk at hand: the data chunk is not rebuilt. */
  method DecodeFails(input: Bytes) returns (res: Bytes)
    requires input == EpochChunksOf(2, 1, [[1]])[1]
    ensures res != EpochChunksOf(2, 1, [[1]])[0]
  {
    res := DecodeRow([input], [1], 0, 1, 1);
    DecodesOnlyWhatItWasGiven(2, 1, [[1]], [input], [1], 0);
  }
}
