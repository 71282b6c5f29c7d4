/** The chunks that encode one epoch of blocks. */
module EpochChunks {
  import opened Gf256
  import opened LinearAlgebra
  import opened Memory
  import opened Matrices
  import opened Encoder
  import opened Framing
  import Invertibility
  import RS = ReedSolomon

  ghost function ChunkLen(blocks: seq<Bytes>, k: nat): nat
    requires 1 <= k <= |blocks|
  {
    HEADER + MaxLen(blocks, k)
  }

  ghost predicate EncodesTo(c: Mat, n: nat, k: nat, blocks: seq<Bytes>, w: Mat)
    requires 1 <= k < n < 256 && k <= |blocks|
  {
    RS.IsCoding(c, n, k) && w == Coded(c, DataChunks(blocks, k), ChunkLen(blocks, k))
  }

  /** The n chunks that encode the first k blocks. */
  ghost predicate IsEpochChunks(n: nat, k: nat, blocks: seq<Bytes>, w: Mat) {
    && 1 <= k < n < 256 && k <= |blocks|
    && IsMat(w, n, ChunkLen(blocks, k))
    && exists c: Mat :: EncodesTo(c, n, k, blocks, w)
  }

  /** All nodes compute the same chunks. */
  lemma EpochChunksUnique(n: nat, k: nat, blocks: seq<Bytes>, w: Mat, w': Mat)
    requires IsEpochChunks(n, k, blocks, w) && IsEpochChunks(n, k, blocks, w')
    ensures w == w'
  {
    hide RS.IsCoding, Coded, DataChunks, MaxLen, Chunk;
    var c: Mat :| EncodesTo(c, n, k, blocks, w);
    var c': Mat :| EncodesTo(c', n, k, blocks, w');
    RS.CodingUnique(c, c', n, k);
  }

  lemma EpochChunksExist(n: nat, k: nat, blocks: seq<Bytes>)
    requires 1 <= k < n < 256 && k <= |blocks|
    ensures exists w: Mat :: IsEpochChunks(n, k, blocks, w)
  {
    hide RS.IsBasisChange, Coded, DataChunks, MaxLen, Chunk;
    Invertibility.CodingExists(n, k);
    var c: Mat :| RS.IsCoding(c, n, k);
    var w := Coded(c, DataChunks(blocks, k), ChunkLen(blocks, k));
    assert EncodesTo(c, n, k, blocks, w);
    assert IsEpochChunks(n, k, blocks, w);
  }

  /** Whoever encodes these blocks gets these chunks. */
  ghost function EpochChunksOf(n: nat, k: nat, blocks: seq<Bytes>): (w: Mat)
    requires 1 <= k < n < 256 && k <= |blocks|
    ensures IsEpochChunks(n, k, blocks, w) && IsMat(w, n, ChunkLen(blocks, k))
  {
    hide IsEpochChunks;
    EpochChunksExist(n, k, blocks);
    var w: Mat :| IsEpochChunks(n, k, blocks, w);
    EpochChunksShape(n, k, blocks, w);
    w
  }

  lemma EpochChunksShape(n: nat, k: nat, blocks: seq<Bytes>, w: Mat)
    requires IsEpochChunks(n, k, blocks, w)
    ensures 1 <= k < n < 256 && k <= |blocks| && IsMat(w, n, ChunkLen(blocks, k))
  {
    hide EncodesTo, MaxLen;
  }

  /** The first k chunks are the framed blocks themselves. */
  lemma DataChunkOf(n: nat, k: nat, blocks: seq<Bytes>, i: nat)
    requires 1 <= k < n < 256 && k <= |blocks| && i < k
    ensures EpochChunksOf(n, k, blocks)[i] == Chunk(blocks[i], MaxLen(blocks, k))
  {
    hide RS.IsBasisChange, Coded, DataChunks, Chunk, MaxLen, EpochChunksOf;
    var w := EpochChunksOf(n, k, blocks);
    var c: Mat :| EncodesTo(c, n, k, blocks, w);
    CodedIsSystematic(c, n, k, DataChunks(blocks, k), ChunkLen(blocks, k));
    assert w[..k][i] == w[i];
  }

  /** Unpacking a data chunk gives its block, as far as the header can tell. */
  lemma UnpackDataChunk(n: nat, k: nat, blocks: seq<Bytes>, i: nat)
    requires 1 <= k < n < 256 && k <= |blocks| && i < k
    ensures IsFramed(EpochChunksOf(n, k, blocks)[i])
    ensures UnpackChunkToBlock(EpochChunksOf(n, k, blocks)[i]) == Readable(blocks[i])
  {
    hide Chunk, IsFramed, UnpackChunkToBlock, EpochChunksOf, Readable;
    DataChunkOf(n, k, blocks, i);
    UnpackInvertsChunk(blocks[i], MaxLen(blocks, k));
  }

  /** Encodes the rows of one buffer in place, data rows first. */
  method EncodeRows(buf: array<Byte>, len: nat, k: nat, m: nat)
    requires 1 <= k && 1 <= m && k + m < 256 && len > 0 && buf.Length == len * (k + m)
    requires InBounds(RowPtrs(k, len), len, buf.Length)
    modifies buf
    ensures InBounds(RowPtrs(k + m, len), len, buf.Length)
    ensures exists c: Mat :: (RS.IsCoding(c, k + m, k)
      && Shards(buf[..], RowPtrs(k + m, len), len) == Coded(c, old(Shards(buf[..], RowPtrs(k, len), len)), len))
  {
    hide RS.IsCoding, Coded, Apart, Rows, AllGiven;
    var ptrs := RowPtrs(k + m, len);
    RowPtrsApart(k + m, len, buf.Length);
    var encoder := CreateEncoder(k + m, k, len, AdvImpl);
    assert ptrs[..k] == RowPtrs(k, len);
    assert ptrs[..k] + ptrs[k..] == ptrs;
    SplitRows(encoder, buf.Length, ptrs);
    var err := Encode(buf, encoder, Given(ptrs[..k]), Given(ptrs[k..]));
    assert RS.IsCoding(Rows(encoder.codingMat), k + m, k);
  }

  lemma SplitRows(e: RsEncoder, size: nat, ptrs: seq<nat>)
    requires |ptrs| == e.nShards && e.nData + e.nParity == e.nShards
    requires InBounds(ptrs, e.dataSize, size) && AllApart(ptrs, e.dataSize)
    ensures EncodeShape(e, size, ptrs[..e.nData], ptrs[e.nData..])
  {
    hide Apart;
  }

  lemma {:induction false} MaxLenPrefix(blocks: seq<Bytes>, k: nat, n: nat)
    requires 1 <= n <= k <= |blocks|
    ensures MaxLen(blocks[..k], n) == MaxLen(blocks, n)
  {
    if n > 1 {
      MaxLenPrefix(blocks, k, n - 1);
    }
  }

  /** Only the first k blocks of a longer list are encoded. */
  lemma ChunksAreEpochChunks(n: nat, k: nat, blocks: seq<Bytes>, len: nat, w: Mat)
    requires 1 <= k < n < 256 && k <= |blocks| && len == ChunkLen(blocks, k) && IsMat(w, n, len)
    requires exists c: Mat :: RS.IsCoding(c, n, k) && w == Coded(c, DataChunks(blocks, k), len)
    ensures w == EpochChunksOf(n, k, blocks[..k])
  {
    hide RS.IsBasisChange, Coded, Chunk, MaxLen, EpochChunksOf;
    MaxLenPrefix(blocks, k, k);
    assert DataChunks(blocks[..k], k) == DataChunks(blocks, k);
    var c: Mat :| RS.IsCoding(c, n, k) && w == Coded(c, DataChunks(blocks, k), len);
    assert EncodesTo(c, n, k, blocks[..k], w);
    EpochChunksUnique(n, k, blocks[..k], w, EpochChunksOf(n, k, blocks[..k]));
  }
}
