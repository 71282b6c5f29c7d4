/** Framing blocks into chunks of equal length: a three-digit base-255 size, the block, zero padding. */
module Framing {
  import opened Gf256
  import opened LinearAlgebra
  import opened Memory

  const HEADER: nat := 3

  /** The first size whose leading digit no longer fits a byte. */
  const SIZE_LIMIT: nat := 256 * 255 * 255

  function Digit(n: nat): (b: Byte)
  {
    (n % 256) as Byte
  }

  function Lead(size: nat): nat {
    size / (255 * 255)
  }

  function Middle(size: nat): nat {
    size / 255 % 255
  }

  function Last(size: nat): nat {
    size % 255
  }

  function Header(size: nat): (h: Bytes)
    ensures |h| == HEADER
  {
    [Digit(Lead(size)), Digit(Middle(size)), Digit(Last(size))]
  }

  ghost function Chunk(block: Bytes, maxLen: nat): (c: Bytes)
    requires |block| <= maxLen
    ensures |c| == HEADER + maxLen
  {
    Header(|block|) + block + Zero(maxLen - |block|)
  }

  function BlockSize(data: Bytes): nat
    requires |data| >= HEADER
  {
    (data[0] as int) * 255 * 255 + (data[1] as int) * 255 + data[2] as int
  }

  /** The size in the header stays within the data: what every reader of a chunk relies on. */
  predicate IsFramed(data: Bytes) {
    |data| >= HEADER && HEADER + BlockSize(data) <= |data|
  }

  function UnpackChunkToBlock(data: Bytes): Bytes
    requires IsFramed(data)
  {
    data[HEADER..HEADER + BlockSize(data)]
  }

  // ----- round trip

  lemma DigitValue(n: nat)
    ensures Digit(n) as int == n % 256
  {
    IntAsByte(n % 256);
  }

  lemma SizeDigits(size: nat)
    ensures Lead(size) % 256 * 65025 + Middle(size) * 255 + Last(size) == size % SIZE_LIMIT
    ensures Middle(size) < 255 && Last(size) < 255
  {
    var a := size / 255;
    assert size / 65025 == a / 255;
    assert size / 16646400 == size / 65025 / 256;
  }

  lemma SmallDigit(n: nat)
    requires n < 256
    ensures Digit(n) as int == n
  {
    DigitValue(n);
  }

  lemma DigitValues(size: nat)
    ensures Digit(Lead(size)) as int == Lead(size) % 256
    ensures Digit(Middle(size)) as int == Middle(size) && Digit(Last(size)) as int == Last(size)
  {
    hide *;
    SizeDigits(size);
    SmallDigit(Middle(size));
    SmallDigit(Last(size));
    DigitValue(Lead(size));
  }

  /** The three digits give the size back, short of the overflow of the leading one. */
  lemma HeaderValue(size: nat, data: Bytes)
    requires |data| >= HEADER && data[..HEADER] == Header(size)
    ensures BlockSize(data) == size % SIZE_LIMIT
  {
    hide *;
    HeaderBytes(size, data);
    DigitValues(size);
    SizeDigits(size);
    BlockSizeOf(data);
  }

  lemma BlockSizeOf(data: Bytes)
    requires |data| >= HEADER
    ensures BlockSize(data) == data[0] as int * 65025 + data[1] as int * 255 + data[2] as int
  {
  }

  lemma HeaderBytes(size: nat, data: Bytes)
    requires |data| >= HEADER && data[..HEADER] == Header(size)
    ensures data[0] == Digit(Lead(size)) && data[1] == Digit(Middle(size)) && data[2] == Digit(Last(size))
  {
    hide Digit, Lead, Middle, Last;
    var h := data[..HEADER];
    assert data[0] == h[0] && data[1] == h[1] && data[2] == h[2];
  }

  /** The header of a size, as numbers, most significant digit first. */
  lemma HeaderNumbers(size: nat)
    ensures |Header(size)| == 3
    ensures Header(size)[0] as int == size / (255 * 255) % 256
    ensures Header(size)[1] as int == size / 255 % 255
    ensures Header(size)[2] as int == size % 255
  {
    hide Lead, Middle, Last, Digit;
    DigitValues(size);
    LeadIs(size);
  }

  lemma LeadIs(size: nat)
    ensures Lead(size) == size / (255 * 255) && Middle(size) == size / 255 % 255 && Last(size) == size % 255
  {
  }

  /** A chunk byte by byte: three digits of the size, the block, zeros. */
  lemma ChunkBytes(block: Bytes, maxLen: nat)
    requires |block| <= maxLen
    ensures var c := Chunk(block, maxLen);
      && |c| == 3 + maxLen
      && c[0] as int == |block| / (255 * 255) % 256
      && c[1] as int == |block| / 255 % 255
      && c[2] as int == |block| % 255
      && (forall i :: 0 <= i < |block| ==> c[3 + i] == block[i])
      && forall i :: 3 + |block| <= i < 3 + maxLen ==> c[i] == 0
  {
    hide Header;
    HeaderNumbers(|block|);
    var c := Chunk(block, maxLen);
    assert c[0] == Header(|block|)[0] && c[1] == Header(|block|)[1] && c[2] == Header(|block|)[2];
  }

  /** Unpacking takes the bytes behind the header, as many as its digits say. */
  lemma UnpackTakes(data: Bytes)
    requires |data| >= 3 && 3 + data[0] as int * 65025 + data[1] as int * 255 + data[2] as int <= |data|
    ensures IsFramed(data)
    ensures UnpackChunkToBlock(data) == data[3..3 + data[0] as int * 65025 + data[1] as int * 255 + data[2] as int]
  {
    hide BlockSize, IsFramed, UnpackChunkToBlock;
    BlockSizeOf(data);
    UnpackSize(data);
  }

  lemma UnpackSize(data: Bytes)
    requires |data| >= 3 && 3 + BlockSize(data) <= |data|
    ensures IsFramed(data) && UnpackChunkToBlock(data) == data[3..3 + BlockSize(data)]
  {
    hide BlockSize;
  }

  /** What reading gives of a block: all of it, unless its size wraps the header. */
  function Readable(block: Bytes): Bytes {
    block[..|block| % SIZE_LIMIT]
  }

  lemma ReadableIsWhole(block: Bytes)
    ensures Readable(block) == block <==> |block| < SIZE_LIMIT
  {
  }

  /** A chunk unpacks to the first size-modulo-limit bytes of its block. */
  lemma UnpackInvertsChunk(block: Bytes, maxLen: nat)
    requires |block| <= maxLen
    ensures IsFramed(Chunk(block, maxLen))
    ensures UnpackChunkToBlock(Chunk(block, maxLen)) == Readable(block)
    ensures UnpackChunkToBlock(Chunk(block, maxLen)) == block <==> |block| < SIZE_LIMIT
  {
    hide Header, BlockSize;
    var c := Chunk(block, maxLen);
    assert c[..HEADER] == Header(|block|);
    HeaderValue(|block|, c);
    assert c[HEADER..HEADER + |block|] == block;
    var size := |block| % SIZE_LIMIT;
    assert c[HEADER..HEADER + size] == c[HEADER..HEADER + |block|][..size];
    ReadableIsWhole(block);
  }

  // ----- one buffer of equally long rows

  function MaxLen(blocks: seq<Bytes>, n: nat): (max: nat)
    requires 1 <= n <= |blocks|
    ensures forall i :: 0 <= i < n ==> |blocks[i]| <= max
    ensures exists i :: 0 <= i < n && |blocks[i]| == max
  {
    if n == 1 then |blocks[0]|
    else
      var max := MaxLen(blocks, n - 1);
      if |blocks[n - 1]| > max then |blocks[n - 1]| else max
  }

  method ComputeMaxLen(blocks: seq<Bytes>, n: nat) returns (max: nat)
    requires 1 <= n <= |blocks|
    ensures max == MaxLen(blocks, n)
  {
    max := |blocks[0]|;
    for i := 1 to n
      invariant max == MaxLen(blocks, i)
    {
      if |blocks[i]| > max {
        max := |blocks[i]|;
      }
    }
  }

  /** The chunks of the first k blocks. */
  ghost function DataChunks(blocks: seq<Bytes>, k: nat): (m: Mat)
    requires 1 <= k <= |blocks|
    ensures IsMat(m, k, HEADER + MaxLen(blocks, k))
    ensures forall i {:trigger m[i]} :: 0 <= i < k ==> m[i] == Chunk(blocks[i], MaxLen(blocks, k))
  {
    seq(k, i requires 0 <= i < k => Chunk(blocks[i], MaxLen(blocks, k)))
  }

  /** Where the rows of a buffer start. */
  function RowPtrs(n: nat, len: nat): (p: seq<nat>)
    ensures |p| == n && forall i :: 0 <= i < n ==> p[i] == len * i
  {
    seq(n, i requires 0 <= i => len * i)
  }

  lemma RowsInOrder(i: nat, j: nat, len: nat)
    requires i < j
    ensures len * i + len <= len * j
  {
    assert len * (i + 1) <= len * j;
  }

  lemma RowPtrsApart(n: nat, len: nat, size: nat)
    requires len * n <= size
    ensures InBounds(RowPtrs(n, len), len, size) && AllApart(RowPtrs(n, len), len)
  {
    var p := RowPtrs(n, len);
    forall i | 0 <= i < n
      ensures p[i] + len <= size
    {
      RowsInOrder(i, n, len);
    }
    forall i, j | 0 <= i < j < n
      ensures Apart(p[i], p[j], len)
    {
      RowsInOrder(i, j, len);
    }
  }

  /** Writes one block behind its header; the padding stays as it was. */
  method WriteRow(buf: array<Byte>, p: nat, block: Bytes)
    requires p + HEADER + |block| <= buf.Length
    modifies buf
    ensures buf[p..p + HEADER + |block|] == Header(|block|) + block
    ensures buf[p] as int == |block| / (255 * 255) % 256
    ensures buf[p + 1] as int == |block| / 255 % 255 && buf[p + 2] as int == |block| % 255
    ensures forall i :: 0 <= i < |block| ==> buf[p + 3 + i] == block[i]
    ensures forall a :: 0 <= a < buf.Length && !(p <= a < p + HEADER + |block|) ==> buf[a] == old(buf[a])
  {
    hide Digit, Lead, Middle, Last;
    var first, second, third := Lead(|block|), Middle(|block|), Last(|block|);
    buf[p] := Digit(first);
    buf[p + 1] := Digit(second);
    buf[p + 2] := Digit(third);
    for count := HEADER to |block| + HEADER
      invariant buf[p] == Digit(first) && buf[p + 1] == Digit(second) && buf[p + 2] == Digit(third)
      invariant forall a :: p + HEADER <= a < p + count ==> buf[a] == block[a - p - HEADER]
      invariant forall a :: 0 <= a < buf.Length && !(p <= a < p + count) ==> buf[a] == old(buf[a])
    {
      buf[p + count] := block[count - HEADER];
    }
    HeaderNumbers(|block|);
    assert buf[p..p + HEADER] == Header(|block|);
    ghost var body := buf[p + HEADER..p + HEADER + |block|];
    assert forall i :: 0 <= i < |block| ==> body[i] == buf[p + HEADER + i];
    assert body == block;
    assert buf[p..p + HEADER + |block|] == buf[p..p + HEADER] + buf[p + HEADER..p + HEADER + |block|];
  }

  lemma RowIsChunk(s: seq<Byte>, p: nat, block: Bytes, maxLen: nat)
    requires p + HEADER + maxLen <= |s| && |block| <= maxLen
    requires s[p..p + HEADER + |block|] == Header(|block|) + block
    requires forall a :: p + HEADER + |block| <= a < p + HEADER + maxLen ==> s[a] == 0
    ensures Shard(s, p, HEADER + maxLen) == Chunk(block, maxLen)
  {
    hide Header;
    assert Shard(s, p, HEADER + maxLen) == s[p..p + HEADER + |block|] + s[p + HEADER + |block|..p + HEADER + maxLen];
    assert s[p + HEADER + |block|..p + HEADER + maxLen] == Zero(maxLen - |block|);
  }

  ghost predicate IsOutside(a: int, rows: seq<nat>, n: nat, len: nat)
    requires n <= |rows|
  {
    forall r :: 0 <= r < n ==> !(rows[r] <= a < rows[r] + len)
  }

  method FillRows(buf: array<Byte>, blocks: seq<Bytes>, rows: seq<nat>, maxLen: nat)
    requires |rows| <= |blocks| && forall i :: 0 <= i < |rows| ==> |blocks[i]| <= maxLen
    requires InBounds(rows, HEADER + maxLen, buf.Length)
    requires forall i, j :: 0 <= i < j < |rows| ==> rows[i] + HEADER + maxLen <= rows[j]
    requires forall a :: 0 <= a < buf.Length ==> buf[a] == 0
    modifies buf
    ensures forall i :: 0 <= i < |rows| ==> Shard(buf[..], rows[i], HEADER + maxLen) == Chunk(blocks[i], maxLen)
    ensures OnlyShardsChanged(old(buf[..]), buf[..], rows, HEADER + maxLen)
  {
    hide Header, Chunk, Shard;
    for i := 0 to |rows|
      invariant forall r :: 0 <= r < i ==> Shard(buf[..], rows[r], HEADER + maxLen) == Chunk(blocks[r], maxLen)
      invariant forall a :: 0 <= a < buf.Length && IsOutside(a, rows, i, HEADER + maxLen) ==> buf[a] == 0
    {
      ghost var before := buf[..];
      WriteRow(buf, rows[i], blocks[i]);
      RowIsChunk(buf[..], rows[i], blocks[i], maxLen);
      forall r | 0 <= r < i
        ensures Shard(buf[..], rows[r], HEADER + maxLen) == Shard(before, rows[r], HEADER + maxLen)
      {
        ShardSame(before, buf[..], rows[r], HEADER + maxLen);
      }
    }
  }

  lemma ShardSame(s: seq<Byte>, t: seq<Byte>, p: nat, n: nat)
    requires |s| == |t| && p + n <= |s| && forall a :: p <= a < p + n ==> t[a] == s[a]
    ensures Shard(t, p, n) == Shard(s, p, n)
  {
  }

  method Preprocess(blocks: seq<Bytes>, k: nat, m: nat) returns (buf: array<Byte>, len: nat)
    requires 1 <= k <= |blocks|
    ensures fresh(buf) && len == HEADER + MaxLen(blocks, k) && buf.Length == len * (k + m)
    ensures InBounds(RowPtrs(k, len), len, buf.Length)
    ensures Shards(buf[..], RowPtrs(k, len), len) == DataChunks(blocks, k)
    ensures OnlyShardsChanged(seq(buf.Length, _ => 0), buf[..], RowPtrs(k, len), len)
  {
    hide Header, MaxLen, Chunk, Shard, Covered;
    var maxLen := ComputeMaxLen(blocks, k);
    len := HEADER + maxLen;
    buf := new Byte[len * (k + m)](_ => 0);
    RowsFit(k, m, len);
    RowPtrsApart(k, len, buf.Length);
    RowPtrsOrdered(k, len);
    assert buf[..] == seq(buf.Length, _ => 0);
    FillRows(buf, blocks, RowPtrs(k, len), maxLen);
    assert Shards(buf[..], RowPtrs(k, len), len) == DataChunks(blocks, k);
  }

  lemma RowsFit(k: nat, m: nat, len: nat)
    ensures len * k <= len * (k + m)
  {
    assert len * (k + m) == len * k + len * m;
  }

  lemma RowPtrsOrdered(n: nat, len: nat)
    ensures forall i, j :: 0 <= i < j < n ==> RowPtrs(n, len)[i] + len <= RowPtrs(n, len)[j]
  {
    forall i, j | 0 <= i < j < n
      ensures RowPtrs(n, len)[i] + len <= RowPtrs(n, len)[j]
    {
      RowsInOrder(i, j, len);
    }
  }
}
