/** The recover stream and the recovery of missing shards. */
module Recovery {
  import opened Gf256
  import opened LinearAlgebra
  import opened Matrices
  import opened Memory
  import opened Masks
  import opened Kernels
  import opened CodingMatrix
  import opened Encoder
  import RS = ReedSolomon

  datatype Option<+T> = None | Some(value: T)

  /** The two index lists share one buffer: k inputs first, outputs behind them. */
  datatype RecoverStream = RecoverStream(
    decode: array2<Byte>,
    buffer: array<nat>,
    mulProc: MulProc,
    dataSize: nat,
    nInputs: nat,
    nOutputs: nat,
    nShards: nat)

  /** The shards read: the first k that are present. */
  ghost function Used(present: seq<bool>, k: nat): (s: seq<nat>)
    requires k <= CountTrue(present)
    ensures |s| == k && forall i :: 0 <= i < k ==> s[i] < |present| && present[s[i]]
    ensures RS.IsSelection(s, |present|)
  {
    ChosenIsMask(present);
    Chosen(present)[..k]
  }

  /** No present shard before one that is read is left out. */
  lemma UsedAreFirst(present: seq<bool>, k: nat)
    requires k <= CountTrue(present)
    ensures forall i, p :: 0 <= i < k && 0 <= p < Used(present, k)[i] && present[p] ==> p in Used(present, k)[..i]
  {
    hide CountTrue, Chosen;
    ChosenIsMask(present);
    var s := Chosen(present);
    forall i, p | 0 <= i < k && 0 <= p < s[i] && present[p]
      ensures p in Used(present, k)[..i]
    {
      var q :| 0 <= q < |s| && s[q] == p;
      assert q < i;
      assert Used(present, k)[..i][q] == p;
    }
  }

  /** The data shards to be rebuilt. */
  ghost function Missing(present: seq<bool>, k: nat): (s: seq<nat>)
    requires k <= |present|
    ensures Increasing(s)
    ensures forall i :: 0 <= i < |s| ==> s[i] < k && !present[s[i]]
    ensures forall p :: 0 <= p < k && !present[p] ==> p in s
  {
    ChosenIsMask(Not(present[..k]));
    Chosen(Not(present[..k]))
  }

  ghost predicate IsDecodeMatrix(m: Mat, c: Mat, present: seq<bool>, k: nat)
    requires IsMat(c, |present|, k) && k <= |present| && k <= CountTrue(present)
  {
    exists inv: Mat ::
      && IsMat(inv, k, k) && IsInverse(Pick(c, Used(present, k)), inv, k)
      && m == Pick(inv, Missing(present, k))
  }

  ghost predicate IsRecoverStream(s: RecoverStream, e: RsEncoder, present: seq<bool>)
    reads e.codingMat, s.decode, s.buffer
  {
    && e.Valid() && |present| == e.nShards && e.nData <= CountTrue(present)
    && s.mulProc == e.mulProc && s.dataSize == e.dataSize && s.nShards == e.nShards == s.buffer.Length
    && s.nInputs == e.nData && s.nOutputs == |Missing(present, e.nData)| <= e.nParity
    && s.buffer[..s.nInputs] == Used(present, e.nData)
    && s.buffer[s.nInputs..s.nInputs + s.nOutputs] == Missing(present, e.nData)
    && s.decode.Length0 == s.nOutputs && s.decode.Length1 == e.nData
    && IsDecodeMatrix(Rows(s.decode), Rows(e.codingMat), present, e.nData)
  }

  method GatherRows(e: RsEncoder, present: seq<bool>, decode: array2<Byte>, buffer: array<nat>)
    requires e.Valid() && |present| == e.nShards && e.nData <= CountTrue(present)
    requires decode.Length0 == decode.Length1 == e.nData && buffer.Length == e.nShards
    requires decode != e.codingMat && decode as object != buffer && buffer as object != e.codingMat
    modifies decode, buffer
    ensures buffer[..e.nData] == Used(present, e.nData)
    ensures Rows(decode) == Pick(Rows(e.codingMat), Used(present, e.nData))
    ensures forall i :: 0 <= i < e.nData ==> buffer[i] < e.nShards && present[buffer[i]]
    ensures forall i, p :: 0 <= i < e.nData && 0 <= p < buffer[i] && present[p] ==> p in buffer[..i]
  {
    hide RS.IsCoding, Rows, RowOf, Chosen, CountTrue, Pick;
    ghost var c := Rows(e.codingMat);
    ChosenStart(present);
    ChosenIsMask(present);
    assert present[..e.nShards] == present;
    var i, nInputs := 0, 0;
    while i < e.nShards && nInputs < e.nData
      invariant i <= e.nShards && nInputs <= e.nData && nInputs == |Chosen(present[..i])|
      invariant buffer[..nInputs] == Chosen(present[..i])
      invariant Rows(e.codingMat) == c
      invariant forall r :: 0 <= r < nInputs ==> buffer[r] < e.nShards && Rows(decode)[r] == c[buffer[r]]
      decreases e.nShards - i
    {
      ChosenStep(present, i);
      if present[i] {
        CopyRow(decode, nInputs, e.codingMat, i);
        buffer[nInputs] := i;
        nInputs := nInputs + 1;
      }
      i := i + 1;
    }
    ChosenPrefix(present, i);
    assert buffer[..e.nData] == Used(present, e.nData);
    assert Rows(decode) == Pick(c, Used(present, e.nData));
    UsedAreFirst(present, e.nData);
    forall i, p | 0 <= i < e.nData && 0 <= p < buffer[i] && present[p]
      ensures p in buffer[..i]
    {
      assert buffer[..i] == Used(present, e.nData)[..i];
    }
  }

  /** Moves the rows of the missing data shards to the top, in place; no row is overwritten before it is read. */
  method CompactRows(present: seq<bool>, decode: array2<Byte>, buffer: array<nat>) returns (nOutputs: nat)
    requires decode.Length0 == decode.Length1 <= |present| == buffer.Length
    requires decode.Length0 <= CountTrue(present) && decode as object != buffer
    modifies decode, buffer
    ensures nOutputs == |Missing(present, decode.Length0)| <= |present| - decode.Length0
    ensures buffer[..decode.Length0] == old(buffer[..decode.Length0])
    ensures buffer[decode.Length0..decode.Length0 + nOutputs] == Missing(present, decode.Length0)
    ensures Rows(decode)[..nOutputs] == Pick(old(Rows(decode)), Missing(present, decode.Length0))
  {
    hide Rows, RowOf, Chosen, CountTrue, Pick;
    var k := decode.Length0;
    ghost var original := Rows(decode);
    ghost var mask := Not(present[..k]);
    ChosenStart(mask);
    MissingFit(present, k);
    ghost var moved: seq<nat> := [];
    nOutputs := 0;
    for i := 0 to k
      invariant moved == Chosen(mask[..i]) && nOutputs == |moved| <= i
      invariant buffer[..k] == old(buffer[..k])
      invariant nOutputs <= |Chosen(mask)| && buffer[k..k + nOutputs] == moved
      invariant forall r :: nOutputs <= r < k ==> Rows(decode)[r] == original[r]
      invariant forall j :: 0 <= j < nOutputs ==> moved[j] < k && Rows(decode)[j] == original[moved[j]]
    {
      ChosenStep(mask, i);
      ChosenPrefix(mask, i + 1);
      if !present[i] {
        buffer[k + nOutputs] := i;
        CopyRow(decode, nOutputs, decode, i);
        nOutputs := nOutputs + 1;
        moved := moved + [i];
      }
    }
    assert mask[..k] == mask;
    assert Rows(decode)[..nOutputs] == Pick(original, moved);
  }

  method CreateRecoverStream(e: RsEncoder, present: seq<bool>) returns (s: Option<RecoverStream>)
    requires e.Valid() && |present| == e.nShards
    ensures s.None? <==> CountTrue(present) < e.nData
    ensures s.Some? ==> fresh(s.value.decode) && fresh(s.value.buffer) && IsRecoverStream(s.value, e, present)
  {
    hide RS.IsCoding, Rows, RowOf, Chosen, CountTrue, IsInverse, Nonsingular;
    var nData := CountTrue(present[..e.nData]);
    var nPresent := nData + CountTrue(present[e.nData..]);
    CountSplit(present, e.nData);
    if nPresent < e.nData {
      return None;
    }
    var buffer := new nat[e.nShards];
    var decode := new Byte[e.nData, e.nData];
    GatherRows(e, present, decode, buffer);
    RS.AnyRowsNonsingular(Rows(e.codingMat), e.nShards, e.nData, Used(present, e.nData));
    var ok := InvertInPlace(decode);
    assert ok;
    ghost var inv := Rows(decode);
    var nOutputs := CompactRows(present, decode, buffer);
    var top := Submatrix(decode, 0, nOutputs, 0, e.nData);
    TopRows(Rows(decode), nOutputs, e.nData);
    assert Rows(top) == Pick(inv, Missing(present, e.nData));
    s := Some(RecoverStream(top, buffer, e.mulProc, e.dataSize, e.nData, nOutputs, e.nShards));
  }

  lemma TopRows(m: Mat, rows: nat, cols: nat)
    requires IsMat(m, |m|, cols) && rows <= |m|
    ensures IsMat(m, |m|, if m == [] then 0 else |m[0]|)
    ensures (m != [] ==> cols <= |m[0]|) && (m != [] ==> Block(m, 0, rows, 0, cols) == m[..rows])
  {
    if m != [] {
      MatExtensional(Block(m, 0, rows, 0, cols), m[..rows], rows, cols);
    }
  }

  // ----- recovering the data shards

  ghost predicate RecoverShape(e: RsEncoder, size: nat, shards: seq<nat>) {
    |shards| == e.nShards && InBounds(shards, e.dataSize, size) && AllApart(shards, e.dataSize)
  }

  /** The data shards now in memory are the ones whose codeword has the k shards that were read. */
  ghost predicate IsDataRecovered(c: Mat, k: nat, shards: seq<nat>, present: seq<bool>, len: nat, before: seq<Byte>,
                                  after: seq<Byte>)
    requires IsMat(c, |shards|, k) && |present| == |shards| && k <= CountTrue(present) && k <= |shards|
    requires InBounds(shards, len, |before|)
  {
    && OnlyShardsChanged(before, after, Pick(shards, Missing(present, k)), len)
    && Shards(before, Pick(shards, Used(present, k)), len)
    == Pick(Coded(c, Shards(after, shards[..k], len), len), Used(present, k))
  }

  lemma UsedAndMissingApart(shards: seq<nat>, present: seq<bool>, k: nat, len: nat, size: nat)
    requires |present| == |shards| && k <= CountTrue(present) && k <= |shards|
    requires InBounds(shards, len, size) && AllApart(shards, len)
    ensures Shape(size, Pick(shards, Used(present, k)), Pick(shards, Missing(present, k)), len)
  {
    hide Used, Missing, Apart;
    var ins, outs := Pick(shards, Used(present, k)), Pick(shards, Missing(present, k));
    forall i, j | 0 <= i < |ins| && 0 <= j < |outs|
      ensures Apart(ins[i], outs[j], len)
    {
      var u, m := Used(present, k)[i], Missing(present, k)[j];
      assert u != m;
      ApartSymmetric(shards[u], shards[m], len);
    }
  }

  /** The data that the used shards determine. */
  ghost function Decoded(inv: Mat, y: Mat, len: nat): (x: Mat)
    requires IsMat(inv, |y|, |y|) && IsMat(y, |y|, len)
    ensures IsMat(x, |y|, len)
  {
    Product(inv, y, len)
  }

  /** Encoding what the inverse decodes gives back the shards it was decoded from. */
  lemma DecodedReencodes(c: Mat, n: nat, k: nat, used: seq<nat>, inv: Mat, y: Mat, len: nat)
    requires RS.IsCoding(c, n, k) && |used| == k && RS.IsSelection(used, n)
    requires IsMat(inv, k, k) && IsInverse(Pick(c, used), inv, k)
    requires IsMat(y, k, len)
    ensures Pick(Coded(c, Decoded(inv, y, len), len), used) == y
  {
    hide Product, IsInverse, Pick, RS.IsBasisChange;
    var d := Pick(c, used);
    InverseProducts(d, inv, k);
    ProductAssoc(d, inv, y, len);
    ProductUnits(y, len);
    SelectedProduct(c, used, Decoded(inv, y, len), len);
  }

  /** A missing data shard is written with its row of the decoded data. */
  lemma MissingShardDecoded(inv: Mat, shards: seq<nat>, present: seq<bool>, k: nat, len: nat, before: seq<Byte>,
                            after: seq<Byte>, i: nat)
    requires |shards| == |present| && k <= |shards| && k <= CountTrue(present) && IsMat(inv, k, k)
    requires InBounds(shards, len, |before|) && i < k && !present[i]
    requires IsMultiplied(Pick(inv, Missing(present, k)),
      Pick(shards, Used(present, k)), Pick(shards, Missing(present, k)), len, before, after)
    ensures Shard(after, shards[i], len) == Decoded(inv, Shards(before, Pick(shards, Used(present, k)), len), len)[i]
  {
    hide Dot, Column, Used, Missing, Shard, OnlyShardsChanged;
    var used, missing := Used(present, k), Missing(present, k);
    var y := Shards(before, Pick(shards, used), len);
    var j :| 0 <= j < |missing| && missing[j] == i;
    assert Shards(after, Pick(shards, missing), len)[j] == Product(Pick(inv, missing), y, len)[j];
    SameRowSameProduct(Pick(inv, missing), inv, j, i, y, len);
  }

  /** A data shard that is present is one of those read, so decoding gives it back. */
  lemma PresentShardDecoded(c: Mat, n: nat, k: nat, inv: Mat, shards: seq<nat>, present: seq<bool>, len: nat,
                            s: seq<Byte>, i: nat)
    requires RS.IsCoding(c, n, k) && |shards| == |present| == n && k <= CountTrue(present)
    requires IsMat(inv, k, k) && IsInverse(Pick(c, Used(present, k)), inv, k)
    requires InBounds(shards, len, |s|) && i < k && present[i]
    ensures Shard(s, shards[i], len) == Decoded(inv, Shards(s, Pick(shards, Used(present, k)), len), len)[i]
  {
    hide Dot, Column, IsInverse, Pick, RS.IsBasisChange, Used, Shard, Coded, Decoded, CountTrue;
    var used := Used(present, k);
    var y := Shards(s, Pick(shards, used), len);
    var x := Decoded(inv, y, len);
    DecodedReencodes(c, n, k, used, inv, y, len);
    CodedIsSystematic(c, n, k, x, len);
    PresentDataUsed(present, k, i);
    UsedHas(present, k, i);
    var t :| 0 <= t < k && used[t] == i;
    var w := Coded(c, x, len);
    assert y[t] == Pick(w, used)[t] == w[i];
    assert w[i] == w[..k][i];
  }

  /** Once the missing data shards hold their rows of the decoded data, all data shards do. */
  lemma DataShardsDecoded(c: Mat, n: nat, k: nat, inv: Mat, shards: seq<nat>, present: seq<bool>, len: nat,
                          before: seq<Byte>, after: seq<Byte>)
    requires RS.IsCoding(c, n, k) && |shards| == |present| == n && k <= CountTrue(present)
    requires IsMat(inv, k, k) && IsInverse(Pick(c, Used(present, k)), inv, k)
    requires InBounds(shards, len, |before|) && AllApart(shards, len)
    requires IsMultiplied(Pick(inv, Missing(present, k)),
      Pick(shards, Used(present, k)), Pick(shards, Missing(present, k)), len, before, after)
    ensures Shards(after, shards[..k], len) == Decoded(inv, Shards(before, Pick(shards, Used(present, k)), len), len)
  {
    hide Dot, IsInverse, Pick, RS.IsBasisChange, Used, Missing, Shard, Covered, AllApart, Decoded, CountTrue;
    var x := Decoded(inv, Shards(before, Pick(shards, Used(present, k)), len), len);
    var left := Shards(after, shards[..k], len);
    forall i | 0 <= i < k
      ensures left[i] == x[i]
    {
      if present[i] {
        PresentShardDecoded(c, n, k, inv, shards, present, len, before, i);
        PresentShardKept(shards, present, k, len, before, after, i);
      } else {
        MissingShardDecoded(inv, shards, present, k, len, before, after, i);
      }
    }
  }

  lemma UsedHas(present: seq<bool>, k: nat, i: nat)
    requires k <= CountTrue(present) && i in Chosen(present)[..k]
    ensures i in Used(present, k)
  {
  }

  lemma PresentShardKept(shards: seq<nat>, present: seq<bool>, k: nat, len: nat, before: seq<Byte>, after: seq<Byte>,
                         i: nat)
    requires |present| == |shards| && k <= |shards| && i < |shards| && present[i]
    requires InBounds(shards, len, |before|) && AllApart(shards, len)
    requires OnlyShardsChanged(before, after, Pick(shards, Missing(present, k)), len)
    ensures Shard(after, shards[i], len) == Shard(before, shards[i], len)
  {
    hide Missing, Apart, Covered, Shard;
    var outs := Pick(shards, Missing(present, k));
    forall j | 0 <= j < |outs|
      ensures Apart(shards[i], outs[j], len)
    {
      ApartSymmetric(shards[i], shards[Missing(present, k)[j]], len);
    }
    ApartShardKept(before, after, outs, len, shards[i]);
  }

  lemma StreamRecovers(e: RsEncoder, m: Mat, shards: seq<nat>, present: seq<bool>, before: seq<Byte>, after: seq<Byte>)
    requires e.Valid() && |present| == e.nShards && e.nData <= CountTrue(present)
    requires RecoverShape(e, |before|, shards)
    requires IsDecodeMatrix(m, Rows(e.codingMat), present, e.nData)
    requires IsMat(m, |Missing(present, e.nData)|, e.nData)
    requires IsMultiplied(m, Pick(shards, Used(present, e.nData)), Pick(shards, Missing(present, e.nData)),
      e.dataSize, before, after)
    ensures IsDataRecovered(Rows(e.codingMat), e.nData, shards, present, e.dataSize, before, after)
  {
    hide IsMultiplied, IsInverse, Pick, RS.IsCoding, Used, Missing, AllApart, Rows;
    var c, k, len := Rows(e.codingMat), e.nData, e.dataSize;
    var inv: Mat :| IsMat(inv, k, k) && IsInverse(Pick(c, Used(present, k)), inv, k)
      && m == Pick(inv, Missing(present, k));
    DataShardsDecoded(c, e.nShards, k, inv, shards, present, len, before, after);
    DecodedReencodes(c, e.nShards, k, Used(present, k), inv, Shards(before, Pick(shards, Used(present, k)), len), len);
    MultipliedFrame(m, Pick(shards, Used(present, k)), Pick(shards, Missing(present, k)), len, before, after);
  }

  lemma MultipliedFrame(m: Mat, inputs: seq<nat>, outputs: seq<nat>, n: nat, before: seq<Byte>, after: seq<Byte>)
    requires IsMat(m, |outputs|, |inputs|) && IsMultiplied(m, inputs, outputs, n, before, after)
    ensures OnlyShardsChanged(before, after, outputs, n)
  {
  }

  /** The multiplication of a stream, once all pointers have been checked. */
  method RecoverShards(mem: array<Byte>, s: RecoverStream, shards: seq<nat>, ghost e: RsEncoder,
                       ghost present: seq<bool>)
    requires IsRecoverStream(s, e, present) && RecoverShape(e, mem.Length, shards)
    requires mem as object != s.decode && mem as object != s.buffer && mem as object != e.codingMat
    modifies mem
    ensures IsDataRecovered(Rows(e.codingMat), e.nData, shards, present, e.dataSize, old(mem[..]), mem[..])
  {
    hide RS.IsCoding, Rows, RowOf, IsDecodeMatrix, IsMultiplied, IsDataRecovered, AllApart, Used, Missing;
    ghost var before := mem[..];
    var inputs := Pick(shards, s.buffer[..s.nInputs]);
    var outputs := Pick(shards, s.buffer[s.nInputs..s.nInputs + s.nOutputs]);
    UsedAndMissingApart(shards, present, e.nData, e.dataSize, mem.Length);
    if s.nOutputs == 0 {
      NothingToDo(Rows(s.decode), inputs, outputs, s.dataSize, before);
    } else {
      MatrixMul(s.mulProc, mem, s.decode, inputs, outputs, s.dataSize);
    }
    StreamRecovers(e, Rows(s.decode), shards, present, before, mem[..]);
  }

  /** The right number of pointers, and if none is null they lead to disjoint shards. */
  ghost predicate ShardsFit(e: RsEncoder, size: nat, shards: seq<Pointer>) {
    |shards| == e.nShards && (AllGiven(shards) ==> RecoverShape(e, size, Addresses(shards)))
  }

  method StreamRecoverData(mem: array<Byte>, s: RecoverStream, shards: seq<Pointer>,
                           ghost e: RsEncoder, ghost present: seq<bool>)
    returns (err: ErrorCode)
    requires IsRecoverStream(s, e, present) && ShardsFit(e, mem.Length, shards)
    requires mem as object != s.decode && mem as object != s.buffer && mem as object != e.codingMat
    modifies mem
    ensures err == if AllGiven(shards) then Success else InvalidArguments
    ensures err == InvalidArguments ==> mem[..] == old(mem[..])
    ensures err == Success ==>
      IsDataRecovered(Rows(e.codingMat), e.nData, Addresses(shards), present, e.dataSize, old(mem[..]), mem[..])
  {
    hide IsRecoverStream, RecoverShape, IsDataRecovered, AllGiven;
    var missing := HasNull(shards);
    if missing {
      return InvalidArguments;
    }
    RecoverShards(mem, s, Addresses(shards), e, present);
    err := Success;
  }

  /** Data shards that any k present shards determine are the data those belong to. */
  lemma DataRecoveredIs(c: Mat, n: nat, k: nat, shards: seq<nat>, present: seq<bool>, len: nat,
                        before: seq<Byte>, after: seq<Byte>)
    requires RS.IsCoding(c, n, k) && |shards| == |present| == n && k <= CountTrue(present)
    requires InBounds(shards, len, |before|) && |after| == |before|
    requires IsDataRecovered(c, k, shards, present, len, before, after)
    ensures
      forall data: Mat :: IsMat(data, k, len)
          && (forall i :: 0 <= i < n && present[i] ==> Shard(before, shards[i], len) == Coded(c, data, len)[i])
        ==> Shards(after, shards[..k], len) == data
  {
    hide RS.IsBasisChange, Coded, Apart, CountTrue, Shard, Used, OnlyShardsChanged;
    forall data: Mat | IsMat(data, k, len)
      && (forall i :: 0 <= i < n && present[i] ==> Shard(before, shards[i], len) == Coded(c, data, len)[i])
      ensures Shards(after, shards[..k], len) == data
    {
      var used := Used(present, k);
      var y := Shards(before, Pick(shards, used), len);
      assert y == Pick(Coded(c, data, len), used) by {
        assert forall t :: 0 <= t < k ==> y[t] == Pick(Coded(c, data, len), used)[t];
      }
      UsedShardsDetermineData(c, n, k, Shards(after, shards[..k], len), data, used, len);
    }
  }

  method RecoverData(mem: array<Byte>, e: RsEncoder, shards: seq<Pointer>, present: seq<bool>) returns (err: ErrorCode)
    requires e.Valid() && |present| == e.nShards && ShardsFit(e, mem.Length, shards)
    requires mem as object != e.codingMat
    modifies mem
    ensures CountTrue(present) < e.nData ==> err == RecoverFailed
    ensures CountTrue(present) >= e.nData && !AllGiven(shards) ==> err == InvalidArguments
    ensures CountTrue(present) >= e.nData && AllGiven(shards) ==> err == Success
    ensures err != Success ==> mem[..] == old(mem[..])
    ensures err == Success ==>
      IsDataRecovered(Rows(e.codingMat), e.nData, Addresses(shards), present, e.dataSize, old(mem[..]), mem[..])
    ensures err == Success ==>
      forall data: Mat :: IsMat(data, e.nData, e.dataSize)
          && (forall i :: 0 <= i < e.nShards && present[i] ==>
                old(Shard(mem[..], Addresses(shards)[i], e.dataSize)) == Coded(Rows(e.codingMat), data, e.dataSize)[i])
        ==> Shards(mem[..], Addresses(shards)[..e.nData], e.dataSize) == data
  {
    hide RS.IsCoding, Rows, RowOf, CountTrue, IsRecoverStream, IsDataRecovered, AllApart, AllGiven, Coded, Shard;
    var nPresent := CountTrue(present);
    if nPresent < e.nData {
      return RecoverFailed;
    }
    var stream := CreateRecoverStream(e, present);
    if stream.None? {
      return InternalError;
    }
    ghost var before := mem[..];
    err := StreamRecoverData(mem, stream.value, shards, e, present);
    if err == Success {
      DataRecoveredIs(Rows(e.codingMat), e.nShards, e.nData, Addresses(shards), present, e.dataSize, before, mem[..]);
    }
  }

  // ----- recovering everything

  /** Every missing shard is now the one of the codeword that has the k shards that were read. */
  ghost predicate IsRecovered(c: Mat, k: nat, shards: seq<nat>, present: seq<bool>, len: nat, before: seq<Byte>,
                              after: seq<Byte>)
    requires IsMat(c, |shards|, k) && |present| == |shards| && k <= CountTrue(present) && k <= |shards|
    requires InBounds(shards, len, |before|)
  {
    && |after| == |before|
    && (forall a :: 0 <= a < |before| && !CoveredByMissing(a, shards, present, len) ==> after[a] == before[a])
    && var w := Coded(c, Shards(after, shards[..k], len), len);
       && Shards(before, Pick(shards, Used(present, k)), len) == Pick(w, Used(present, k))
       && forall i :: 0 <= i < |shards| && !present[i] ==> Shard(after, shards[i], len) == w[i]
  }

  ghost predicate CoveredByMissing(a: nat, shards: seq<nat>, present: seq<bool>, len: nat)
    requires |present| == |shards|
  {
    exists i :: 0 <= i < |shards| && !present[i] && shards[i] <= a < shards[i] + len
  }

  /** The shards marked present are those of the codeword of the data. */
  ghost predicate PresentShardsOf(c: Mat, data: Mat, shards: seq<nat>, present: seq<bool>, len: nat, s: seq<Byte>)
    requires IsMat(c, |shards|, |data|) && IsMat(data, |data|, len) && |present| == |shards|
    requires InBounds(shards, len, |s|)
  {
    forall i :: 0 <= i < |shards| && present[i] ==> Shard(s, shards[i], len) == Coded(c, data, len)[i]
  }

  lemma DataThenParity(c: Mat, n: nat, k: nat, shards: seq<nat>, present: seq<bool>, len: nat, before: seq<Byte>,
                       mid: seq<Byte>, after: seq<Byte>)
    requires RS.IsCoding(c, n, k) && |shards| == |present| == n && k <= CountTrue(present)
    requires InBounds(shards, len, |before|) && AllApart(shards, len)
    requires IsDataRecovered(c, k, shards, present, len, before, mid)
    requires IsEncoded(c, shards[..k], shards[k..], Not(present[k..]), len, mid, after)
    ensures IsRecovered(c, k, shards, present, len, before, after)
  {
    hide Dot, Column, Pick, RS.IsBasisChange, Used, Missing, Shard, Coded, Apart, Chosen, CountTrue;
    var mask := Not(present[k..]);
    ChosenIsMask(mask);
    var outs := Pick(shards[k..], Chosen(mask));
    forall i, j | 0 <= i < k && 0 <= j < |outs|
      ensures Apart(shards[..k][i], outs[j], len)
    {
      assert outs[j] == shards[k + Chosen(mask)[j]];
    }
    ApartShardsKept(mid, after, outs, len, shards[..k]);
    var w := Coded(c, Shards(after, shards[..k], len), len);
    CodedIsSystematic(c, n, k, Shards(after, shards[..k], len), len);
    forall i | 0 <= i < n && !present[i]
      ensures Shard(after, shards[i], len) == w[i]
    {
      if i < k {
        assert Shards(after, shards[..k], len)[i] == w[..k][i];
      } else {
        assert mask[i - k] && shards[k..][i - k] == shards[i];
      }
    }
    forall a | 0 <= a < |before| && !CoveredByMissing(a, shards, present, len)
      ensures after[a] == before[a]
    {
      assert !Covered(a, Pick(shards, Missing(present, k)), len);
      assert !Covered(a, outs, len);
    }
  }

  // ----- any k shards give everything back

  lemma ColumnCoded(c: Mat, data: Mat, len: nat, b: nat)
    requires IsMat(c, |c|, |data|) && IsMat(data, |data|, len) && b < len
    ensures Column(Coded(c, data, len), b) == Apply(c, Column(data, b))
  {
    hide Dot;
    ColumnOfProduct(c, data, len, b);
  }

  /** Two data blocks whose codewords have the same k shards are the same. */
  lemma UsedShardsDetermineData(c: Mat, n: nat, k: nat, x: Mat, y: Mat, used: seq<nat>, len: nat)
    requires RS.IsCoding(c, n, k) && IsMat(x, k, len) && IsMat(y, k, len)
    requires |used| == k && RS.IsSelection(used, n)
    requires Pick(Coded(c, x, len), used) == Pick(Coded(c, y, len), used)
    ensures x == y
  {
    hide Dot, Apply, RS.IsBasisChange, Coded, Pick;
    var wx, wy := Coded(c, x, len), Coded(c, y, len);
    forall i, b | 0 <= i < k && 0 <= b < len
      ensures x[i][b] == y[i][b]
    {
      ColumnCoded(c, x, len, b);
      ColumnCoded(c, y, len, b);
      forall t | 0 <= t < k
        ensures Column(wx, b)[used[t]] == Column(wy, b)[used[t]]
      {
        assert Pick(wx, used)[t] == Pick(wy, used)[t];
      }
      assert Pick(Column(wx, b), used) == Pick(Column(wy, b), used);
      RS.AgreementDetermines(c, n, k, Column(x, b), Column(y, b), used);
      assert Column(x, b)[i] == Column(y, b)[i];
    }
    MatExtensional(x, y, k, len);
  }

  /**
   The guarantee of the code: if the shards marked present belong to the codeword of some data,
   then after recovery all n shards do, whatever the missing ones held before.
   */
  lemma AnyKShardsRestoreAll(c: Mat, n: nat, k: nat, data: Mat, shards: seq<nat>, present: seq<bool>, len: nat,
                             before: seq<Byte>, after: seq<Byte>)
    requires RS.IsCoding(c, n, k) && IsMat(data, k, len)
    requires |shards| == |present| == n && k <= CountTrue(present)
    requires InBounds(shards, len, |before|) && AllApart(shards, len)
    requires PresentShardsOf(c, data, shards, present, len, before)
    requires IsRecovered(c, k, shards, present, len, before, after)
    ensures Shards(after, shards, len) == Coded(c, data, len)
  {
    hide Dot, Column, RS.IsBasisChange, Coded, Pick, Used, Shard, CoveredByMissing, Apart, CountTrue;
    var used := Used(present, k);
    var x := Shards(after, shards[..k], len);
    var w, d := Coded(c, x, len), Coded(c, data, len);
    var y := Shards(before, Pick(shards, used), len);
    forall t | 0 <= t < k
      ensures y[t] == Pick(d, used)[t]
    {
    }
    assert y == Pick(d, used);
    UsedShardsDetermineData(c, n, k, x, data, used, len);
    forall i | 0 <= i < n
      ensures Shards(after, shards, len)[i] == d[i]
    {
      if present[i] {
        RecoveredPresentKept(shards, present, len, before, after, i);
      }
    }
  }

  lemma RecoveredPresentKept(shards: seq<nat>, present: seq<bool>, len: nat, before: seq<Byte>, after: seq<Byte>,
                             i: nat)
    requires |present| == |shards| && i < |shards| && present[i]
    requires InBounds(shards, len, |before|) && AllApart(shards, len) && |after| == |before|
    requires forall a :: 0 <= a < |before| && !CoveredByMissing(a, shards, present, len) ==> after[a] == before[a]
    ensures Shard(after, shards[i], len) == Shard(before, shards[i], len)
  {
    var p := shards[i];
    forall a | p <= a < p + len
      ensures after[a] == before[a]
    {
      forall j | 0 <= j < |shards| && !present[j]
        ensures !(shards[j] <= a < shards[j] + len)
      {
        assert Apart(shards[if i < j then i else j], shards[if i < j then j else i], len);
      }
    }
  }

  /** When all data shards are present, recovery rewrites none of them. */
  lemma PresentDataUntouched(c: Mat, k: nat, shards: seq<nat>, present: seq<bool>, len: nat, before: seq<Byte>,
                             after: seq<Byte>)
    requires IsMat(c, |shards|, k) && |present| == |shards| && k <= CountTrue(present) && k <= |shards|
    requires InBounds(shards, len, |before|) && AllApart(shards, len)
    requires IsRecovered(c, k, shards, present, len, before, after)
    requires forall i :: 0 <= i < k ==> present[i]
    ensures Shards(after, shards[..k], len) == Shards(before, shards[..k], len)
  {
    hide Shard, CoveredByMissing, Coded, Used, Pick, CountTrue, Apart;
    forall i | 0 <= i < k
      ensures Shards(after, shards[..k], len)[i] == Shards(before, shards[..k], len)[i]
    {
      RecoveredPresentKept(shards, present, len, before, after, i);
    }
  }

  lemma SplitShape(e: RsEncoder, size: nat, shards: seq<Pointer>)
    requires ShardsFit(e, size, shards) && AllGiven(shards) && e.nData + e.nParity == e.nShards
    ensures PointersFit(e, size, shards[..e.nData], shards[e.nData..])
    ensures AllGiven(shards[..e.nData]) && AllGiven(shards[e.nData..])
    ensures Addresses(shards[..e.nData]) == Addresses(shards)[..e.nData]
    ensures Addresses(shards[e.nData..]) == Addresses(shards)[e.nData..]
  {
    hide Apart;
  }

  /** All n shards are those of the codeword of any data that the present ones belong to. */
  lemma RecoveredRestores(c: Mat, n: nat, k: nat, shards: seq<nat>, present: seq<bool>, len: nat,
                          before: seq<Byte>, after: seq<Byte>)
    requires RS.IsCoding(c, n, k) && |shards| == |present| == n && k <= CountTrue(present)
    requires InBounds(shards, len, |before|) && AllApart(shards, len)
    requires IsRecovered(c, k, shards, present, len, before, after)
    ensures |after| == |before|
    ensures
      forall data: Mat :: IsMat(data, k, len)
          && (forall i :: 0 <= i < n && present[i] ==> Shard(before, shards[i], len) == Coded(c, data, len)[i])
        ==> Shards(after, shards, len) == Coded(c, data, len)
  {
    hide RS.IsBasisChange, Coded, Apart, CountTrue, Shards, Shard, Pick;
    forall data: Mat | IsMat(data, k, len)
      && (forall i :: 0 <= i < n && present[i] ==> Shard(before, shards[i], len) == Coded(c, data, len)[i])
      ensures Shards(after, shards, len) == Coded(c, data, len)
    {
      AnyKShardsRestoreAll(c, n, k, data, shards, present, len, before, after);
    }
  }

  lemma RecoveredFrame(c: Mat, k: nat, shards: seq<nat>, present: seq<bool>, len: nat, before: seq<Byte>,
                       after: seq<Byte>)
    requires IsMat(c, |shards|, k) && |present| == |shards| && k <= CountTrue(present) && k <= |shards|
    requires InBounds(shards, len, |before|) && IsRecovered(c, k, shards, present, len, before, after)
    ensures |after| == |before|
    ensures
      forall a :: 0 <= a < |before|
          && (forall i :: 0 <= i < |shards| && !present[i] ==> !(shards[i] <= a < shards[i] + len))
        ==> after[a] == before[a]
  {
    hide Coded, CountTrue, Shards, Shard, Pick, Used;
  }

  method Recover(mem: array<Byte>, e: RsEncoder, shards: seq<Pointer>, present: seq<bool>) returns (err: ErrorCode)
    requires e.Valid() && |present| == e.nShards && ShardsFit(e, mem.Length, shards)
    requires mem as object != e.codingMat
    modifies mem
    ensures CountTrue(present) < e.nData ==> err == RecoverFailed
    ensures CountTrue(present) >= e.nData && !AllGiven(shards) ==> err == InvalidArguments
    ensures CountTrue(present) >= e.nData && AllGiven(shards) ==> err == Success
    ensures err != Success ==> mem[..] == old(mem[..])
    ensures err == Success ==>
      IsRecovered(Rows(e.codingMat), e.nData, Addresses(shards), present, e.dataSize, old(mem[..]), mem[..])
    ensures err == Success ==>
      forall data: Mat :: IsMat(data, e.nData, e.dataSize)
          && (forall i :: 0 <= i < e.nShards && present[i] ==>
                old(Shard(mem[..], Addresses(shards)[i], e.dataSize)) == Coded(Rows(e.codingMat), data, e.dataSize)[i])
        ==> Shards(mem[..], Addresses(shards), e.dataSize) == Coded(Rows(e.codingMat), data, e.dataSize)
    ensures err == Success ==>
      forall a :: 0 <= a < mem.Length
          && (forall i :: 0 <= i < e.nShards && !present[i] ==>
                !(Addresses(shards)[i] <= a < Addresses(shards)[i] + e.dataSize))
        ==> mem[a] == old(mem[a])
  {
    hide RS.IsCoding, Rows, RowOf, IsDataRecovered, IsEncoded, IsRecovered, Apart, CountTrue, AllGiven, Coded, Shard;
    ghost var before := mem[..];
    err := RecoverData(mem, e, shards, present);
    if err != Success {
      return;
    }
    ghost var mid := mem[..];
    var shouldEncode := new bool[e.nParity];
    for i := 0 to e.nParity
      invariant mem[..] == mid
      invariant forall j :: 0 <= j < i ==> shouldEncode[j] == !present[j + e.nData]
    {
      shouldEncode[i] := !present[i + e.nData];
    }
    assert shouldEncode[..] == Not(present[e.nData..]);
    SplitShape(e, mem.Length, shards);
    err := EncodePartial(mem, e, shards[..e.nData], shards[e.nData..], shouldEncode[..]);
    ghost var c, a := Rows(e.codingMat), Addresses(shards);
    DataThenParity(c, e.nShards, e.nData, a, present, e.dataSize, before, mid, mem[..]);
    RecoveredRestores(c, e.nShards, e.nData, a, present, e.dataSize, before, mem[..]);
    RecoveredFrame(c, e.nData, a, present, e.dataSize, before, mem[..]);
  }
}
