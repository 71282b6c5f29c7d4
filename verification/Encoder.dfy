/** Encoders and the encode stream. */
module Encoder {
  import opened Gf256
  import opened LinearAlgebra
  import opened Matrices
  import opened Memory
  import opened Masks
  import opened Kernels
  import opened VectorKernel
  import opened CodingMatrix
  import RS = ReedSolomon
  import Polynomials

  datatype ErrorCode = Success | RecoverFailed | InvalidArguments | InternalError

  datatype MulProc = BasicImpl | AdvImpl | Avx2Impl

  method MatrixMul(mulProc: MulProc, mem: array<Byte>, mat: array2<Byte>, inputs: seq<nat>, outputs: seq<nat>, n: nat)
    requires mat.Length0 == |outputs| && mat.Length1 == |inputs| && mem as object != mat
    requires Shape(mem.Length, inputs, outputs, n) && inputs != []
    modifies mem
    ensures IsMultiplied(Rows(mat), inputs, outputs, n, old(mem[..]), mem[..])
  {
    hide *;
    match mulProc
    case BasicImpl => MatrixMulBasic(mem, mat, inputs, outputs, n);
    case AdvImpl => MatrixMulAdv(mem, mat, inputs, outputs, n);
    case Avx2Impl => MatrixMulAvx2(mem, mat, inputs, outputs, n);
  }

  class RsEncoder {
    const codingMat: array2<Byte>
    const mulProc: MulProc
    const dataSize: nat
    const nData: nat
    const nShards: nat
    const nParity: nat

    ghost predicate Valid()
      reads codingMat
    {
      && 1 <= nData < nShards < 256 && nParity == nShards - nData && dataSize > 0
      && codingMat.Length0 == nShards && codingMat.Length1 == nData
      && RS.IsCoding(Rows(codingMat), nShards, nData)
    }

    constructor (n: nat, k: nat, dataSize: nat, mulProc: MulProc)
      requires 1 <= k < n < 256 && dataSize > 0
      ensures Valid() && nShards == n && nData == k && this.dataSize == dataSize && this.mulProc == mulProc
      ensures fresh(codingMat)
    {
      var c := BuildMatrix(n, k);
      codingMat := c;
      this.mulProc := mulProc;
      this.dataSize := dataSize;
      nData, nShards, nParity := k, n, n - k;
    }
  }

  /** Parameters that leave nothing to encode or nothing to protect it with give no encoder. */
  method CreateEncoder(n: nat, k: nat, dataSize: nat, mulProc: MulProc) returns (e: RsEncoder?)
    requires n < 256 && k < 256
    ensures e == null <==> dataSize == 0 || n == 0 || k == 0 || k >= n
    ensures e != null ==> fresh(e) && fresh(e.codingMat) && e.Valid()
    ensures e != null ==> e.nShards == n && e.nData == k && e.dataSize == dataSize && e.mulProc == mulProc
  {
    if dataSize == 0 || n == 0 || k == 0 {
      return null;
    }
    if k >= n {
      return null;
    }
    e := new RsEncoder(n, k, dataSize, mulProc);
  }

  // ----- the code as a whole

  /** All n shards of the given data shards. */
  ghost function Coded(c: Mat, data: Mat, len: nat): (w: Mat)
    requires IsMat(c, |c|, |data|) && IsMat(data, |data|, len)
    ensures IsMat(w, |c|, len)
  {
    Product(c, data, len)
  }

  /** The first k shards of a codeword are the data. */
  lemma CodedIsSystematic(c: Mat, n: nat, k: nat, data: Mat, len: nat)
    requires RS.IsCoding(c, n, k) && IsMat(data, k, len)
    ensures Coded(c, data, len)[..k] == data
  {
    hide Dot, Column;
    RS.Systematic(c, n, k);
    ProductUnits(data, len);
    forall i | 0 <= i < k
      ensures Coded(c, data, len)[i] == data[i]
    {
      assert c[i] == c[..k][i];
      assert Coded(c, data, len)[i] == Product(Identity(k), data, len)[i];
    }
  }

  lemma SelectedProduct(c: Mat, rows: seq<nat>, data: Mat, len: nat)
    requires IsMat(c, |c|, |data|) && IsMat(data, |data|, len)
    requires forall i :: 0 <= i < |rows| ==> rows[i] < |c|
    ensures Product(Pick(c, rows), data, len) == Pick(Coded(c, data, len), rows)
  {
    hide Product, Pick;
    RS.SelectProduct(c, data, rows, len);
  }

  // ----- encode streams

  datatype EncodeStream = EncodeStream(
    mat: array2<Byte>,
    indices: array<nat>,
    mulProc: MulProc,
    dataSize: nat,
    nData: nat,
    nOutputs: nat,
    nParity: nat)

  /** The rows of the coding matrix for the selected parity shards, and where those shards go. */
  ghost predicate IsEncodeStream(s: EncodeStream, e: RsEncoder, mask: seq<bool>)
    reads e.codingMat, s.mat, s.indices
  {
    && e.Valid() && |mask| == e.nParity
    && s.mulProc == e.mulProc && s.dataSize == e.dataSize && s.nData == e.nData && s.nParity == e.nParity
    && s.nOutputs == CountTrue(mask) == s.indices.Length && s.indices[..] == Chosen(mask)
    && s.mat.Length0 == s.nOutputs && s.mat.Length1 == s.nData
    && (forall i :: 0 <= i < s.nOutputs ==> s.indices[i] < s.nParity)
    && (forall i :: 0 <= i < s.nOutputs ==> Rows(s.mat)[i] == Rows(e.codingMat)[s.indices[i] + s.nData])
  }

  method CreateEncodeStream(e: RsEncoder, shouldEncode: seq<bool>) returns (s: EncodeStream)
    requires e.Valid() && |shouldEncode| == e.nParity
    ensures fresh(s.mat) && fresh(s.indices) && IsEncodeStream(s, e, shouldEncode)
  {
    hide RS.IsCoding, Rows, RowOf, Chosen, CountTrue;
    var matSz := CountTrue(shouldEncode);
    var mat := new Byte[matSz, e.nData];
    var outputs := new nat[matSz];
    ghost var c := Rows(e.codingMat);
    ChosenStart(shouldEncode);
    ChosenIsMask(shouldEncode);
    var i, j := 0, 0;
    while i < e.nParity && j < matSz
      invariant i <= e.nParity && j <= matSz && j == |Chosen(shouldEncode[..i])|
      invariant outputs[..j] == Chosen(shouldEncode[..i])
      invariant forall r :: 0 <= r < j ==> outputs[r] < e.nParity
      invariant forall r :: 0 <= r < j ==> Rows(mat)[r] == c[outputs[r] + e.nData]
      decreases e.nParity - i
    {
      ChosenStep(shouldEncode, i);
      if shouldEncode[i] {
        CopyRow(mat, j, e.codingMat, i + e.nData);
        outputs[j] := i;
        j := j + 1;
      }
      i := i + 1;
    }
    ChosenPrefix(shouldEncode, i);
    assert shouldEncode[..e.nParity] == shouldEncode;
    s := EncodeStream(mat, outputs, e.mulProc, e.dataSize, e.nData, matSz, e.nParity);
  }

  lemma ChosenStart(mask: seq<bool>)
    ensures Chosen(mask[..0]) == []
  {
  }

  ghost predicate EncodeShape(e: RsEncoder, size: nat, shards: seq<nat>, parity: seq<nat>) {
    |shards| == e.nData && |parity| == e.nParity && Shape(size, shards, parity, e.dataSize)
  }

  /** The right number of pointers, and those that are not null lead to disjoint shards. */
  ghost predicate PointersFit(e: RsEncoder, size: nat, shards: seq<Pointer>, parity: seq<Pointer>) {
    && |shards| == e.nData && |parity| == e.nParity
    && (AllGiven(shards) && AllGiven(parity) ==> EncodeShape(e, size, Addresses(shards), Addresses(parity)))
  }

  /** The selected parity shards are those of the codeword of the data; nothing else changed. */
  ghost predicate IsEncoded(c: Mat, shards: seq<nat>, parity: seq<nat>, mask: seq<bool>, len: nat, before: seq<Byte>,
                            after: seq<Byte>)
    requires IsMat(c, |shards| + |parity|, |shards|) && |mask| == |parity|
    requires InBounds(shards, len, |before|) && InBounds(parity, len, |before|)
  {
    ChosenIsMask(mask);
    && OnlyShardsChanged(before, after, Pick(parity, Chosen(mask)), len)
    && forall p :: 0 <= p < |mask| && mask[p] ==>
      Shard(after, parity[p], len) == Coded(c, Shards(before, shards, len), len)[|shards| + p]
  }

  /**
   The selected parity bytes are values of polynomials: if the data bytes at offset b are the values of ps[b] at
   0..k-1, then parity byte b of shard j is its value at k + j.
   */
  lemma EncodedInterpolates(c: Mat, shards: seq<nat>, parity: seq<nat>, mask: seq<bool>, len: nat, before: seq<Byte>,
                            after: seq<Byte>, ps: Mat)
    requires |shards| + |parity| < 256 && RS.IsCoding(c, |shards| + |parity|, |shards|) && |mask| == |parity|
    requires Shape(|before|, shards, parity, len) && IsEncoded(c, shards, parity, mask, len, before, after)
    requires IsMat(ps, len, |shards|)
    requires forall i, b :: 0 <= i < |shards| && 0 <= b < len ==>
      before[shards[i] + b] == Polynomials.Eval(ps[b], i as Byte)
    ensures |after| == |before|
    ensures forall j, b :: 0 <= j < |parity| && mask[j] && 0 <= b < len ==>
      after[parity[j] + b] == Polynomials.Eval(ps[b], (|shards| + j) as Byte)
  {
    hide Dot, Product, Column, Chosen, CountTrue, RS.IsBasisChange, Polynomials.Eval, Apart, Covered;
    var k, data := |shards|, Shards(before, shards, len);
    forall j, b | 0 <= j < |parity| && mask[j] && 0 <= b < len
      ensures after[parity[j] + b] == Polynomials.Eval(ps[b], (k + j) as Byte)
    {
      assert forall i :: 0 <= i < k ==> Column(data, b)[i] == before[shards[i] + b];
      RS.CodewordInterpolates(c, k + |parity|, k, Column(data, b), ps[b]);
      ColumnOfProduct(c, data, len, b);
      assert Shard(after, parity[j], len)[b] == Column(Coded(c, data, len), b)[k + j];
    }
  }

  lemma EncodedFrame(c: Mat, shards: seq<nat>, parity: seq<nat>, mask: seq<bool>, len: nat, before: seq<Byte>,
                     after: seq<Byte>)
    requires IsMat(c, |shards| + |parity|, |shards|) && |mask| == |parity|
    requires InBounds(shards, len, |before|) && InBounds(parity, len, |before|)
    requires IsEncoded(c, shards, parity, mask, len, before, after)
    ensures |after| == |before|
    ensures
      forall a :: 0 <= a < |before|
          && (forall j :: 0 <= j < |parity| && mask[j] ==> !(parity[j] <= a < parity[j] + len))
        ==> after[a] == before[a]
  {
    hide Chosen, CountTrue, Coded, Shards, Shard;
    ChosenIsMask(mask);
  }

  lemma PickShape(size: nat, inputs: seq<nat>, outputs: seq<nat>, positions: seq<nat>, n: nat)
    requires Shape(size, inputs, outputs, n) && Increasing(positions)
    requires forall i :: 0 <= i < |positions| ==> positions[i] < |outputs|
    ensures Shape(size, inputs, Pick(outputs, positions), n)
  {
    hide Apart;
  }

  lemma StreamProduct(c: Mat, m: Mat, shards: seq<nat>, parity: seq<nat>, mask: seq<bool>, len: nat,
                      before: seq<Byte>, after: seq<Byte>)
    requires IsMat(c, |shards| + |parity|, |shards|) && |mask| == |parity|
    requires Shape(|before|, shards, parity, len)
    requires IsMat(m, CountTrue(mask), |shards|)
    requires forall i :: 0 <= i < CountTrue(mask) ==>
      Chosen(mask)[i] < |parity| && m[i] == c[Chosen(mask)[i] + |shards|]
    requires IsMultiplied(m, shards, Pick(parity, Chosen(mask)), len, before, after)
    ensures IsEncoded(c, shards, parity, mask, len, before, after)
  {
    hide Chosen, CountTrue, Dot, Column, Shard, OnlyShardsChanged, AllApart, ApartFrom, Pick, Product;
    ChosenIsMask(mask);
    var data := Shards(before, shards, len);
    forall p | 0 <= p < |mask| && mask[p]
      ensures Shard(after, parity[p], len) == Coded(c, data, len)[|shards| + p]
    {
      var i :| 0 <= i < |Chosen(mask)| && Chosen(mask)[i] == p;
      assert Shards(after, Pick(parity, Chosen(mask)), len)[i] == Product(m, data, len)[i];
      SameRowSameProduct(m, c, i, |shards| + p, data, len);
    }
  }

  lemma SameRowSameProduct(a: Mat, b: Mat, i: nat, j: nat, data: Mat, len: nat)
    requires IsMat(a, |a|, |data|) && IsMat(b, |b|, |data|) && IsMat(data, |data|, len)
    requires i < |a| && j < |b| && a[i] == b[j]
    ensures Product(a, data, len)[i] == Product(b, data, len)[j]
  {
    hide Dot;
  }

  /** The multiplication of a stream, once all pointers have been checked. */
  method EncodeShards(mem: array<Byte>, s: EncodeStream, shards: seq<nat>, parity: seq<nat>,
                      ghost e: RsEncoder, ghost mask: seq<bool>)
    requires IsEncodeStream(s, e, mask) && EncodeShape(e, mem.Length, shards, parity)
    requires mem as object != s.mat && mem as object != s.indices && mem as object != e.codingMat
    modifies mem
    ensures IsEncoded(Rows(e.codingMat), shards, parity, mask, e.dataSize, old(mem[..]), mem[..])
  {
    hide RS.IsCoding, Rows, RowOf, Chosen, CountTrue, OnlyShardsChanged, AllApart, ApartFrom, IsMultiplied,
      IsEncoded;
    ghost var before, c := mem[..], Rows(e.codingMat);
    ChosenIsMask(mask);
    var outputs := Pick(parity, s.indices[..]);
    PickShape(mem.Length, shards, parity, s.indices[..], s.dataSize);
    if s.nOutputs == 0 {
      NothingToDo(Rows(s.mat), shards, outputs, s.dataSize, before);
    } else {
      MatrixMul(s.mulProc, mem, s.mat, shards, outputs, s.dataSize);
    }
    StreamProduct(c, Rows(s.mat), shards, parity, mask, s.dataSize, before, mem[..]);
  }

  /** A null pointer is an error, also one of a parity shard that is not selected. */
  method StreamEncode(mem: array<Byte>, s: EncodeStream, shards: seq<Pointer>, parity: seq<Pointer>,
                      ghost e: RsEncoder, ghost mask: seq<bool>)
    returns (err: ErrorCode)
    requires IsEncodeStream(s, e, mask) && PointersFit(e, mem.Length, shards, parity)
    requires mem as object != s.mat && mem as object != s.indices && mem as object != e.codingMat
    modifies mem
    ensures err == if AllGiven(shards) && AllGiven(parity) then Success else InvalidArguments
    ensures err == InvalidArguments ==> mem[..] == old(mem[..])
    ensures err == Success ==>
      IsEncoded(Rows(e.codingMat), Addresses(shards), Addresses(parity), mask, e.dataSize, old(mem[..]), mem[..])
  {
    hide IsEncodeStream, Rows, AllApart, ApartFrom, IsEncoded, AllGiven;
    var missing := HasNull(shards);
    if missing {
      return InvalidArguments;
    }
    missing := HasNull(parity);
    if missing {
      return InvalidArguments;
    }
    EncodeShards(mem, s, Addresses(shards), Addresses(parity), e, mask);
    err := Success;
  }

  lemma NothingToDo(m: Mat, inputs: seq<nat>, outputs: seq<nat>, n: nat, s: seq<Byte>)
    requires outputs == [] && IsMat(m, 0, |inputs|) && InBounds(inputs, n, |s|)
    ensures IsMultiplied(m, inputs, outputs, n, s, s)
  {
    assert Shards(s, outputs, n) == Product(m, Shards(s, inputs, n), n);
  }

  // ----- encoding

  method EncodePartial(mem: array<Byte>, e: RsEncoder, shards: seq<Pointer>, parity: seq<Pointer>,
                       shouldEncode: seq<bool>)
    returns (err: ErrorCode)
    requires e.Valid() && |shouldEncode| == e.nParity && PointersFit(e, mem.Length, shards, parity)
    requires mem as object != e.codingMat
    modifies mem
    ensures err == if AllGiven(shards) && AllGiven(parity) then Success else InvalidArguments
    ensures err == InvalidArguments ==> mem[..] == old(mem[..])
    ensures err == Success ==>
      IsEncoded(Rows(e.codingMat), Addresses(shards), Addresses(parity), shouldEncode, e.dataSize, old(mem[..]),
        mem[..])
    ensures err == Success ==>
      forall ps: Mat :: IsMat(ps, e.dataSize, e.nData)
          && (forall i, b :: 0 <= i < e.nData && 0 <= b < e.dataSize ==>
                old(mem[..])[shards[i].address + b] == Polynomials.Eval(ps[b], i as Byte))
        ==> forall j, b :: 0 <= j < e.nParity && shouldEncode[j] && 0 <= b < e.dataSize ==>
              mem[parity[j].address + b] == Polynomials.Eval(ps[b], (e.nData + j) as Byte)
    ensures err == Success ==>
      forall a :: 0 <= a < mem.Length
          && (forall j :: 0 <= j < e.nParity && shouldEncode[j] ==>
                !(parity[j].address <= a < parity[j].address + e.dataSize))
        ==> mem[a] == old(mem[a])
  {
    hide RS.IsCoding, Rows, RowOf, IsEncoded, IsEncodeStream, Polynomials.Eval, AllApart, ApartFrom;
    ghost var before := mem[..];
    var stream := CreateEncodeStream(e, shouldEncode);
    err := StreamEncode(mem, stream, shards, parity, e, shouldEncode);
    if err == Success {
      ghost var c, s, p := Rows(e.codingMat), Addresses(shards), Addresses(parity);
      EncodedFrame(c, s, p, shouldEncode, e.dataSize, before, mem[..]);
      forall ps: Mat | IsMat(ps, e.dataSize, e.nData)
        && (forall i, b :: 0 <= i < e.nData && 0 <= b < e.dataSize ==>
          before[s[i] + b] == Polynomials.Eval(ps[b], i as Byte))
        ensures forall j, b :: 0 <= j < e.nParity && shouldEncode[j] && 0 <= b < e.dataSize ==>
          mem[..][p[j] + b] == Polynomials.Eval(ps[b], (e.nData + j) as Byte)
      {
        EncodedInterpolates(c, s, p, shouldEncode, e.dataSize, before, mem[..], ps);
      }
    }
  }

  /** Every parity shard is written: data and parity together are the codeword of the data. */
  method Encode(mem: array<Byte>, e: RsEncoder, shards: seq<Pointer>, parity: seq<Pointer>)
    returns (err: ErrorCode)
    requires e.Valid() && PointersFit(e, mem.Length, shards, parity)
    requires mem as object != e.codingMat
    modifies mem
    ensures err == if AllGiven(shards) && AllGiven(parity) then Success else InvalidArguments
    ensures err == InvalidArguments ==> mem[..] == old(mem[..])
    ensures err == Success ==>
      && OnlyShardsChanged(old(mem[..]), mem[..], Addresses(parity), e.dataSize)
      && Shards(mem[..], Addresses(shards) + Addresses(parity), e.dataSize)
      == Coded(Rows(e.codingMat), old(Shards(mem[..], Addresses(shards), e.dataSize)), e.dataSize)
    ensures err == Success ==>
      forall ps: Mat :: IsMat(ps, e.dataSize, e.nData)
          && (forall i, b :: 0 <= i < e.nData && 0 <= b < e.dataSize ==>
                old(mem[..])[shards[i].address + b] == Polynomials.Eval(ps[b], i as Byte))
        ==> forall j, b :: 0 <= j < e.nParity && 0 <= b < e.dataSize ==>
              mem[parity[j].address + b] == Polynomials.Eval(ps[b], (e.nData + j) as Byte)
    ensures err == Success ==>
      forall a :: 0 <= a < mem.Length
          && (forall j :: 0 <= j < e.nParity ==> !(parity[j].address <= a < parity[j].address + e.dataSize))
        ==> mem[a] == old(mem[a])
  {
    hide RS.IsCoding, Rows, RowOf, Chosen, CountTrue, OnlyShardsChanged, AllApart, ApartFrom, IsMultiplied,
      IsEncoded, AllGiven, Polynomials.Eval;
    var shouldEncode := new bool[e.nParity](_ => true);
    ghost var before := mem[..];
    err := EncodePartial(mem, e, shards, parity, shouldEncode[..]);
    if err == Success {
      FullEncode(Rows(e.codingMat), Addresses(shards), Addresses(parity), shouldEncode[..], e.dataSize, before,
        mem[..]);
    }
  }

  lemma {:induction false} AllChosen(mask: seq<bool>)
    requires forall p :: 0 <= p < |mask| ==> mask[p]
    ensures Chosen(mask) == seq(|mask|, i requires 0 <= i => i)
  {
    if mask != [] {
      AllChosen(mask[..|mask| - 1]);
    }
  }

  lemma FullEncode(c: Mat, shards: seq<nat>, parity: seq<nat>, mask: seq<bool>, len: nat, before: seq<Byte>,
                   after: seq<Byte>)
    requires |shards| + |parity| < 256 && RS.IsCoding(c, |shards| + |parity|, |shards|) && |mask| == |parity|
    requires Shape(|before|, shards, parity, len) && forall p :: 0 <= p < |mask| ==> mask[p]
    requires IsEncoded(c, shards, parity, mask, len, before, after)
    ensures OnlyShardsChanged(before, after, parity, len)
    ensures Shards(after, shards + parity, len) == Coded(c, Shards(before, shards, len), len)
  {
    hide Dot, Column, Shard, Chosen, RS.IsBasisChange, Coded, Apart, Covered;
    AllChosen(mask);
    assert Pick(parity, Chosen(mask)) == parity;
    var data := Shards(before, shards, len);
    CodedIsSystematic(c, |shards| + |parity|, |shards|, data, len);
    ApartShardsKept(before, after, parity, len, shards);
    forall i | 0 <= i < |shards| + |parity|
      ensures Shards(after, shards + parity, len)[i] == Coded(c, data, len)[i]
    {
      if i < |shards| {
        assert Shards(after, shards, len)[i] == Shards(before, shards, len)[i];
        assert Coded(c, data, len)[..|shards|][i] == data[i];
      } else {
        assert (shards + parity)[i] == parity[i - |shards|];
      }
    }
  }

  /** Encoding a selection writes the bytes full encoding would write, and leaves the other parity shards alone. */
  lemma PartialAgreesWithFull(c: Mat, shards: seq<nat>, parity: seq<nat>, mask: seq<bool>, len: nat,
                              before: seq<Byte>, partial: seq<Byte>, full: seq<Byte>)
    requires |shards| + |parity| < 256 && RS.IsCoding(c, |shards| + |parity|, |shards|) && |mask| == |parity|
    requires Shape(|before|, shards, parity, len)
    requires IsEncoded(c, shards, parity, mask, len, before, partial)
    requires OnlyShardsChanged(before, full, parity, len)
    requires Shards(full, shards + parity, len) == Coded(c, Shards(before, shards, len), len)
    ensures forall p :: 0 <= p < |parity| ==>
      Shard(partial, parity[p], len) == Shard(if mask[p] then full else before, parity[p], len)
  {
    hide Dot, Column, Shard, RS.IsBasisChange, Coded, Apart, Covered, Chosen;
    ChosenIsMask(mask);
    forall p | 0 <= p < |parity|
      ensures Shard(partial, parity[p], len) == Shard(if mask[p] then full else before, parity[p], len)
    {
      if mask[p] {
        assert Shards(full, shards + parity, len)[|shards| + p] == Shard(full, parity[p], len);
      } else {
        var outs := Pick(parity, Chosen(mask));
        forall j | 0 <= j < |outs|
          ensures Apart(parity[p], outs[j], len)
        {
          ApartSymmetric(parity[p], parity[Chosen(mask)[j]], len);
        }
        ApartShardKept(before, partial, outs, len, parity[p]);
      }
    }
  }
}
