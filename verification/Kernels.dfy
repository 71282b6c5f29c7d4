/** The multiplication kernels: a coefficient matrix times the shards in memory. */
module Kernels {
  import opened Gf256
  import opened LinearAlgebra
  import opened Matrices
  import opened Memory
  import opened RowOperations
  import Symbol

  // ----- what a kernel does

  /** The first c terms of one output row. */
  ghost function PartialRow(row: Vec, ins: Mat, c: nat, n: nat): (v: Vec)
    requires c <= |row| && c <= |ins| && IsMat(ins, |ins|, n)
    ensures |v| == n && forall b :: 0 <= b < n ==> v[b] == Dot(row, Column(ins, b), c)
  {
    seq(n, b requires 0 <= b < n => Dot(row, Column(ins, b), c))
  }

  ghost predicate Shape(size: nat, inputs: seq<nat>, outputs: seq<nat>, n: nat) {
    InBounds(inputs, n, size) && InBounds(outputs, n, size) && AllApart(outputs, n) && ApartFrom(inputs, outputs, n)
  }

  /** The outputs hold the product of the matrix with the inputs, and nothing else changed. */
  ghost predicate IsMultiplied(mat: Mat, inputs: seq<nat>, outputs: seq<nat>, n: nat, before: seq<Byte>,
                               after: seq<Byte>)
    requires IsMat(mat, |outputs|, |inputs|)
  {
    && InBounds(inputs, n, |before|) && InBounds(outputs, n, |after|)
    && Shards(after, outputs, n) == Product(mat, Shards(before, inputs, n), n)
    && OnlyShardsChanged(before, after, outputs, n)
  }

  /** There is only one such result, so kernels that meet the specification agree on every byte. */
  lemma MultipliedUnique(mat: Mat, inputs: seq<nat>, outputs: seq<nat>, n: nat, before: seq<Byte>, a1: seq<Byte>,
                         a2: seq<Byte>)
    requires IsMat(mat, |outputs|, |inputs|)
    requires IsMultiplied(mat, inputs, outputs, n, before, a1)
    requires IsMultiplied(mat, inputs, outputs, n, before, a2)
    ensures a1 == a2
  {
    hide Product;
    forall a | 0 <= a < |before|
      ensures a1[a] == a2[a]
    {
      if Covered(a, outputs, n) {
        var i :| 0 <= i < |outputs| && outputs[i] <= a < outputs[i] + n;
        assert Shards(a1, outputs, n)[i] == Shards(a2, outputs, n)[i];
        assert a1[a] == Shard(a1, outputs[i], n)[a - outputs[i]];
        assert a2[a] == Shard(a2, outputs[i], n)[a - outputs[i]];
      }
    }
  }

  // ----- nibble tables

  function LoTable(val: Byte): (t: seq<Byte>)
    ensures |t| == 16
  {
    seq(16, j requires 0 <= j < 16 => Symbol.Times(val, j as Byte))
  }

  function ToHigh(b: Byte): Byte {
    b << 4
  }

  function LowNibble(b: Byte): Byte {
    b & 0xF
  }

  function HighNibble(b: Byte): Byte {
    b >> 4
  }

  function HiTable(val: Byte): (t: seq<Byte>)
    ensures |t| == 16
  {
    seq(16, j requires 0 <= j < 16 => Symbol.Times(val, ToHigh(j as Byte)))
  }

  lemma Nibbles(x: Byte)
    ensures LowNibble(x) as int < 16 && HighNibble(x) as int < 16
    ensures (LowNibble(x) as int) as Byte == LowNibble(x)
    ensures (HighNibble(x) as int) as Byte == HighNibble(x)
  {
  }

  lemma NibblesJoin(x: Byte)
    ensures Add(LowNibble(x), ToHigh(HighNibble(x))) == x
  {
  }

  /** Two table look-ups and an XOR multiply a byte. */
  lemma NibbleProduct(val: Byte, x: Byte)
    ensures LowNibble(x) as int < 16 && HighNibble(x) as int < 16
    ensures Add(LoTable(val)[LowNibble(x) as int], HiTable(val)[HighNibble(x) as int]) == Mul(val, x)
  {
    hide Symbol.Times, Mul, Add, LowNibble, HighNibble, ToHigh;
    Nibbles(x);
    NibblesJoin(x);
    MulAddRight(val, LowNibble(x), ToHigh(HighNibble(x)));
  }

  // ----- one row at a time

  ghost function Scaled(val: Byte, v: Vec): (w: Vec)
    ensures |w| == |v| && forall b :: 0 <= b < |v| ==> w[b] == Mul(val, v[b])
  {
    seq(|v|, b requires 0 <= b < |v| => Mul(val, v[b]))
  }

  method MulRow(mem: array<Byte>, val: Byte, input: nat, output: nat, n: nat)
    requires input + n <= mem.Length && output + n <= mem.Length && Apart(input, output, n)
    modifies mem
    ensures Shard(mem[..], output, n) == Scaled(val, old(Shard(mem[..], input, n)))
    ensures forall a :: 0 <= a < mem.Length && !(output <= a < output + n) ==> mem[a] == old(mem[a])
  {
    hide Mul, LoTable, HiTable, LowNibble, HighNibble;
    var lo, hi := LoTable(val), HiTable(val);
    for i := 0 to n
      invariant forall a :: output <= a < output + i ==> mem[a] == Mul(val, old(mem[a - output + input]))
      invariant forall a :: 0 <= a < mem.Length && !(output <= a < output + i) ==> mem[a] == old(mem[a])
    {
      var inVal := mem[input + i];
      NibbleProduct(val, inVal);
      var loVal := lo[LowNibble(inVal) as int];
      var hiVal := hi[HighNibble(inVal) as int];
      mem[output + i] := Symbol.Plus(loVal, hiVal);
    }
  }

  method MulAddRow(mem: array<Byte>, val: Byte, input: nat, output: nat, n: nat)
    requires input + n <= mem.Length && output + n <= mem.Length && Apart(input, output, n)
    modifies mem
    ensures Shard(mem[..], output, n) == Axpy(old(Shard(mem[..], output, n)), val, old(Shard(mem[..], input, n)))
    ensures forall a :: 0 <= a < mem.Length && !(output <= a < output + n) ==> mem[a] == old(mem[a])
  {
    hide Mul, Add, LoTable, HiTable, LowNibble, HighNibble;
    var lo, hi := LoTable(val), HiTable(val);
    for i := 0 to n
      invariant forall a :: output <= a < output + i ==>
        mem[a] == Add(old(mem[a]), Mul(val, old(mem[a - output + input])))
      invariant forall a :: 0 <= a < mem.Length && !(output <= a < output + i) ==> mem[a] == old(mem[a])
    {
      var inVal := mem[input + i];
      NibbleProduct(val, inVal);
      var loVal := lo[LowNibble(inVal) as int];
      var hiVal := hi[HighNibble(inVal) as int];
      mem[output + i] := Symbol.Plus(mem[output + i], Symbol.Plus(loVal, hiVal));
    }
  }

  // ----- the row so far

  lemma FirstTerm(row: Vec, ins: Mat, n: nat)
    requires row != [] && ins != [] && IsMat(ins, |ins|, n)
    ensures Scaled(row[0], ins[0]) == PartialRow(row, ins, 1, n)
  {
    hide Mul, Add;
    var p := PartialRow(row, ins, 1, n);
    forall b | 0 <= b < n
      ensures Mul(row[0], ins[0][b]) == p[b]
    {
      AddLaws(Mul(row[0], ins[0][b]), 0, 0);
      assert Dot(row, Column(ins, b), 0) == 0;
    }
  }

  lemma NextTerm(row: Vec, ins: Mat, c: nat, n: nat)
    requires c < |row| && c < |ins| && IsMat(ins, |ins|, n)
    ensures Axpy(PartialRow(row, ins, c, n), row[c], ins[c]) == PartialRow(row, ins, c + 1, n)
  {
    hide Mul, Add;
  }

  lemma OneRowChanged(before: seq<Byte>, mid: seq<Byte>, after: seq<Byte>, ptrs: seq<nat>, n: nat, r: nat)
    requires OnlyShardsChanged(before, mid, ptrs, n) && r < |ptrs| && |after| == |mid|
    requires forall a :: 0 <= a < |mid| && !(ptrs[r] <= a < ptrs[r] + n) ==> after[a] == mid[a]
    ensures OnlyShardsChanged(before, after, ptrs, n)
  {
  }

  lemma OtherShardKept(mid: seq<Byte>, after: seq<Byte>, p: nat, q: nat, n: nat)
    requires |after| == |mid| && p + n <= |mid| && q + n <= |mid| && Apart(p, q, n)
    requires forall a :: 0 <= a < |mid| && !(q <= a < q + n) ==> after[a] == mid[a]
    ensures Shard(after, p, n) == Shard(mid, p, n)
  {
  }

  lemma InputsKept(before: seq<Byte>, after: seq<Byte>, inputs: seq<nat>, outputs: seq<nat>, n: nat)
    requires Shape(|before|, inputs, outputs, n) && OnlyShardsChanged(before, after, outputs, n)
    ensures forall c :: 0 <= c < |inputs| ==> Shard(after, inputs[c], n) == Shard(before, inputs[c], n)
  {
    hide Shard;
    ApartShardsKept(before, after, outputs, n, inputs);
    forall c | 0 <= c < |inputs|
      ensures Shard(after, inputs[c], n) == Shard(before, inputs[c], n)
    {
      assert Shards(after, inputs, n)[c] == Shards(before, inputs, n)[c];
    }
  }

  lemma AllRowsDone(mat: Mat, inputs: seq<nat>, outputs: seq<nat>, n: nat, before: seq<Byte>, after: seq<Byte>)
    requires IsMat(mat, |outputs|, |inputs|) && Shape(|before|, inputs, outputs, n)
    requires OnlyShardsChanged(before, after, outputs, n)
    requires forall i :: 0 <= i < |outputs| ==>
      Shard(after, outputs[i], n) == PartialRow(mat[i], Shards(before, inputs, n), |inputs|, n)
    ensures IsMultiplied(mat, inputs, outputs, n, before, after)
  {
    hide Dot, Shard, Covered;
    MatExtensional(Shards(after, outputs, n), Product(mat, Shards(before, inputs, n), n), |outputs|, n);
  }

  // ----- the nibble-table kernel

  method MatrixMulAdv(mem: array<Byte>, mat: array2<Byte>, inputs: seq<nat>, outputs: seq<nat>, n: nat)
    requires mat.Length0 == |outputs| && mat.Length1 == |inputs| && mem as object != mat
    requires Shape(mem.Length, inputs, outputs, n)
    modifies mem
    ensures inputs == [] ==> mem[..] == old(mem[..])
    ensures inputs != [] ==> IsMultiplied(Rows(mat), inputs, outputs, n, old(mem[..]), mem[..])
  {
    hide Shard, Shards, Rows, RowOf, PartialRow, Scaled, Axpy, Covered, Apart, IsMultiplied;
    ghost var before, m := mem[..], Rows(mat);
    ghost var ins := Shards(before, inputs, n);
    for r := 0 to |outputs|
      invariant OnlyShardsChanged(before, mem[..], outputs, n)
      invariant inputs == [] ==> mem[..] == before
      invariant inputs != [] ==> forall i :: 0 <= i < r ==>
        Shard(mem[..], outputs[i], n) == PartialRow(m[i], ins, |inputs|, n)
    {
      var out := outputs[r];
      for c := 0 to |inputs|
        invariant OnlyShardsChanged(before, mem[..], outputs, n)
        invariant inputs == [] ==> mem[..] == before
        invariant inputs != [] ==> forall i :: 0 <= i < r ==>
          Shard(mem[..], outputs[i], n) == PartialRow(m[i], ins, |inputs|, n)
        invariant c > 0 ==> Shard(mem[..], out, n) == PartialRow(m[r], ins, c, n)
      {
        ghost var mid := mem[..];
        InputsKept(before, mid, inputs, outputs, n);
        var val := mat[r, c];
        var input := inputs[c];
        if c == 0 {
          MulRow(mem, val, input, out, n);
          FirstTerm(m[r], ins, n);
        } else {
          MulAddRow(mem, val, input, out, n);
          NextTerm(m[r], ins, c, n);
        }
        OneRowChanged(before, mid, mem[..], outputs, n, r);
        forall i | 0 <= i < r
          ensures Shard(mem[..], outputs[i], n) == Shard(mid, outputs[i], n)
        {
          OtherShardKept(mid, mem[..], outputs[i], out, n);
        }
      }
    }
    if inputs != [] {
      AllRowsDone(m, inputs, outputs, n, before, mem[..]);
    }
  }

  // ----- the reference kernel

  method MatrixMulBasic(mem: array<Byte>, mat: array2<Byte>, inputs: seq<nat>, outputs: seq<nat>, n: nat)
    requires mat.Length0 == |outputs| && mat.Length1 == |inputs| && mem as object != mat
    requires Shape(mem.Length, inputs, outputs, n)
    modifies mem
    ensures IsMultiplied(Rows(mat), inputs, outputs, n, old(mem[..]), mem[..])
  {
    hide Add, Mul, Shard, Shards, Rows, RowOf, PartialRow, Axpy, Covered, Apart, IsMultiplied;
    ghost var before, m := mem[..], Rows(mat);
    ghost var ins := Shards(before, inputs, n);
    for r := 0 to |outputs|
      invariant OnlyShardsChanged(before, mem[..], outputs, n)
      invariant forall i :: 0 <= i < r ==> Shard(mem[..], outputs[i], n) == Zero(n)
    {
      ghost var mid := mem[..];
      ClearBytes(mem, outputs[r], n);
      OneRowChanged(before, mid, mem[..], outputs, n, r);
      forall i | 0 <= i < r
        ensures Shard(mem[..], outputs[i], n) == Shard(mid, outputs[i], n)
      {
        OtherShardKept(mid, mem[..], outputs[i], outputs[r], n);
      }
    }
    for r := 0 to |outputs|
      invariant OnlyShardsChanged(before, mem[..], outputs, n)
      invariant forall i :: 0 <= i < |outputs| ==>
        Shard(mem[..], outputs[i], n) == if i < r then PartialRow(m[i], ins, |inputs|, n) else Zero(n)
    {
      var out := outputs[r];
      NoTerms(m[r], ins, n);
      for c := 0 to |inputs|
        invariant OnlyShardsChanged(before, mem[..], outputs, n)
        invariant Shard(mem[..], out, n) == PartialRow(m[r], ins, c, n)
        invariant forall i :: 0 <= i < |outputs| && i != r ==>
          Shard(mem[..], outputs[i], n) == if i < r then PartialRow(m[i], ins, |inputs|, n) else Zero(n)
      {
        ghost var mid := mem[..];
        InputsKept(before, mid, inputs, outputs, n);
        var val := mat[r, c];
        AddProducts(mem, val, inputs[c], out, n);
        NextTerm(m[r], ins, c, n);
        OneRowChanged(before, mid, mem[..], outputs, n, r);
        forall i | 0 <= i < |outputs| && i != r
          ensures Shard(mem[..], outputs[i], n) == Shard(mid, outputs[i], n)
        {
          ApartSymmetric(outputs[i], out, n);
          OtherShardKept(mid, mem[..], outputs[i], out, n);
        }
      }
    }
    AllRowsDone(m, inputs, outputs, n, before, mem[..]);
  }

  lemma ApartSymmetric(p: nat, q: nat, n: nat)
    ensures Apart(p, q, n) == Apart(q, p, n)
  {
  }

  method ClearBytes(mem: array<Byte>, p: nat, n: nat)
    requires p + n <= mem.Length
    modifies mem
    ensures Shard(mem[..], p, n) == Zero(n)
    ensures forall a :: 0 <= a < mem.Length && !(p <= a < p + n) ==> mem[a] == old(mem[a])
  {
    forall i | 0 <= i < n {
      mem[p + i] := 0;
    }
    assert forall a :: p <= a < p + n ==> mem[a] == 0 by {
      forall a | p <= a < p + n
        ensures mem[a] == 0
      {
        assert mem[p + (a - p)] == 0;
      }
    }
  }

  lemma NoTerms(row: Vec, ins: Mat, n: nat)
    requires IsMat(ins, |ins|, n)
    ensures PartialRow(row, ins, 0, n) == Zero(n)
  {
  }

  /** The innermost loop of the reference kernel. */
  method AddProducts(mem: array<Byte>, val: Byte, input: nat, output: nat, n: nat)
    requires input + n <= mem.Length && output + n <= mem.Length && Apart(input, output, n)
    modifies mem
    ensures Shard(mem[..], output, n) == Axpy(old(Shard(mem[..], output, n)), val, old(Shard(mem[..], input, n)))
    ensures forall a :: 0 <= a < mem.Length && !(output <= a < output + n) ==> mem[a] == old(mem[a])
  {
    hide Mul, Add, Symbol.Times;
    for i := 0 to n
      invariant forall a :: output <= a < output + i ==>
        mem[a] == Add(old(mem[a]), Mul(val, old(mem[a - output + input])))
      invariant forall a :: 0 <= a < mem.Length && !(output <= a < output + i) ==> mem[a] == old(mem[a])
    {
      MulComm(mem[input + i], val);
      mem[output + i] := Symbol.Plus(mem[output + i], Symbol.Times(mem[input + i], val));
    }
  }
}
