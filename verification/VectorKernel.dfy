/** The 32-byte blocked kernel with its scalar tail, on registers modelled as 32 lanes of bytes. */
module VectorKernel {
  import opened Gf256
  import opened LinearAlgebra
  import opened Matrices
  import opened Memory
  import opened RowOperations
  import opened Kernels
  import Symbol

  const WIDTH: nat := 32

  type Register = v: seq<Byte> | |v| == WIDTH witness seq(WIDTH, _ => 0)

  // ----- the instructions used

  function Broadcast(b: Byte): Register {
    seq(WIDTH, _ => b)
  }

  function And(u: Register, v: Register): Register {
    seq(WIDTH, i requires 0 <= i < WIDTH => u[i] & v[i])
  }

  function Xor(u: Register, v: Register): Register {
    seq(WIDTH, i requires 0 <= i < WIDTH => Symbol.Plus(u[i], v[i]))
  }

  function RightInWord(low: Byte, next: Byte): Byte {
    (low >> 4) | (next << 4)
  }

  /** Shifts each little-endian 64-bit word right by four: a byte takes in low bits of its upper neighbour. */
  function ShiftWordsRight4(v: Register): Register {
    seq(WIDTH, i requires 0 <= i < WIDTH => RightInWord(v[i], if i % 8 == 7 then 0 else v[i + 1]))
  }

  /** Looks up each lane in its own 16-byte half of the table; a set top bit gives zero. */
  function ShuffleBytes(table: Register, idx: Register): Register {
    seq(WIDTH, i requires 0 <= i < WIDTH =>
      if idx[i] & 0x80 != 0 then 0 else ShuffleLane(table, i / 16, idx[i]))
  }

  function ShuffleLane(table: Register, half: nat, idx: Byte): Byte
    requires half < 2
  {
    Nibbles(idx);
    table[16 * half + LowNibble(idx) as int]
  }

  /** Both halves become the given half. */
  function DuplicateHalf(v: Register, half: nat): Register
    requires half < 2
  {
    var h := v[16 * half..16 * half + 16];
    h + h
  }

  // ----- one block

  function BlockProduct(val: Byte, inVals: Register): Register {
    var mask := Broadcast(0x0F);
    var table := LoTable(val) + HiTable(val);
    var hi := DuplicateHalf(table, 1);
    var lo := DuplicateHalf(table, 0);
    var idx1 := And(inVals, mask);
    var shifted := ShiftWordsRight4(inVals);
    var idx2 := And(shifted, mask);
    var loVals := ShuffleBytes(lo, idx1);
    var hiVals := ShuffleBytes(hi, idx2);
    Xor(loVals, hiVals)
  }

  lemma LaneIndices(x: Byte, next: Byte)
    ensures x & 0x0F == LowNibble(x)
    ensures RightInWord(x, next) & 0x0F == HighNibble(x)
    ensures LowNibble(x) & 0x80 == 0 && HighNibble(x) & 0x80 == 0
    ensures LowNibble(LowNibble(x)) == LowNibble(x) && LowNibble(HighNibble(x)) == HighNibble(x)
  {
  }

  lemma LookUpLane(lo: seq<Byte>, hi: seq<Byte>, half: nat, idx: Register, i: nat)
    requires |lo| == 16 && |hi| == 16 && half < 2 && i < WIDTH
    requires idx[i] & 0x80 == 0 && LowNibble(idx[i]) == idx[i] && idx[i] as int < 16
    ensures ShuffleBytes(DuplicateHalf(lo + hi, half), idx)[i] == (if half == 0 then lo else hi)[idx[i] as int]
  {
    hide LowNibble;
    var h := if half == 0 then lo else hi;
    assert DuplicateHalf(lo + hi, half) == h + h;
    if i < 16 {
      assert i / 16 == 0;
    } else {
      assert i / 16 == 1;
    }
  }

  /** Every lane is multiplied: bits shifted in from the neighbouring lane are masked off. */
  lemma BlockProductLane(val: Byte, inVals: Register, i: nat)
    requires i < WIDTH
    ensures BlockProduct(val, inVals)[i] == Mul(val, inVals[i])
  {
    hide Mul, Add, LoTable, HiTable, LowNibble, HighNibble, RightInWord, ShuffleBytes, DuplicateHalf;
    var x := inVals[i];
    var mask := Broadcast(0x0F);
    var idx1, idx2 := And(inVals, mask), And(ShiftWordsRight4(inVals), mask);
    LaneIndices(x, if i % 8 == 7 then 0 else inVals[i + 1]);
    assert idx1[i] == LowNibble(x) && idx2[i] == HighNibble(x);
    NibbleProduct(val, x);
    LookUpLane(LoTable(val), HiTable(val), 0, idx1, i);
    LookUpLane(LoTable(val), HiTable(val), 1, idx2, i);
  }

  lemma BlockScaled(val: Byte, inVals: Register)
    ensures forall l :: 0 <= l < WIDTH ==> BlockProduct(val, inVals)[l] == Mul(val, inVals[l])
  {
    hide *;
    forall l | 0 <= l < WIDTH
      ensures BlockProduct(val, inVals)[l] == Mul(val, inVals[l])
    {
      BlockProductLane(val, inVals, l);
    }
  }

  lemma BlockAxpy(val: Byte, inVals: Register, outVals: Register)
    ensures forall l :: 0 <= l < WIDTH ==>
      Xor(BlockProduct(val, inVals), outVals)[l] == Add(outVals[l], Mul(val, inVals[l]))
  {
    hide Add, Mul, BlockProduct;
    BlockScaled(val, inVals);
    forall l | 0 <= l < WIDTH
      ensures Xor(BlockProduct(val, inVals), outVals)[l] == Add(outVals[l], Mul(val, inVals[l]))
    {
      AddLaws(Mul(val, inVals[l]), outVals[l], 0);
    }
  }

  // ----- rows of whole blocks

  method Store(mem: array<Byte>, p: nat, v: Register)
    requires p + WIDTH <= mem.Length
    modifies mem
    ensures forall a :: p <= a < p + WIDTH ==> mem[a] == v[a - p]
    ensures forall a :: 0 <= a < mem.Length && !(p <= a < p + WIDTH) ==> mem[a] == old(mem[a])
  {
    for i := 0 to WIDTH
      invariant forall a :: p <= a < p + i ==> mem[a] == v[a - p]
      invariant forall a :: 0 <= a < mem.Length && !(p <= a < p + i) ==> mem[a] == old(mem[a])
    {
      mem[p + i] := v[i];
    }
  }

  /** Loads, multiplies and stores one block. */
  method MulBlock(mem: array<Byte>, val: Byte, input: nat, output: nat)
    requires input + WIDTH <= mem.Length && output + WIDTH <= mem.Length
    modifies mem
    ensures forall a :: output <= a < output + WIDTH ==> mem[a] == Mul(val, old(mem[a - output + input]))
    ensures forall a :: 0 <= a < mem.Length && !(output <= a < output + WIDTH) ==> mem[a] == old(mem[a])
  {
    hide Mul, BlockProduct;
    var inVals := mem[input..input + WIDTH];
    var result := BlockProduct(val, inVals);
    BlockScaled(val, inVals);
    Store(mem, output, result);
  }

  method MulAddBlock(mem: array<Byte>, val: Byte, input: nat, output: nat)
    requires input + WIDTH <= mem.Length && output + WIDTH <= mem.Length
    modifies mem
    ensures forall a :: output <= a < output + WIDTH ==>
      mem[a] == Add(old(mem[a]), Mul(val, old(mem[a - output + input])))
    ensures forall a :: 0 <= a < mem.Length && !(output <= a < output + WIDTH) ==> mem[a] == old(mem[a])
  {
    hide Mul, Add, BlockProduct, Xor;
    var inVals := mem[input..input + WIDTH];
    var outVals := mem[output..output + WIDTH];
    var product := BlockProduct(val, inVals);
    var result := Xor(product, outVals);
    BlockAxpy(val, inVals, outVals);
    Store(mem, output, result);
  }

  method MulBlocks(mem: array<Byte>, val: Byte, input: nat, output: nat, n: nat)
    requires n % WIDTH == 0
    requires input + n <= mem.Length && output + n <= mem.Length && Apart(input, output, n)
    modifies mem
    ensures Shard(mem[..], output, n) == Scaled(val, old(Shard(mem[..], input, n)))
    ensures forall a :: 0 <= a < mem.Length && !(output <= a < output + n) ==> mem[a] == old(mem[a])
  {
    hide Mul;
    var i := 0;
    while i < n
      invariant 0 <= i <= n && i % WIDTH == 0
      invariant forall a :: output <= a < output + i ==> mem[a] == Mul(val, old(mem[a - output + input]))
      invariant forall a :: 0 <= a < mem.Length && !(output <= a < output + i) ==> mem[a] == old(mem[a])
    {
      MulBlock(mem, val, input + i, output + i);
      i := i + WIDTH;
    }
  }

  method MulAddBlocks(mem: array<Byte>, val: Byte, input: nat, output: nat, n: nat)
    requires n % WIDTH == 0
    requires input + n <= mem.Length && output + n <= mem.Length && Apart(input, output, n)
    modifies mem
    ensures Shard(mem[..], output, n) == Axpy(old(Shard(mem[..], output, n)), val, old(Shard(mem[..], input, n)))
    ensures forall a :: 0 <= a < mem.Length && !(output <= a < output + n) ==> mem[a] == old(mem[a])
  {
    hide Mul, Add;
    var i := 0;
    while i < n
      invariant 0 <= i <= n && i % WIDTH == 0
      invariant forall a :: output <= a < output + i ==>
        mem[a] == Add(old(mem[a]), Mul(val, old(mem[a - output + input])))
      invariant forall a :: 0 <= a < mem.Length && !(output <= a < output + i) ==> mem[a] == old(mem[a])
    {
      MulAddBlock(mem, val, input + i, output + i);
      i := i + WIDTH;
    }
  }

  method MatrixMulBlocks(mem: array<Byte>, mat: array2<Byte>, inputs: seq<nat>, outputs: seq<nat>, n: nat)
    requires mat.Length0 == |outputs| && mat.Length1 == |inputs| && mem as object != mat
    requires Shape(mem.Length, inputs, outputs, n) && n % WIDTH == 0
    modifies mem
    ensures inputs == [] ==> mem[..] == old(mem[..])
    ensures inputs != [] ==> IsMultiplied(Rows(mat), inputs, outputs, n, old(mem[..]), mem[..])
  {
    hide Shard, Shards, Rows, RowOf, PartialRow, Scaled, Axpy, Covered, Apart, IsMultiplied;
    ghost var before, m := mem[..], Rows(mat);
    ghost var ins := Shards(before, inputs, n);
    for r := 0 to |outputs|
      invariant OnlyShardsChanged(before, mem[..], outputs, n)
      invariant inputs == [] ==> mem[..] == before
      invariant inputs != [] ==> forall i :: 0 <= i < r ==>
        Shard(mem[..], outputs[i], n) == PartialRow(m[i], ins, |inputs|, n)
    {
      var out := outputs[r];
      for c := 0 to |inputs|
        invariant OnlyShardsChanged(before, mem[..], outputs, n)
        invariant inputs == [] ==> mem[..] == before
        invariant inputs != [] ==> forall i :: 0 <= i < r ==>
          Shard(mem[..], outputs[i], n) == PartialRow(m[i], ins, |inputs|, n)
        invariant c > 0 ==> Shard(mem[..], out, n) == PartialRow(m[r], ins, c, n)
      {
        ghost var mid := mem[..];
        InputsKept(before, mid, inputs, outputs, n);
        var val := mat[r, c];
        if c == 0 {
          MulBlocks(mem, val, inputs[c], out, n);
          FirstTerm(m[r], ins, n);
        } else {
          MulAddBlocks(mem, val, inputs[c], out, n);
          NextTerm(m[r], ins, c, n);
        }
        OneRowChanged(before, mid, mem[..], outputs, n, r);
        forall i | 0 <= i < r
          ensures Shard(mem[..], outputs[i], n) == Shard(mid, outputs[i], n)
        {
          OtherShardKept(mid, mem[..], outputs[i], out, n);
        }
      }
    }
    if inputs != [] {
      AllRowsDone(m, inputs, outputs, n, before, mem[..]);
    }
  }

  // ----- blocks and tail together

  lemma SplitChanges(outputs: seq<nat>, n: nat, done: nat, before: seq<Byte>, mid: seq<Byte>, after: seq<Byte>)
    requires done <= n
    requires OnlyShardsChanged(before, mid, outputs, done)
    requires OnlyShardsChanged(mid, after, Shift(outputs, done), n - done)
    ensures OnlyShardsChanged(before, after, outputs, n)
  {
    forall a | 0 <= a < |before| && !Covered(a, outputs, n)
      ensures after[a] == before[a]
    {
      assert !Covered(a, outputs, done);
      assert !Covered(a, Shift(outputs, done), n - done);
    }
  }

  /** The first part of every output row is left alone by the second pass. */
  lemma FirstPartKept(outputs: seq<nat>, n: nat, done: nat, mid: seq<Byte>, after: seq<Byte>, r: nat)
    requires done <= n && r < |outputs| && InBounds(outputs, n, |mid|) && AllApart(outputs, n)
    requires OnlyShardsChanged(mid, after, Shift(outputs, done), n - done)
    ensures Shard(after, outputs[r], done) == Shard(mid, outputs[r], done)
  {
    var p := outputs[r];
    forall a | p <= a < p + done
      ensures after[a] == mid[a]
    {
      forall i | 0 <= i < |outputs|
        ensures !(outputs[i] + done <= a < outputs[i] + done + (n - done))
      {
        assert i != r ==> Apart(outputs[if i < r then i else r], outputs[if i < r then r else i], n);
      }
      assert !Covered(a, Shift(outputs, done), n - done);
    }
    assert after[p..p + done] == mid[p..p + done];
  }

  lemma SecondPartInputs(inputs: seq<nat>, outputs: seq<nat>, n: nat, done: nat, before: seq<Byte>, mid: seq<Byte>)
    requires done <= n && Shape(|before|, inputs, outputs, n)
    requires OnlyShardsChanged(before, mid, outputs, done)
    ensures Shards(mid, Shift(inputs, done), n - done) == Shards(before, Shift(inputs, done), n - done)
  {
    forall c | 0 <= c < |inputs|
      ensures Shard(mid, inputs[c] + done, n - done) == Shard(before, inputs[c] + done, n - done)
    {
      forall a | inputs[c] + done <= a < inputs[c] + n
        ensures mid[a] == before[a]
      {
        forall i | 0 <= i < |outputs|
          ensures !(outputs[i] <= a < outputs[i] + done)
        {
          assert Apart(inputs[c], outputs[i], n);
        }
        assert !Covered(a, outputs, done);
      }
    }
    var u, v := Shards(mid, Shift(inputs, done), n - done), Shards(before, Shift(inputs, done), n - done);
    assert forall c :: 0 <= c < |inputs| ==> u[c] == v[c];
  }

  lemma PrefixColumn(s: seq<Byte>, ptrs: seq<nat>, n: nat, done: nat, b: nat)
    requires b < done <= n && InBounds(ptrs, n, |s|)
    ensures InBounds(ptrs, done, |s|)
    ensures Column(Shards(s, ptrs, done), b) == Column(Shards(s, ptrs, n), b)
  {
    forall i | 0 <= i < |ptrs|
      ensures Shards(s, ptrs, done)[i][b] == Shards(s, ptrs, n)[i][b]
    {
    }
  }

  lemma SuffixColumn(s: seq<Byte>, ptrs: seq<nat>, n: nat, done: nat, b: nat)
    requires done <= b < n && InBounds(ptrs, n, |s|)
    ensures InBounds(Shift(ptrs, done), n - done, |s|)
    ensures Column(Shards(s, Shift(ptrs, done), n - done), b - done) == Column(Shards(s, ptrs, n), b)
  {
    forall i | 0 <= i < |ptrs|
      ensures Shards(s, Shift(ptrs, done), n - done)[i][b - done] == Shards(s, ptrs, n)[i][b]
    {
    }
  }

  lemma MultipliedAt(m: Mat, inputs: seq<nat>, outputs: seq<nat>, n: nat, before: seq<Byte>, after: seq<Byte>, r: nat,
                     b: nat)
    requires IsMat(m, |outputs|, |inputs|) && IsMultiplied(m, inputs, outputs, n, before, after)
    requires r < |outputs| && b < n
    ensures Shard(after, outputs[r], n)[b] == Dot(m[r], Column(Shards(before, inputs, n), b), |inputs|)
  {
    hide Dot, Shard, Column, OnlyShardsChanged;
    assert Shards(after, outputs, n)[r] == Product(m, Shards(before, inputs, n), n)[r];
  }

  lemma LeftPart(m: Mat, inputs: seq<nat>, outputs: seq<nat>, n: nat, done: nat, before: seq<Byte>, mid: seq<Byte>,
                 after: seq<Byte>, r: nat, b: nat)
    requires IsMat(m, |outputs|, |inputs|) && b < done <= n && Shape(|before|, inputs, outputs, n)
    requires IsMultiplied(m, inputs, outputs, done, before, mid)
    requires OnlyShardsChanged(mid, after, Shift(outputs, done), n - done) && r < |outputs|
    ensures Shard(after, outputs[r], n)[b] == Dot(m[r], Column(Shards(before, inputs, n), b), |inputs|)
  {
    FirstPartKept(outputs, n, done, mid, after, r);
    assert Shard(after, outputs[r], n)[b] == Shard(after, outputs[r], done)[b];
    hide Dot, Covered, Shard, Shards, Column, Shift;
    PrefixColumn(before, inputs, n, done, b);
    MultipliedAt(m, inputs, outputs, done, before, mid, r, b);
  }

  lemma RightPart(m: Mat, inputs: seq<nat>, outputs: seq<nat>, n: nat, done: nat, before: seq<Byte>, mid: seq<Byte>,
                  after: seq<Byte>, r: nat, b: nat)
    requires IsMat(m, |outputs|, |inputs|) && done <= b < n && Shape(|before|, inputs, outputs, n)
    requires OnlyShardsChanged(before, mid, outputs, done)
    requires IsMultiplied(m, Shift(inputs, done), Shift(outputs, done), n - done, mid, after) && r < |outputs|
    ensures Shard(after, outputs[r], n)[b] == Dot(m[r], Column(Shards(before, inputs, n), b), |inputs|)
  {
    hide *;
    ShapeBounds(|before|, inputs, outputs, n);
    ChangedLength(before, mid, outputs, done);
    MultipliedLength(m, Shift(inputs, done), Shift(outputs, done), n - done, mid, after);
    InBoundsAt(outputs, n, |after|, r);
    SecondPartInputs(inputs, outputs, n, done, before, mid);
    SuffixColumn(before, inputs, n, done, b);
    MultipliedAt(m, Shift(inputs, done), Shift(outputs, done), n - done, mid, after, r, b - done);
    ShardSuffix(after, outputs[r], n, done);
  }

  lemma ShapeBounds(size: nat, inputs: seq<nat>, outputs: seq<nat>, n: nat)
    requires Shape(size, inputs, outputs, n)
    ensures InBounds(inputs, n, size) && InBounds(outputs, n, size)
  {
    hide InBounds, AllApart, ApartFrom;
  }

  lemma ChangedLength(before: seq<Byte>, after: seq<Byte>, ptrs: seq<nat>, n: nat)
    requires OnlyShardsChanged(before, after, ptrs, n)
    ensures |after| == |before|
  {
    hide Covered;
  }

  lemma MultipliedLength(m: Mat, inputs: seq<nat>, outputs: seq<nat>, n: nat, before: seq<Byte>, after: seq<Byte>)
    requires IsMat(m, |outputs|, |inputs|) && IsMultiplied(m, inputs, outputs, n, before, after)
    ensures |after| == |before|
  {
    hide Covered, Shards, Product;
  }

  lemma InBoundsAt(ptrs: seq<nat>, n: nat, size: nat, r: nat)
    requires InBounds(ptrs, n, size) && r < |ptrs|
    ensures ptrs[r] + n <= size
  {
  }

  lemma ShardSuffix(s: seq<Byte>, p: nat, n: nat, done: nat)
    requires done <= n && p + n <= |s|
    ensures Shard(s, p + done, n - done) == Shard(s, p, n)[done..]
  {
  }

  lemma PassesCombine(m: Mat, inputs: seq<nat>, outputs: seq<nat>, n: nat, done: nat, before: seq<Byte>,
                      mid: seq<Byte>, after: seq<Byte>)
    requires IsMat(m, |outputs|, |inputs|) && done <= n && Shape(|before|, inputs, outputs, n)
    requires IsMultiplied(m, inputs, outputs, done, before, mid)
    requires IsMultiplied(m, Shift(inputs, done), Shift(outputs, done), n - done, mid, after)
    ensures IsMultiplied(m, inputs, outputs, n, before, after)
  {
    hide Dot, Covered, Shard, Column;
    SplitChanges(outputs, n, done, before, mid, after);
    var left, right := Shards(after, outputs, n), Product(m, Shards(before, inputs, n), n);
    forall r, b | 0 <= r < |outputs| && 0 <= b < n
      ensures left[r][b] == right[r][b]
    {
      if b < done {
        LeftPart(m, inputs, outputs, n, done, before, mid, after, r, b);
      } else {
        RightPart(m, inputs, outputs, n, done, before, mid, after, r, b);
      }
    }
    MatExtensional(left, right, |outputs|, n);
  }

  method MatrixMulAvx2(mem: array<Byte>, mat: array2<Byte>, inputs: seq<nat>, outputs: seq<nat>, n: nat)
    requires mat.Length0 == |outputs| && mat.Length1 == |inputs| && mem as object != mat
    requires Shape(mem.Length, inputs, outputs, n)
    modifies mem
    ensures inputs == [] ==> mem[..] == old(mem[..])
    ensures inputs != [] ==> IsMultiplied(Rows(mat), inputs, outputs, n, old(mem[..]), mem[..])
  {
    hide Rows, RowOf, Shards, IsMultiplied, OnlyShardsChanged;
    var completed := n - n % WIDTH;
    var remainder := n % WIDTH;
    ghost var before := mem[..];
    MatrixMulBlocks(mem, mat, inputs, outputs, completed);
    ghost var mid := mem[..];
    if remainder != 0 {
      MatrixMulAdv(mem, mat, Shift(inputs, completed), Shift(outputs, completed), remainder);
      if inputs != [] {
        PassesCombine(Rows(mat), inputs, outputs, n, completed, before, mid, mem[..]);
      }
    }
  }
}
