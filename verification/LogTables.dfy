/**
 The table generator: the shift-and-reduce loop and the loops that fill the
 exponent and logarithm tables from the generator 3.
 */
module LogTables {
  import opened Gf256
  import opened Generator

  // ----- what the tables hold

  /** The exponent of a nonzero byte, searched from i on. */
  function LogFrom(b: Byte, i: nat): (n: nat)
    ensures n >= i
    decreases 255 - i
  {
    if i >= 255 || Pow(3, i) == b then i else LogFrom(b, i + 1)
  }

  function ExpTable(): (t: seq<Byte>)
    ensures |t| == 256
  {
    seq(256, i requires 0 <= i => if i < 255 then Pow(3, i) else 0)
  }

  function LogTable(): (t: seq<nat>)
    ensures |t| == 256
  {
    seq(256, b requires 0 <= b < 256 => if b == 0 then 0 else LogFrom(b as Byte, 0))
  }

  lemma {:induction false} LogFromFinds(i: nat, start: nat)
    requires start <= i < 255
    ensures LogFrom(Pow(3, i), start) == i
    decreases i - start
  {
    hide Pow;
    if start < i {
      PowInjective(start, i);
      LogFromFinds(i, start + 1);
    }
  }

  lemma ExpAt(i: nat)
    requires i < 255
    ensures ExpTable()[i] == Pow(3, i)
  {
    hide Pow;
  }

  lemma LogAt(b: Byte)
    ensures LogTable()[b as int] == if b == 0 then 0 else LogFrom(b, 0)
  {
    hide LogFrom;
    AsIntInjective(b, 0);
    assert (b as int) as Byte == b;
  }

  /** The two tables are inverse to each other between the exponents 0..254 and the nonzero bytes. */
  lemma TablesInverse(b: Byte, i: nat)
    requires i < 255
    ensures LogTable()[ExpTable()[i] as int] == i
    ensures b != 0 ==> LogTable()[b as int] < 255 && ExpTable()[LogTable()[b as int]] == b
  {
    hide *;
    ExpAt(i);
    PowNonzero(i);
    LogAt(Pow(3, i));
    LogFromFinds(i, 0);
    if b != 0 {
      PowersCoverBytes(b);
      var e: nat :| e < 255 && Pow(3, e) == b;
      ExpAt(e);
      LogAt(b);
      LogFromFinds(e, 0);
    }
  }

  // ----- the generator program

  method ShiftReduceMul(a: Byte, b: Byte) returns (r: Byte)
    ensures r == Mul(a, b)
  {
    hide Mul;
    var aa, bb := a, b;
    r := 0;
    AddLaws(Mul(a, b), 0, 0);
    while aa != 0
      invariant Add(r, Mul(aa, bb)) == Mul(a, b)
      decreases aa
    {
      hide Add, Xtime, Half, Odd;
      MulStep(aa, bb);
      AddLaws(r, if Odd(aa) then bb else 0, Mul(Half(aa), Xtime(bb)));
      AddLaws(r, 0, 0);
      OneStep(aa, bb, r);
      if aa & 1 != 0 {
        r := r ^ bb;
      }
      var t := bb & 0x80;
      bb := bb << 1;
      if t != 0 {
        bb := bb ^ 0x1B;
      }
      aa := (aa & 0xFF) >> 1;
    }
    MulZero(bb);
    AddLaws(r, 0, 0);
  }

  lemma OneStep(aa: Byte, bb: Byte, r: Byte)
    ensures Odd(aa) <==> aa & 1 != 0
    ensures r ^ bb == Add(r, bb)
    ensures Xtime(bb) == if bb & 0x80 != 0 then (bb << 1) ^ 0x1B else bb << 1
    ensures Half(aa) == (aa & 0xFF) >> 1
    ensures aa != 0 ==> Half(aa) < aa
  {
  }

  method FillExp(expTable: array<Byte>)
    requires expTable.Length == 256
    modifies expTable
    ensures forall i :: 0 <= i < 255 ==> expTable[i] == Pow(3, i)
    ensures expTable[255] == old(expTable[255])
  {
    hide Mul;
    var x: Byte := 1;
    for i := 0 to 255
      invariant x == Pow(3, i)
      invariant forall j :: 0 <= j < i ==> expTable[j] == Pow(3, j)
      invariant expTable[255] == old(expTable[255])
    {
      expTable[i] := x;
      MulComm(x, 3);
      x := ShiftReduceMul(x, 3);
    }
  }

  method FillLog(expTable: array<Byte>, logTable: array<nat>)
    requires expTable.Length == 256 && logTable.Length == 256 && expTable as object != logTable
    requires forall i :: 0 <= i < 255 ==> expTable[i] == Pow(3, i)
    modifies logTable
    ensures forall i :: 0 <= i < 255 ==> logTable[expTable[i] as int] == i
    ensures logTable[0] == old(logTable[0])
  {
    hide Pow;
    for i := 0 to 255
      invariant forall j :: 0 <= j < i ==> logTable[expTable[j] as int] == j
      invariant logTable[0] == old(logTable[0])
    {
      forall j | 0 <= j < i
        ensures expTable[j] as int != expTable[i] as int
      {
        PowInjective(j, i);
        AsIntInjective(expTable[j], expTable[i]);
      }
      PowNonzero(i);
      AsIntInjective(expTable[i], 0);
      logTable[expTable[i] as int] := i;
    }
  }

  method GenerateTables() returns (expTable: array<Byte>, logTable: array<nat>)
    ensures expTable[..] == ExpTable()
    ensures logTable[..] == LogTable()
    ensures forall i :: 0 <= i < 255 ==> expTable[i] == Pow(3, i) && logTable[expTable[i] as int] == i
    ensures expTable[255] == 0 && logTable[0] == 0
  {
    expTable := new Byte[256](_ => 0);
    logTable := new nat[256](_ => 0);
    FillExp(expTable);
    FillLog(expTable, logTable);
    TablesFilled(expTable[..], logTable[..]);
  }

  lemma TablesFilled(e: seq<Byte>, l: seq<nat>)
    requires |e| == 256 && |l| == 256 && e[255] == 0 && l[0] == 0
    requires forall i :: 0 <= i < 255 ==> e[i] == Pow(3, i)
    requires forall i :: 0 <= i < 255 ==> l[e[i] as int] == i
    ensures e == ExpTable() && l == LogTable()
  {
    hide *;
    assert e == ExpTable() by {
      forall i | 0 <= i < 256
        ensures e[i] == ExpTable()[i]
      {
        ExpAt(if i < 255 then i else 0);
        ExpEnd();
      }
    }
    forall b | 0 <= b < 256
      ensures l[b] == LogTable()[b]
    {
      var x := ByteOfInt(b);
      LogFilled(l, x);
    }
  }

  lemma ExpEnd()
    ensures ExpTable()[255] == 0
  {
  }

  lemma LogFilled(l: seq<nat>, b: Byte)
    requires |l| == 256 && l[0] == 0
    requires forall i :: 0 <= i < 255 ==> l[Pow(3, i) as int] == i
    ensures l[b as int] == LogTable()[b as int]
  {
    hide *;
    LogAt(b);
    if b != 0 {
      TablesInverse(b, 0);
      var i := LogTable()[b as int];
      ExpAt(i);
      assert l[Pow(3, i) as int] == i;
    }
  }
}
