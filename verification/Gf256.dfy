/**
 The byte field: GF(2^8) with the reduction polynomial x^8 + x^4 + x^3 + x + 1
 (section 4.2 of FIPS 197).  A byte is a polynomial over GF(2), addition is XOR,
 and multiplication is shift-and-reduce.
 */
module Gf256 {

  type Byte = bv8

  type Bytes = seq<Byte>

  function Add(a: Byte, b: Byte): Byte {
    a ^ b
  }

  predicate Odd(a: Byte) {
    a & 1 == 1
  }

  function Half(a: Byte): (h: Byte)
    ensures a != 0 ==> h < a
  {
    a >> 1
  }

  /** Multiplication by x. */
  function Xtime(b: Byte): Byte {
    (b << 1) ^ (if b & 0x80 != 0 then 0x1B else 0)
  }

  /** Shift-and-reduce multiplication. */
  function Mul(a: Byte, b: Byte): Byte
    decreases a
  {
    if a == 0 then 0 else Add(if Odd(a) then b else 0, Mul(Half(a), Xtime(b)))
  }

  function Pow(a: Byte, n: nat): Byte {
    if n == 0 then 1 else Mul(a, Pow(a, n - 1))
  }

  // ----- bytes as numbers

  lemma AsIntInjective(a: Byte, b: Byte)
    ensures a as int == b as int ==> a == b
  {
    assert (a as int) as Byte == a;
    assert (b as int) as Byte == b;
  }

  lemma NextByte(x: Byte)
    requires x != 255
    ensures (x + 1) as int == x as int + 1
  {
  }

  lemma {:induction false} ByteOfInt(n: nat) returns (x: Byte)
    requires n < 256
    ensures x as int == n
  {
    if n == 0 {
      x := 0;
    } else {
      x := ByteOfInt(n - 1);
      NextByte(x);
      x := x + 1;
    }
  }

  lemma IntAsByte(n: nat)
    requires n < 256
    ensures (n as Byte) as int == n
  {
    var x := ByteOfInt(n);
    assert (x as int) as Byte == x;
  }

  // ----- addition

  lemma AddLaws(a: Byte, b: Byte, c: Byte)
    ensures Add(a, b) == Add(b, a)
    ensures Add(Add(a, b), c) == Add(a, Add(b, c))
    ensures Add(a, 0) == a == Add(0, a)
    ensures Add(a, a) == 0
  {
  }

  lemma AddSwap(a: Byte, b: Byte, c: Byte, d: Byte)
    ensures Add(Add(a, b), Add(c, d)) == Add(Add(a, c), Add(b, d))
  {
    hide *;
    AddLaws(a, b, Add(c, d));
    AddLaws(b, c, d);
    AddLaws(c, b, d);
    AddLaws(a, c, Add(b, d));
  }

  /** Every byte is its own negative. */
  lemma AddCancel(a: Byte, b: Byte)
    ensures Add(Add(a, b), b) == a
    ensures Add(a, b) == 0 <==> a == b
  {
    hide *;
    AddLaws(a, b, b);
    AddLaws(b, b, 0);
    AddLaws(0, b, b);
    AddLaws(a, a, 0);
  }

  // ----- halving and doubling are linear

  predicate IsXtime(b: Byte, x: Byte) {
    x == (b << 1) ^ (if b & 0x80 != 0 then 0x1B else 0)
  }

  lemma XtimeIs(b: Byte)
    ensures IsXtime(b, Xtime(b))
  {
  }

  lemma IsXtimeAdd(a: Byte, b: Byte, xa: Byte, xb: Byte, xab: Byte)
    requires IsXtime(a, xa) && IsXtime(b, xb) && IsXtime(a ^ b, xab)
    ensures xab == xa ^ xb
  {
  }

  lemma AddIs(a: Byte, b: Byte)
    ensures Add(a, b) == a ^ b
  {
  }

  lemma XtimeAdd(a: Byte, b: Byte)
    ensures Xtime(Add(a, b)) == Add(Xtime(a), Xtime(b))
  {
    hide *;
    AddIs(a, b);
    AddIs(Xtime(a), Xtime(b));
    XtimeIs(a);
    XtimeIs(b);
    XtimeIs(a ^ b);
    IsXtimeAdd(a, b, Xtime(a), Xtime(b), Xtime(a ^ b));
  }

  lemma XtimeZero()
    ensures Xtime(0) == 0
  {
  }

  lemma HalfAdd(a: Byte, b: Byte)
    ensures Half(Add(a, b)) == Add(Half(a), Half(b))
    ensures Odd(Add(a, b)) <==> Odd(a) != Odd(b)
  {
  }

  lemma HalfOr(a: Byte, b: Byte)
    ensures a | b != 0 ==> Half(a) | Half(b) < a | b
    ensures a | b == 0 ==> a == 0 && b == 0
  {
  }

  lemma HalfXtime(a: Byte)
    ensures a == Add(if Odd(a) then 1 else 0, Xtime(Half(a)))
  {
  }

  // ----- multiplication

  lemma {:induction false} MulStep(a: Byte, b: Byte)
    ensures Mul(a, b) == Add(if Odd(a) then b else 0, Mul(Half(a), Xtime(b)))
  {
  }

  lemma MulZero(b: Byte)
    ensures Mul(0, b) == 0
  {
  }

  lemma {:induction false} MulAddRight(a: Byte, b: Byte, c: Byte)
    ensures Mul(a, Add(b, c)) == Add(Mul(a, b), Mul(a, c))
    decreases a
  {
    hide *;
    AddLaws(0, 0, 0);
    if a == 0 {
      MulZero(b);
      MulZero(c);
      MulZero(Add(b, c));
    } else {
      MulStep(a, b);
      MulStep(a, c);
      MulStep(a, Add(b, c));
      XtimeAdd(b, c);
      MulAddRight(Half(a), Xtime(b), Xtime(c));
      AddSwap(if Odd(a) then b else 0, Mul(Half(a), Xtime(b)), if Odd(a) then c else 0, Mul(Half(a), Xtime(c)));
    }
  }

  lemma {:induction false} MulAddLeft(a: Byte, b: Byte, c: Byte)
    ensures Mul(Add(a, b), c) == Add(Mul(a, c), Mul(b, c))
    decreases a | b
  {
    hide *;
    AddLaws(0, 0, 0);
    HalfOr(a, b);
    if a | b == 0 {
      MulZero(c);
    } else {
      HalfAdd(a, b);
      MulStep(a, c);
      MulStep(b, c);
      MulStep(Add(a, b), c);
      MulAddLeft(Half(a), Half(b), Xtime(c));
      AddLaws(c, c, 0);
      AddSwap(if Odd(a) then c else 0, Mul(Half(a), Xtime(c)), if Odd(b) then c else 0, Mul(Half(b), Xtime(c)));
    }
  }

  lemma {:induction false} MulXtime(a: Byte, b: Byte)
    ensures Mul(a, Xtime(b)) == Xtime(Mul(a, b))
    decreases a
  {
    hide *;
    XtimeZero();
    if a == 0 {
      MulZero(b);
      MulZero(Xtime(b));
    } else {
      MulXtime(Half(a), Xtime(b));
      MulStep(a, b);
      MulStep(a, Xtime(b));
      XtimeAdd(if Odd(a) then b else 0, Mul(Half(a), Xtime(b)));
    }
  }

  lemma {:induction false} MulUnits(a: Byte)
    ensures Mul(a, 0) == 0 == Mul(0, a)
    ensures Mul(a, 1) == a == Mul(1, a)
    decreases a
  {
    hide *;
    MulZero(a);
    MulZero(0);
    MulZero(1);
    MulZero(Xtime(a));
    HalfOne();
    MulStep(1, a);
    AddLaws(a, 0, 0);
    AddLaws(0, 0, 0);
    XtimeZero();
    if a != 0 {
      MulUnits(Half(a));
      MulStep(a, 0);
      MulStep(a, 1);
      MulXtime(Half(a), 1);
      HalfXtime(a);
    }
  }

  /**
   Doubling a byte shifts it left and reduces by the polynomial; with distributivity and the unit this fixes
   every product.
   */
  lemma TimesX(a: Byte)
    ensures Mul(2, a) == (a << 1) ^ (if a & 0x80 != 0 then 0x1B else 0)
  {
    hide Xtime;
    MulUnits(Xtime(a));
    XtimeIs(a);
  }

  lemma HalfOne()
    ensures Half(1) == 0 && Odd(1)
  {
  }

  lemma {:induction false} MulComm(a: Byte, b: Byte)
    ensures Mul(a, b) == Mul(b, a)
    decreases a
  {
    hide *;
    MulUnits(b);
    if a != 0 {
      var low: Byte := if Odd(a) then 1 else 0;
      MulStep(a, b);
      MulXtime(Half(a), b);
      MulComm(Half(a), b);
      MulXtime(b, Half(a));
      MulAddRight(b, low, Xtime(Half(a)));
      HalfXtime(a);
    }
  }

  lemma {:induction false} MulAssoc(a: Byte, b: Byte, c: Byte)
    ensures Mul(Mul(a, b), c) == Mul(a, Mul(b, c))
    decreases a
  {
    hide *;
    MulZero(b);
    MulZero(c);
    MulZero(Mul(b, c));
    if a != 0 {
      var half := Mul(Half(a), b);
      MulStep(a, b);
      MulXtime(Half(a), b);
      MulAddLeft(if Odd(a) then b else 0, Xtime(half), c);
      MulComm(Xtime(half), c);
      MulXtime(c, half);
      MulComm(c, half);
      MulAssoc(Half(a), b, c);
      MulStep(a, Mul(b, c));
      MulXtime(Half(a), Mul(b, c));
    }
  }

  // ----- powers

  lemma {:induction false} PowAdd(a: Byte, m: nat, n: nat)
    ensures Pow(a, m + n) == Mul(Pow(a, m), Pow(a, n))
  {
    hide Mul;
    MulUnits(Pow(a, n));
    if m != 0 {
      PowAdd(a, m - 1, n);
      MulAssoc(a, Pow(a, m - 1), Pow(a, n));
    }
  }

  lemma {:induction false} PowOne(n: nat)
    ensures Pow(1, n) == 1
  {
    hide Mul;
    if n != 0 {
      PowOne(n - 1);
      MulUnits(1);
    }
  }

  lemma {:induction false} PowPow(a: Byte, m: nat, n: nat)
    ensures Pow(Pow(a, m), n) == Pow(a, m * n)
  {
    hide Mul;
    if n != 0 {
      PowPow(a, m, n - 1);
      PowAdd(a, m, m * (n - 1));
      assert m * n == m + m * (n - 1);
    }
  }
}
