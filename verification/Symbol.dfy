/** The byte arithmetic of the library: every product goes through the two tables. */
module Symbol {
  import opened Gf256
  import opened Generator
  import opened LogTables

  function Plus(a: Byte, b: Byte): Byte {
    Add(a, b)
  }

  function Minus(a: Byte, b: Byte): Byte {
    Add(a, b)
  }

  function Log(a: Byte): nat {
    LogTable()[a as int]
  }

  function Antilog(e: int): Byte
    requires 0 <= e < 256
  {
    ExpTable()[e]
  }

  function Times(a: Byte, b: Byte): (r: Byte)
    ensures r == Mul(a, b)
  {
    TimesIsMul(a, b);
    if a == 0 || b == 0 then 0 else Antilog((Log(a) + Log(b)) % 255)
  }

  /** The exponent of a quotient, brought back into the table's range. */
  function QuotientExponent(a: Byte, b: Byte): int {
    var result: int := Log(a) - Log(b);
    result + (if result < 0 then 255 else 0)
  }

  /** Division, with the divisor nonzero unless the dividend is zero. */
  function Div(a: Byte, b: Byte): (r: Byte)
    requires a == 0 || b != 0
    ensures b != 0 ==> Mul(r, b) == a
    ensures a == 0 ==> r == 0
  {
    DivUndoesMul(a, b);
    if a == 0 then 0 else Antilog(QuotientExponent(a, b))
  }

  function Exp(a: Byte, n: nat): (r: Byte)
    requires n < 256
    ensures r == Pow(a, n)
  {
    ExpIsPow(a, n);
    if n == 0 then 1
    else if a == 0 then 0
    else Antilog(Log(a) * n % 255)
  }

  // ----- nonzero bytes as powers of the generator

  lemma AntilogIsPow(e: nat)
    requires e < 255
    ensures Antilog(e) == Pow(3, e)
  {
    hide ExpTable, Pow;
    ExpAt(e);
  }

  lemma LogOf(a: Byte)
    requires a != 0
    ensures Log(a) < 255 && Pow(3, Log(a)) == a
  {
    hide ExpTable, Pow, LogTable;
    TablesInverse(a, 0);
    ExpAt(Log(a));
  }

  lemma TimesIsMul(a: Byte, b: Byte)
    ensures a == 0 || b == 0 ==> Mul(a, b) == 0
    ensures a != 0 && b != 0 ==> Antilog((Log(a) + Log(b)) % 255) == Mul(a, b)
  {
    hide *;
    MulUnits(a);
    MulUnits(b);
    if a != 0 && b != 0 {
      LogOf(a);
      LogOf(b);
      PowAdd(3, Log(a), Log(b));
      PowMod255(Log(a) + Log(b));
      AntilogIsPow((Log(a) + Log(b)) % 255);
    }
  }

  lemma DivUndoesMul(a: Byte, b: Byte)
    ensures Mul(0, b) == 0
    ensures a != 0 && b != 0 ==> 0 <= QuotientExponent(a, b) < 255 && Mul(Antilog(QuotientExponent(a, b)), b) == a
  {
    hide Mul, Log, Antilog, Pow;
    MulUnits(b);
    if a != 0 && b != 0 {
      LogOf(a);
      LogOf(b);
      var e := QuotientExponent(a, b);
      AntilogIsPow(e);
      PowAdd(3, e, Log(b));
      PowMod255(e + Log(b));
      PowMod255(Log(a));
    }
  }

  lemma {:induction false} PowZero(n: nat)
    requires n > 0
    ensures Pow(0, n) == 0
  {
    MulZero(Pow(0, n - 1));
  }

  lemma ExpIsPow(a: Byte, n: nat)
    ensures Pow(a, 0) == 1
    ensures n > 0 ==> Pow(0, n) == 0
    ensures a != 0 ==> Antilog(Log(a) * n % 255) == Pow(a, n)
  {
    hide Mul, Log, Antilog;
    if n > 0 {
      PowZero(n);
    }
    if a != 0 {
      LogOf(a);
      PowPow(3, Log(a), n);
      PowMod255(Log(a) * n);
      AntilogIsPow(Log(a) * n % 255);
    }
  }

  // ----- consequences for the field

  lemma DivIsUnique(a: Byte, b: Byte, q: Byte)
    requires b != 0 && Mul(q, b) == a
    ensures q == Div(a, b)
  {
    hide *;
    CancelFactor(q, Div(a, b), b);
  }

  /** Multiplying by a nonzero byte loses nothing. */
  lemma CancelFactor(a: Byte, b: Byte, c: Byte)
    requires c != 0 && Mul(a, c) == Mul(b, c)
    ensures a == b
  {
    hide *;
    var i := Div(1, c);
    MulAssoc(a, c, i);
    MulAssoc(b, c, i);
    MulComm(c, i);
    MulUnits(a);
    MulUnits(b);
  }

  lemma NoZeroDivisors(a: Byte, b: Byte)
    requires Mul(a, b) == 0
    ensures a == 0 || b == 0
  {
    hide *;
    MulUnits(b);
    if b != 0 {
      CancelFactor(a, 0, b);
    }
  }
}
