/** The powers of 3 run through every nonzero byte exactly once per period of 255. */
module Generator {
  import opened Gf256
  import opened Pigeonhole

  lemma PowSum(m: nat, x: Byte, n: nat, y: Byte)
    requires Pow(3, m) == x && Pow(3, n) == y
    ensures Pow(3, m + n) == Mul(x, y)
  {
    hide *;
    PowAdd(3, m, n);
  }

  lemma Products()
    ensures Mul(3, 3) == 5 && Mul(3, 5) == 15 && Mul(5, 15) == 51 && Mul(51, 51) == 114
  {
  }

  lemma MoreProducts()
    ensures Mul(51, 114) == 53 && Mul(5, 53) == 225 && Mul(225, 225) == 92 && Mul(225, 92) == 12
  {
  }

  lemma LastProducts()
    ensures Mul(92, 12) == 189 && Mul(189, 189) == 188 && Mul(189, 188) == 1
  {
  }

  /** Fifteen, fifty-one and eighty-five are the maximal proper divisors of 255. */
  lemma KnownPowers()
    ensures Pow(3, 255) == 1
    ensures Pow(3, 15) == 53 && Pow(3, 51) == 12 && Pow(3, 85) == 189
  {
    assert Pow(3, 1) == 3 by {
      MulUnits(3);
      hide Mul;
      assert Pow(3, 0) == 1;
    }
    hide *;
    Products();
    MoreProducts();
    LastProducts();
    PowSum(1, 3, 1, 3);
    PowSum(1, 3, 2, 5);
    PowSum(2, 5, 3, 15);
    PowSum(5, 51, 5, 51);
    PowSum(5, 51, 10, 114);
    PowSum(2, 5, 15, 53);
    PowSum(17, 225, 17, 225);
    PowSum(17, 225, 34, 92);
    PowSum(34, 92, 51, 12);
    PowSum(85, 189, 85, 189);
    PowSum(85, 189, 170, 188);
  }

  lemma PowMultiple(d: nat, q: nat)
    requires Pow(3, d) == 1
    ensures Pow(3, d * q) == 1
  {
    hide *;
    PowPow(3, d, q);
    PowOne(q);
  }

  lemma ProperDivisorOf255(d: nat)
    requires 0 < d < 255 && 255 % d == 0
    ensures 15 % d == 0 || 51 % d == 0 || 85 % d == 0
  {
    var q := 255 / d;
    assert d * q == 255;
    if d > 15 {
      assert q < 17;
    }
  }

  /** The order of the generator is exactly 255. */
  lemma {:induction false} NoShortPeriod(d: nat)
    requires 0 < d < 255
    ensures Pow(3, d) != 1
  {
    hide *;
    KnownPowers();
    if Pow(3, d) == 1 {
      PowMultiple(d, 255 / d);
      var r := 255 % d;
      assert 255 == d * (255 / d) + r;
      PowAdd(3, d * (255 / d), r);
      MulUnits(Pow(3, r));
      if r != 0 {
        NoShortPeriod(r);
      } else {
        ProperDivisorOf255(d);
        PowMultiple(d, 15 / d);
        PowMultiple(d, 51 / d);
        PowMultiple(d, 85 / d);
      }
    }
  }

  lemma {:induction false} PowNonzero(n: nat)
    requires n <= 255
    ensures Pow(3, n) != 0
  {
    hide *;
    KnownPowers();
    PowAdd(3, n, 255 - n);
    MulUnits(Pow(3, 255 - n));
  }

  lemma {:induction false} PowInjective(i: nat, j: nat)
    requires i < j < 255
    ensures Pow(3, i) != Pow(3, j)
  {
    hide *;
    KnownPowers();
    NoShortPeriod(j - i);
    PowAdd(3, i, 255 - i);
    PowAdd(3, j, 255 - i);
    PowAdd(3, j - i, 255);
    MulUnits(Pow(3, j - i));
  }

  lemma PowMod255(n: nat)
    ensures Pow(3, n) == Pow(3, n % 255)
  {
    hide *;
    KnownPowers();
    PowMultiple(255, n / 255);
    PowAdd(3, 255 * (n / 255), n % 255);
    MulUnits(Pow(3, n % 255));
  }

  ghost function Powers(n: nat): (s: seq<int>)
    ensures |s| == n && forall i :: 0 <= i < n ==> s[i] == Pow(3, i) as int - 1
  {
    seq(n, i requires 0 <= i => Pow(3, i) as int - 1)
  }

  /** By counting: 255 different nonzero powers leave no nonzero byte out. */
  lemma {:induction false} PowersCoverBytes(b: Byte)
    requires b != 0
    ensures exists i: nat :: i < 255 && Pow(3, i) == b
  {
    var s := Powers(255);
    hide Pow, Powers;
    forall i, j | 0 <= i < j < 255
      ensures s[i] != s[j]
    {
      PowInjective(i, j);
      AsIntInjective(Pow(3, i), Pow(3, j));
    }
    forall i | 0 <= i < 255
      ensures 0 <= s[i] < 255
    {
      PowNonzero(i);
      AsIntInjective(Pow(3, i), 0);
    }
    DistinctBelow(s, 255);
    AsIntInjective(b, 0);
    assert (b as int - 1) in s;
    var i :| 0 <= i < |s| && s[i] == b as int - 1;
    AsIntInjective(Pow(3, i), b);
  }
}
