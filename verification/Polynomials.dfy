/** Polynomials over the byte field: a polynomial with more roots than its degree allows is zero. */
module Polynomials {
  import opened Gf256
  import opened LinearAlgebra
  import opened Pigeonhole
  import Symbol

  /** The value at x of the polynomial whose c-th coefficient is p[c]. */
  ghost function Eval(p: Vec, x: Byte): Byte {
    if p == [] then 0 else Add(p[0], Mul(x, Eval(p[1..], x)))
  }

  /** The quotient of p by (X - r). */
  ghost function Quotient(p: Vec, r: Byte): (q: Vec)
    ensures |q| == if p == [] then 0 else |p| - 1
  {
    if |p| <= 1 then [] else [Eval(p[1..], r)] + Quotient(p[1..], r)
  }

  /** p(x) - p(r) == (x - r) q(x) */
  lemma {:induction false} Division(p: Vec, r: Byte, x: Byte)
    ensures Add(Eval(p, x), Eval(p, r)) == Mul(Add(x, r), Eval(Quotient(p, r), x))
  {
    hide Add, Mul;
    AddLaws(0, 0, 0);
    MulUnits(Add(x, r));
    if p == [] {
    } else if |p| == 1 {
      MulUnits(x);
      MulUnits(r);
      assert p[1..] == [];
      AddCancel(p[0], p[0]);
      AddLaws(p[0], 0, 0);
    } else {
      var t, q := p[1..], Quotient(p[1..], r);
      Division(t, r, x);
      assert Quotient(p, r)[1..] == q;
      var tx, tr, qx := Eval(t, x), Eval(t, r), Eval(q, x);
      DivisionStep(p[0], x, r, tx, tr, qx);
    }
  }

  lemma DivisionStep(c: Byte, x: Byte, r: Byte, tx: Byte, tr: Byte, qx: Byte)
    requires Add(tx, tr) == Mul(Add(x, r), qx)
    ensures Add(Add(c, Mul(x, tx)), Add(c, Mul(r, tr))) == Mul(Add(x, r), Add(tr, Mul(x, qx)))
  {
    hide *;
    var s := Add(x, r);
    calc {
      Add(Add(c, Mul(x, tx)), Add(c, Mul(r, tr)));
      { AddSwap(c, Mul(x, tx), c, Mul(r, tr)); AddLaws(c, c, 0); AddLaws(Add(Mul(x, tx), Mul(r, tr)), 0, 0); }
      Add(Mul(x, tx), Mul(r, tr));
      { AddCancel(Add(Mul(x, tx), Mul(r, tr)), Mul(x, tr));
        AddLaws(Mul(x, tx), Mul(r, tr), Mul(x, tr));
        AddSwap(Mul(x, tx), Mul(r, tr), Mul(x, tr), 0);
        AddLaws(Mul(x, tr), 0, 0);
        AddLaws(Mul(r, tr), 0, 0);
        AddLaws(Add(Mul(x, tx), Mul(x, tr)), Mul(r, tr), Mul(x, tr));
        AddLaws(Mul(r, tr), Mul(x, tr), 0); }
      Add(Add(Mul(x, tx), Mul(x, tr)), Add(Mul(x, tr), Mul(r, tr)));
      { MulAddRight(x, tx, tr); MulAddLeft(x, r, tr); }
      Add(Mul(x, Mul(s, qx)), Mul(s, tr));
      { MulAssoc(x, s, qx); MulComm(x, s); MulAssoc(s, x, qx); }
      Add(Mul(s, Mul(x, qx)), Mul(s, tr));
      { MulAddRight(s, Mul(x, qx), tr); AddLaws(Mul(x, qx), tr, 0); }
      Mul(s, Add(tr, Mul(x, qx)));
    }
  }

  lemma {:induction false} ZeroQuotient(p: Vec, r: Byte)
    requires Eval(p, r) == 0
    requires p != [] ==> Quotient(p, r) == Zero(|p| - 1)
    ensures p == Zero(|p|)
  {
    hide Add, Mul;
    if p != [] {
      var t := p[1..];
      if |p| > 1 {
        assert Eval(t, r) == Quotient(p, r)[0];
        assert Quotient(t, r) == Quotient(p, r)[1..];
      }
      ZeroQuotient(t, r);
      MulUnits(r);
      AddLaws(p[0], 0, 0);
      assert p == [p[0]] + t;
    }
  }

  ghost predicate AreRoots(p: Vec, xs: seq<Byte>) {
    forall i :: 0 <= i < |xs| ==> Eval(p, xs[i]) == 0
  }

  /** A polynomial with as many different roots as coefficients is zero. */
  lemma {:induction false} RootsBound(p: Vec, xs: seq<Byte>)
    requires |xs| == |p| && Distinct(xs) && AreRoots(p, xs)
    ensures p == Zero(|p|)
    decreases |p|
  {
    hide Add, Mul, Eval, Quotient;
    if p != [] {
      var n := |p| - 1;
      var r, q := xs[n], Quotient(p, xs[n]);
      forall i | 0 <= i < n
        ensures Eval(q, xs[i]) == 0
      {
        Division(p, r, xs[i]);
        AddLaws(0, 0, 0);
        Symbol.NoZeroDivisors(Add(xs[i], r), Eval(q, xs[i]));
        AddCancel(xs[i], r);
      }
      RootsBound(q, xs[..n]);
      ZeroQuotient(p, r);
    }
  }

  // ----- Vandermonde rows

  ghost predicate IsPowerRow(v: Vec, x: Byte) {
    forall c :: 0 <= c < |v| ==> v[c] == Pow(x, c)
  }

  lemma {:induction false} EvalSnoc(p: Vec, c: Byte, x: Byte)
    ensures Eval(p + [c], x) == Add(Eval(p, x), Mul(Pow(x, |p|), c))
  {
    hide Add, Mul;
    var q := p + [c];
    if p == [] {
      MulUnits(x);
      MulUnits(c);
      assert q[1..] == [];
      AddLaws(c, 0, 0);
    } else {
      assert q[1..] == p[1..] + [c];
      EvalSnoc(p[1..], c, x);
      var a, b := Eval(p[1..], x), Mul(Pow(x, |p| - 1), c);
      MulAddRight(x, a, b);
      MulAssoc(x, Pow(x, |p| - 1), c);
      AddLaws(p[0], Mul(x, a), Mul(x, b));
    }
  }

  /** A row of powers of x takes a coefficient vector to the polynomial's value at x. */
  lemma {:induction false} PowerRowEvaluates(v: Vec, p: Vec, x: Byte, n: nat)
    requires n <= |v| && n <= |p| && IsPowerRow(v, x)
    ensures Dot(v, p, n) == Eval(p[..n], x)
  {
    hide Add, Mul, Pow;
    if n > 0 {
      PowerRowEvaluates(v, p, x, n - 1);
      EvalSnoc(p[..n - 1], p[n - 1], x);
      assert p[..n] == p[..n - 1] + [p[n - 1]];
    }
  }

  /** Rows of powers of k different bytes form a nonsingular matrix. */
  lemma PowerRowsNonsingular(m: Mat, xs: seq<Byte>)
    requires IsMat(m, |xs|, |xs|) && Distinct(xs)
    requires forall i :: 0 <= i < |xs| ==> IsPowerRow(m[i], xs[i])
    ensures Nonsingular(m, |xs|)
  {
    hide Dot, Eval, IsPowerRow;
    var k := |xs|;
    forall x: Vec | |x| == k && Apply(m, x) == Zero(k)
      ensures x == Zero(k)
    {
      forall i | 0 <= i < k
        ensures Eval(x, xs[i]) == 0
      {
        PowerRowEvaluates(m[i], x, xs[i], k);
        assert x[..k] == x;
        assert Apply(m, x)[i] == 0;
      }
      RootsBound(x, xs);
    }
  }
}
