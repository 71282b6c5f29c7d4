/** The coding matrix and what it guarantees: any k of the n code symbols determine the data. */
module ReedSolomon {
  import opened Gf256
  import opened LinearAlgebra
  import opened Polynomials
  import opened Pigeonhole

  ghost function Vandermonde(n: nat, k: nat): (v: Mat)
    requires n <= 256
    ensures IsMat(v, n, k) && forall r :: 0 <= r < n ==> IsPowerRow(v[r], r as Byte)
  {
    seq(n, r requires 0 <= r < n => seq(k, c requires 0 <= c => Pow(r as Byte, c)))
  }

  /** Vandermonde rows, changed to the basis in which the top k of them are the identity. */
  ghost predicate IsCoding(c: Mat, n: nat, k: nat) {
    && k <= n < 256
    && IsMat(c, n, k)
    && exists inv: Mat :: IsBasisChange(inv, n, k) && c == Product(Vandermonde(n, k), inv, k)
  }

  ghost predicate IsBasisChange(inv: Mat, n: nat, k: nat)
    requires k <= n < 256
  {
    IsMat(inv, k, k) && IsInverse(Vandermonde(n, k)[..k], inv, k)
  }

  ghost predicate IsSelection(rows: seq<nat>, n: nat) {
    Distinct(rows) && forall i :: 0 <= i < |rows| ==> rows[i] < n
  }

  lemma VandermondeNonsingular(n: nat, k: nat, rows: seq<nat>)
    requires n < 256 && |rows| == k && IsSelection(rows, n)
    ensures Nonsingular(Pick(Vandermonde(n, k), rows), k)
  {
    hide Nonsingular, Vandermonde, IsPowerRow;
    var xs := seq(k, i requires 0 <= i < k => rows[i] as Byte);
    forall i, j | 0 <= i < j < k
      ensures xs[i] != xs[j]
    {
      IntAsByte(rows[i]);
      IntAsByte(rows[j]);
    }
    PowerRowsNonsingular(Pick(Vandermonde(n, k), rows), xs);
  }

  lemma TopNonsingular(n: nat, k: nat)
    requires k <= n < 256
    ensures Nonsingular(Vandermonde(n, k)[..k], k)
  {
    hide Nonsingular, Vandermonde;
    var rows := seq(k, i requires 0 <= i => i);
    VandermondeNonsingular(n, k, rows);
    assert Pick(Vandermonde(n, k), rows) == Vandermonde(n, k)[..k];
  }

  lemma SelectProduct(a: Mat, b: Mat, rows: seq<nat>, cols: nat)
    requires IsMat(a, |a|, |b|) && IsMat(b, |b|, cols)
    requires forall i :: 0 <= i < |rows| ==> rows[i] < |a|
    ensures Pick(Product(a, b, cols), rows) == Product(Pick(a, rows), b, cols)
  {
    hide Dot;
    MatExtensional(Pick(Product(a, b, cols), rows), Product(Pick(a, rows), b, cols), |rows|, cols);
  }

  lemma ApplyZero(a: Mat, n: nat)
    requires IsMat(a, |a|, n)
    ensures Apply(a, Zero(n)) == Zero(|a|)
  {
    hide Dot;
    forall i | 0 <= i < |a|
      ensures Dot(a[i], Zero(n), n) == 0
    {
      DotZero(a[i], Zero(n), n);
    }
  }

  /** Any k different rows of the coding matrix form a nonsingular matrix. */
  lemma AnyRowsNonsingular(c: Mat, n: nat, k: nat, rows: seq<nat>)
    requires IsCoding(c, n, k) && |rows| == k && IsSelection(rows, n)
    ensures Nonsingular(Pick(c, rows), k)
  {
    hide Apply, Product, Vandermonde, Pick;
    var v := Vandermonde(n, k);
    var inv: Mat :| IsBasisChange(inv, n, k) && c == Product(v, inv, k);
    VandermondeNonsingular(n, k, rows);
    SelectProduct(v, inv, rows, k);
    forall x: Vec | |x| == k && Apply(Pick(c, rows), x) == Zero(k)
      ensures x == Zero(k)
    {
      ApplyProduct(Pick(v, rows), inv, x);
      ApplyZero(v[..k], k);
      assert Apply(inv, x) == Zero(k);
    }
  }

  /** The top k rows are the identity. */
  lemma Systematic(c: Mat, n: nat, k: nat)
    requires IsCoding(c, n, k)
    ensures c[..k] == Identity(k)
  {
    hide Apply, Product, Vandermonde, Pick, IsInverse;
    var v := Vandermonde(n, k);
    var inv: Mat :| IsBasisChange(inv, n, k) && c == Product(v, inv, k);
    InverseProducts(v[..k], inv, k);
    var rows := seq(k, i requires 0 <= i => i);
    SelectProduct(v, inv, rows, k);
    assert Pick(v, rows) == v[..k];
    assert Pick(c, rows) == c[..k];
  }

  lemma CodingUnique(c: Mat, c': Mat, n: nat, k: nat)
    requires IsCoding(c, n, k) && IsCoding(c', n, k)
    ensures c == c'
  {
    hide Apply, Product, Vandermonde, IsInverse;
    var v := Vandermonde(n, k);
    var inv: Mat :| IsBasisChange(inv, n, k) && c == Product(v, inv, k);
    var inv': Mat :| IsBasisChange(inv', n, k) && c' == Product(v, inv', k);
    InverseUnique(v[..k], inv, inv', k);
  }

  // ----- consequences for codewords

  lemma SystematicCodeword(c: Mat, n: nat, k: nat, x: Vec)
    requires IsCoding(c, n, k) && |x| == k
    ensures Apply(c, x)[..k] == x
  {
    hide Dot;
    Systematic(c, n, k);
    ApplyIdentity(x);
    forall i | 0 <= i < k
      ensures Apply(c, x)[i] == x[i]
    {
      assert c[i] == c[..k][i] == Identity(k)[i];
      assert Apply(Identity(k), x)[i] == x[i];
    }
  }

  /**
   The codeword of the values of a polynomial at 0..k-1 are its values at 0..n-1, if it has at most k
   coefficients.
   */
  lemma CodewordInterpolates(c: Mat, n: nat, k: nat, x: Vec, p: Vec)
    requires IsCoding(c, n, k) && |x| == |p| == k
    requires forall i :: 0 <= i < k ==> x[i] == Eval(p, i as Byte)
    ensures forall r :: 0 <= r < n ==> Apply(c, x)[r] == Eval(p, r as Byte)
  {
    hide Dot, Product, Vandermonde, Eval, IsPowerRow;
    var v := Vandermonde(n, k);
    var inv: Mat :| IsBasisChange(inv, n, k) && c == Product(v, inv, k);
    assert p[..k] == p;
    forall r | 0 <= r < n
      ensures Apply(v, p)[r] == Eval(p, r as Byte)
    {
      PowerRowEvaluates(v[r], p, r as Byte, k);
    }
    assert Apply(v[..k], p) == x by {
      assert forall i :: 0 <= i < k ==> Apply(v[..k], p)[i] == Apply(v, p)[i];
    }
    ApplyProduct(v, inv, x);
  }

  lemma EncodingIsLinear(c: Mat, x: Vec, y: Vec)
    requires IsMat(c, |c|, |x|) && |x| == |y|
    ensures Apply(c, VecAdd(x, y)) == VecAdd(Apply(c, x), Apply(c, y))
  {
    hide Dot, VecAdd, Add;
    forall i | 0 <= i < |c|
      ensures Apply(c, VecAdd(x, y))[i] == VecAdd(Apply(c, x), Apply(c, y))[i]
    {
      DotAdd(c[i], x, y);
    }
  }

  lemma ApplySelection(c: Mat, rows: seq<nat>, x: Vec)
    requires IsMat(c, |c|, |x|) && forall i :: 0 <= i < |rows| ==> rows[i] < |c|
    ensures Apply(Pick(c, rows), x) == Pick(Apply(c, x), rows)
  {
  }

  lemma VecAddZero(x: Vec, y: Vec)
    requires |x| == |y|
    ensures VecAdd(x, y) == Zero(|x|) <==> x == y
  {
    hide Add, VecAdd;
    var d := VecAdd(x, y);
    forall i | 0 <= i < |x|
      ensures d[i] == 0 <==> x[i] == y[i]
    {
      AddCancel(x[i], y[i]);
    }
    if d == Zero(|x|) {
      assert forall i :: 0 <= i < |x| ==> d[i] == 0;
    }
  }

  lemma NonsingularIsInjective(s: Mat, x: Vec, y: Vec)
    requires |x| == |y| && IsMat(s, |s|, |x|) && Nonsingular(s, |x|)
    requires Apply(s, x) == Apply(s, y)
    ensures x == y
  {
    hide Apply, VecAdd;
    EncodingIsLinear(s, x, y);
    VecAddZero(Apply(s, x), Apply(s, y));
    VecAddZero(x, y);
  }

  /** Two data columns whose codewords agree in k places are the same. */
  lemma AgreementDetermines(c: Mat, n: nat, k: nat, x: Vec, y: Vec, rows: seq<nat>)
    requires IsCoding(c, n, k) && |x| == |y| == k
    requires |rows| == k && IsSelection(rows, n)
    requires Pick(Apply(c, x), rows) == Pick(Apply(c, y), rows)
    ensures x == y
  {
    hide Apply, Pick, Nonsingular;
    AnyRowsNonsingular(c, n, k, rows);
    ApplySelection(c, rows, x);
    ApplySelection(c, rows, y);
    NonsingularIsInjective(Pick(c, rows), x, y);
  }

  /** The minimum distance: codewords of different data agree in fewer than k places. */
  lemma MinimumDistance(c: Mat, n: nat, k: nat, x: Vec, y: Vec, agree: seq<nat>)
    requires IsCoding(c, n, k) && |x| == |y| == k && x != y
    requires IsSelection(agree, n)
    requires Pick(Apply(c, x), agree) == Pick(Apply(c, y), agree)
    ensures |agree| < k
  {
    hide Apply;
    if |agree| >= k {
      var rows := agree[..k];
      var u, v := Apply(c, x), Apply(c, y);
      assert Pick(u, rows) == Pick(u, agree)[..k];
      assert Pick(v, rows) == Pick(v, agree)[..k];
      AgreementDetermines(c, n, k, x, y, rows);
    }
  }
}
