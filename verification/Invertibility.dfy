/** Every nonsingular matrix has an inverse: an injective map on the finitely many vectors reaches all of them. */
module Invertibility {
  import opened Gf256
  import opened LinearAlgebra
  import opened Polynomials
  import opened Pigeonhole
  import opened ReedSolomon

  // ----- finitely many vectors

  ghost function AllBytes(): (s: set<Byte>)
    ensures forall b: Byte :: b in s
  {
    var s := set i | i in Range(256) :: i as Byte;
    assert forall b: Byte :: b in s by {
      forall b: Byte
        ensures b in s
      {
        assert b as int in Range(256) && (b as int) as Byte == b;
      }
    }
    s
  }

  ghost function Extended(shorter: set<Vec>, bytes: set<Byte>): (s: set<Vec>)
    ensures forall v: Vec :: v in s <==> v != [] && v[..|v| - 1] in shorter && v[|v| - 1] in bytes
  {
    var s := set u, b | u in shorter && b in bytes :: u + [b];
    assert forall v: Vec | v != [] && v[..|v| - 1] in shorter && v[|v| - 1] in bytes :: v in s by {
      forall v: Vec | v != [] && v[..|v| - 1] in shorter && v[|v| - 1] in bytes
        ensures v in s
      {
        var u, b := v[..|v| - 1], v[|v| - 1];
        assert u in shorter && b in bytes && v == u + [b];
      }
    }
    assert forall v: Vec :: v in s ==> v != [] && v[..|v| - 1] in shorter && v[|v| - 1] in bytes by {
      forall v: Vec | v in s
        ensures v != [] && v[..|v| - 1] in shorter && v[|v| - 1] in bytes
      {
        var u, b :| u in shorter && b in bytes && v == u + [b];
        assert v[..|v| - 1] == u;
      }
    }
    s
  }

  ghost function AllVecs(n: nat): (s: set<Vec>)
    ensures forall v: Vec :: v in s <==> |v| == n
  {
    hide AllBytes, Extended;
    if n == 0 then {[]} else Extended(AllVecs(n - 1), AllBytes())
  }

  ghost function Image(a: Mat, n: nat, s: set<Vec>): (r: set<Vec>)
    requires IsMat(a, |a|, n) && forall x :: x in s ==> |x| == n
  {
    set x | x in s :: Apply(a, x)
  }

  lemma {:induction false} ImageSize(a: Mat, n: nat, s: set<Vec>)
    requires IsMat(a, |a|, n) && Nonsingular(a, n) && forall x :: x in s ==> |x| == n
    ensures |Image(a, n, s)| == |s|
  {
    hide Apply, Nonsingular;
    if s != {} {
      var x :| x in s;
      var rest := s - {x};
      ImageSize(a, n, rest);
      if Apply(a, x) in Image(a, n, rest) {
        var y :| y in rest && Apply(a, y) == Apply(a, x);
        NonsingularIsInjective(a, x, y);
      }
      assert Image(a, n, s) == Image(a, n, rest) + {Apply(a, x)};
    }
  }

  ghost predicate Solves(a: Mat, x: Vec, y: Vec) {
    IsMat(a, |a|, |x|) && Apply(a, x) == y
  }

  lemma NonsingularIsOnto(a: Mat, n: nat, y: Vec)
    requires IsMat(a, n, n) && Nonsingular(a, n) && |y| == n
    ensures exists x: Vec :: |x| == n && Solves(a, x, y)
  {
    hide Nonsingular, AllVecs;
    var all := AllVecs(n);
    ImageSize(a, n, all);
    SubsetSize(Image(a, n, all), all);
    assert y in Image(a, n, all);
    var x :| x in all && Apply(a, x) == y;
    assert Solves(a, x, y);
  }

  // ----- the inverse

  ghost function Solution(a: Mat, n: nat, y: Vec): (x: Vec)
    requires IsMat(a, n, n) && Nonsingular(a, n) && |y| == n
    ensures |x| == n && Apply(a, x) == y
  {
    NonsingularIsOnto(a, n, y);
    var x: Vec :| |x| == n && Solves(a, x, y);
    x
  }

  /** Its columns are the solutions for the unit vectors. */
  ghost function InverseOf(a: Mat, n: nat): (b: Mat)
    requires IsMat(a, n, n) && Nonsingular(a, n)
    ensures IsMat(b, n, n) && IsInverse(a, b, n)
  {
    hide Nonsingular, IsInverse;
    var b := seq(n, i requires 0 <= i < n => seq(n, j requires 0 <= j < n => Solution(a, n, Unit(n, j))[i]));
    SolutionsInvert(a, b, n);
    b
  }

  lemma SolutionsInvert(a: Mat, b: Mat, n: nat)
    requires IsMat(a, n, n) && Nonsingular(a, n) && IsMat(b, n, n)
    requires forall i, j :: 0 <= i < n && 0 <= j < n ==> b[i][j] == Solution(a, n, Unit(n, j))[i]
    ensures IsInverse(a, b, n)
  {
    hide Dot, Nonsingular, Solution;
    var p := Product(a, b, n);
    forall i, j | 0 <= i < n && 0 <= j < n
      ensures p[i][j] == Identity(n)[i][j]
    {
      assert Column(b, j) == Solution(a, n, Unit(n, j));
      ColumnOfProduct(a, b, n, j);
      assert Column(p, j)[i] == Unit(n, j)[i];
    }
    MatExtensional(p, Identity(n), n, n);
    forall x: Vec, y: Vec | |x| == n && |y| == n
      ensures Apply(a, x) == y <==> Apply(b, y) == x
    {
      ApplyProduct(a, b, y);
      ApplyIdentity(y);
      if Apply(a, x) == y {
        NonsingularIsInjective(a, x, Apply(b, y));
      }
    }
  }

  /** Data of k bytes are the values at 0..k-1 of some polynomial with k coefficients. */
  lemma DataIsPolynomial(k: nat, x: Vec) returns (p: Vec)
    requires |x| == k < 256
    ensures |p| == k && forall i :: 0 <= i < k ==> Eval(p, i as Byte) == x[i]
  {
    hide Dot, Vandermonde, Nonsingular, Eval, IsPowerRow;
    var v := Vandermonde(k, k);
    TopNonsingular(k, k);
    assert v[..k] == v;
    NonsingularIsOnto(v, k, x);
    p :| |p| == k && Solves(v, p, x);
    assert p[..k] == p;
    forall i | 0 <= i < k
      ensures Eval(p, i as Byte) == x[i]
    {
      PowerRowEvaluates(v[i], p, i as Byte, k);
      assert Apply(v, p)[i] == x[i];
    }
  }

  /** There is a coding matrix for all numbers of shards. */
  lemma CodingExists(n: nat, k: nat)
    requires k <= n < 256
    ensures exists c: Mat :: IsCoding(c, n, k)
  {
    hide Vandermonde, Nonsingular, IsInverse, InverseOf, Product;
    TopNonsingular(n, k);
    var inv := InverseOf(Vandermonde(n, k)[..k], k);
    assert IsBasisChange(inv, n, k);
    assert IsCoding(Product(Vandermonde(n, k), inv, k), n, k);
  }
}
