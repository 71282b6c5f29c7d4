/** Vectors and matrices over the byte field. */
module LinearAlgebra {
  import opened Gf256

  type Vec = seq<Byte>
  type Mat = seq<Vec>

  ghost predicate IsMat(m: Mat, rows: nat, cols: nat) {
    |m| == rows && forall i :: 0 <= i < rows ==> |m[i]| == cols
  }

  /** The elements at the given positions: rows of a matrix, entries of a vector, pointers of a list. */
  function Pick<T>(s: seq<T>, positions: seq<nat>): (p: seq<T>)
    requires forall i :: 0 <= i < |positions| ==> positions[i] < |s|
    ensures |p| == |positions| && forall i :: 0 <= i < |positions| ==> p[i] == s[positions[i]]
  {
    seq(|positions|, i requires 0 <= i < |positions| => s[positions[i]])
  }

  /** The sum of the first n products of two vectors. */
  function Dot(u: Vec, v: Vec, n: nat): Byte
    requires n <= |u| && n <= |v|
  {
    if n == 0 then 0 else Add(Dot(u, v, n - 1), Mul(u[n - 1], v[n - 1]))
  }

  ghost function Apply(m: Mat, x: Vec): (y: Vec)
    requires IsMat(m, |m|, |x|)
    ensures |y| == |m| && forall i :: 0 <= i < |m| ==> y[i] == Dot(m[i], x, |x|)
  {
    seq(|m|, i requires 0 <= i < |m| => Dot(m[i], x, |x|))
  }

  ghost function Zero(n: nat): (z: Vec)
    ensures |z| == n && forall i :: 0 <= i < n ==> z[i] == 0
  {
    seq(n, _ => 0)
  }

  ghost function Unit(n: nat, j: nat): (e: Vec)
    ensures |e| == n && forall i :: 0 <= i < n ==> e[i] == if i == j then 1 else 0
  {
    seq(n, i => if i == j then 1 else 0)
  }

  ghost function Identity(n: nat): (m: Mat)
    ensures IsMat(m, n, n) && forall i :: 0 <= i < n ==> m[i] == Unit(n, i)
  {
    seq(n, i requires 0 <= i => Unit(n, i))
  }

  ghost function Column(m: Mat, j: nat): (v: Vec)
    requires forall i :: 0 <= i < |m| ==> j < |m[i]|
    ensures |v| == |m| && forall i :: 0 <= i < |m| ==> v[i] == m[i][j]
  {
    seq(|m|, i requires 0 <= i < |m| => m[i][j])
  }

  ghost function VecAdd(u: Vec, v: Vec): (w: Vec)
    requires |u| == |v|
    ensures |w| == |u| && forall i :: 0 <= i < |u| ==> w[i] == Add(u[i], v[i])
  {
    seq(|u|, i requires 0 <= i < |u| => Add(u[i], v[i]))
  }

  // ----- dot products

  lemma {:induction false} DotSame(u: Vec, v: Vec, u': Vec, v': Vec, n: nat)
    requires n <= |u| && n <= |v| && n <= |u'| && n <= |v'|
    requires forall i :: 0 <= i < n ==> u[i] == u'[i] && v[i] == v'[i]
    ensures Dot(u, v, n) == Dot(u', v', n)
  {
    hide Add, Mul;
    if n > 0 {
      DotSame(u, v, u', v', n - 1);
    }
  }

  lemma {:induction false} DotComm(u: Vec, v: Vec, n: nat)
    requires n <= |u| && n <= |v|
    ensures Dot(u, v, n) == Dot(v, u, n)
  {
    hide Add, Mul;
    if n > 0 {
      DotComm(u, v, n - 1);
      MulComm(u[n - 1], v[n - 1]);
    }
  }

  /** Replacing a row by itself plus a multiple of another one. */
  lemma {:induction false} DotAxpy(w: Vec, u: Vec, s: Byte, v: Vec, x: Vec, n: nat)
    requires n <= |w| && n <= |u| && n <= |v| && n <= |x|
    requires forall i :: 0 <= i < n ==> w[i] == Add(u[i], Mul(s, v[i]))
    ensures Dot(w, x, n) == Add(Dot(u, x, n), Mul(s, Dot(v, x, n)))
  {
    hide Add, Mul;
    if n == 0 {
      MulUnits(s);
      AddLaws(0, 0, 0);
    } else {
      DotAxpy(w, u, s, v, x, n - 1);
      var a, b, c := u[n - 1], v[n - 1], x[n - 1];
      MulAddLeft(a, Mul(s, b), c);
      MulAssoc(s, b, c);
      MulAddRight(s, Dot(v, x, n - 1), Mul(b, c));
      AddSwap(Dot(u, x, n - 1), Mul(s, Dot(v, x, n - 1)), Mul(a, c), Mul(s, Mul(b, c)));
    }
  }

  lemma {:induction false} DotScale(w: Vec, s: Byte, v: Vec, x: Vec, n: nat)
    requires n <= |w| && n <= |v| && n <= |x|
    requires forall i :: 0 <= i < n ==> w[i] == Mul(s, v[i])
    ensures Dot(w, x, n) == Mul(s, Dot(v, x, n))
  {
    hide Add, Mul;
    if n == 0 {
      MulUnits(s);
    } else {
      DotScale(w, s, v, x, n - 1);
      MulAssoc(s, v[n - 1], x[n - 1]);
      MulAddRight(s, Dot(v, x, n - 1), Mul(v[n - 1], x[n - 1]));
    }
  }

  lemma DotAdd(u: Vec, x: Vec, y: Vec)
    requires |u| == |x| == |y|
    ensures Dot(u, VecAdd(x, y), |u|) == Add(Dot(u, x, |u|), Dot(u, y, |u|))
  {
    hide Add, Mul, Dot, VecAdd;
    var n := |u|;
    DotComm(u, VecAdd(x, y), n);
    DotComm(u, x, n);
    DotComm(u, y, n);
    forall i | 0 <= i < n
      ensures VecAdd(x, y)[i] == Add(x[i], Mul(1, y[i]))
    {
      MulUnits(y[i]);
    }
    DotAxpy(VecAdd(x, y), x, 1, y, u, n);
    MulUnits(Dot(y, u, n));
  }

  lemma {:induction false} DotZero(u: Vec, x: Vec, n: nat)
    requires n <= |u| && n <= |x|
    requires forall i :: 0 <= i < n ==> u[i] == 0 || x[i] == 0
    ensures Dot(u, x, n) == 0
  {
    hide Add, Mul;
    AddLaws(0, 0, 0);
    if n > 0 {
      DotZero(u, x, n - 1);
      MulUnits(u[n - 1]);
      MulUnits(x[n - 1]);
    }
  }

  /** A dot product with at most one nonzero term. */
  lemma {:induction false} DotSingle(u: Vec, x: Vec, j: nat, n: nat)
    requires j < n <= |u| && n <= |x|
    requires forall i :: 0 <= i < n && i != j ==> u[i] == 0 || x[i] == 0
    ensures Dot(u, x, n) == Mul(u[j], x[j])
  {
    hide Add, Mul;
    AddLaws(Mul(u[j], x[j]), 0, 0);
    if n - 1 == j {
      DotZero(u, x, j);
    } else {
      DotSingle(u, x, j, n - 1);
      MulUnits(u[n - 1]);
      MulUnits(x[n - 1]);
    }
  }

  lemma DotUnit(u: Vec, j: nat, n: nat)
    requires j < n == |u|
    ensures Dot(u, Unit(n, j), n) == u[j]
    ensures Dot(Unit(n, j), u, n) == u[j]
  {
    hide *;
    DotSingle(u, Unit(n, j), j, n);
    DotSingle(Unit(n, j), u, j, n);
    MulUnits(u[j]);
  }

  /** Splitting a dot product in two. */
  lemma {:induction false} DotConcat(u: Vec, v: Vec, x: Vec, y: Vec)
    requires |u| == |x| && |v| == |y|
    ensures Dot(u + v, x + y, |u| + |v|) == Add(Dot(u, x, |u|), Dot(v, y, |v|))
  {
    hide Add, Mul;
    if v == [] {
      DotSame(u + v, x + y, u, x, |u|);
      AddLaws(Dot(u, x, |u|), 0, 0);
    } else {
      var n := |v| - 1;
      DotConcat(u, v[..n], x, y[..n]);
      DotSame(u + v, x + y, u + v[..n], x + y[..n], |u| + n);
      DotSame(v, y, v[..n], y[..n], n);
      AddLaws(Dot(u, x, |u|), Dot(v, y, n), Mul(v[n], y[n]));
    }
  }

  // ----- products of matrices

  /** Row i of a product: each entry is row a against a column of b. */
  ghost predicate IsRowProduct(a: Vec, b: Mat, c: Vec, m: nat)
    requires m <= |a| && m <= |b| && IsMat(b, |b|, |c|)
  {
    forall j :: 0 <= j < |c| ==> c[j] == Dot(a, Column(b, j), m)
  }

  ghost function Product(a: Mat, b: Mat, cols: nat): (p: Mat)
    requires IsMat(a, |a|, |b|) && IsMat(b, |b|, cols)
    ensures IsMat(p, |a|, cols)
    ensures forall i, j :: 0 <= i < |a| && 0 <= j < cols ==> p[i][j] == Dot(a[i], Column(b, j), |b|)
  {
    seq(|a|, i requires 0 <= i < |a| =>
      seq(cols, j requires 0 <= j < cols => Dot(a[i], Column(b, j), |b|)))
  }

  lemma {:induction false} RowProductDot(a: Vec, b: Mat, c: Vec, x: Vec, m: nat)
    requires m <= |a| && m <= |b| && IsMat(b, |b|, |c|) && |x| == |c|
    requires IsRowProduct(a, b, c, m)
    ensures Dot(c, x, |c|) == Dot(a, Apply(b, x), m)
    decreases m
  {
    hide Add, Mul;
    if m == 0 {
      DotZero(c, x, |c|);
    } else {
      var prev := seq(|c|, j requires 0 <= j < |c| => Dot(a, Column(b, j), m - 1));
      RowProductDot(a, b, prev, x, m - 1);
      DotAxpy(c, prev, a[m - 1], b[m - 1], x, |c|);
    }
  }

  /** Multiplying by a product is multiplying twice. */
  lemma ApplyProduct(a: Mat, b: Mat, x: Vec)
    requires IsMat(a, |a|, |b|) && IsMat(b, |b|, |x|)
    ensures Apply(Product(a, b, |x|), x) == Apply(a, Apply(b, x))
  {
    hide Dot;
    var p := Product(a, b, |x|);
    forall i | 0 <= i < |a|
      ensures Apply(p, x)[i] == Apply(a, Apply(b, x))[i]
    {
      RowProductDot(a[i], b, p[i], x, |b|);
    }
  }

  lemma ColumnOfProduct(a: Mat, b: Mat, cols: nat, j: nat)
    requires IsMat(a, |a|, |b|) && IsMat(b, |b|, cols) && j < cols
    ensures Column(Product(a, b, cols), j) == Apply(a, Column(b, j))
  {
    hide Dot;
    var l, r := Column(Product(a, b, cols), j), Apply(a, Column(b, j));
    forall i | 0 <= i < |a|
      ensures l[i] == r[i]
    {
    }
  }

  lemma MatExtensional(p: Mat, q: Mat, rows: nat, cols: nat)
    requires IsMat(p, rows, cols) && IsMat(q, rows, cols)
    requires forall i, j :: 0 <= i < rows && 0 <= j < cols ==> p[i][j] == q[i][j]
    ensures p == q
  {
    forall i | 0 <= i < rows
      ensures p[i] == q[i]
    {
    }
  }

  lemma ProductAssoc(a: Mat, b: Mat, c: Mat, cols: nat)
    requires IsMat(a, |a|, |b|) && IsMat(b, |b|, |c|) && IsMat(c, |c|, cols)
    ensures Product(Product(a, b, |c|), c, cols) == Product(a, Product(b, c, cols), cols)
  {
    hide Dot;
    var ab, bc := Product(a, b, |c|), Product(b, c, cols);
    forall i, j | 0 <= i < |a| && 0 <= j < cols
      ensures Product(ab, c, cols)[i][j] == Product(a, bc, cols)[i][j]
    {
      ApplyProduct(a, b, Column(c, j));
      ColumnOfProduct(b, c, cols, j);
      assert Apply(ab, Column(c, j))[i] == Apply(a, Column(bc, j))[i];
    }
    MatExtensional(Product(ab, c, cols), Product(a, bc, cols), |a|, cols);
  }

  lemma ApplyIdentity(x: Vec)
    ensures Apply(Identity(|x|), x) == x
  {
    hide Dot;
    var y := Apply(Identity(|x|), x);
    forall i | 0 <= i < |x|
      ensures y[i] == x[i]
    {
      DotUnit(x, i, |x|);
    }
  }

  lemma ApplyUnit(m: Mat, n: nat, j: nat)
    requires IsMat(m, |m|, n) && j < n
    ensures Apply(m, Unit(n, j)) == Column(m, j)
  {
    hide Dot;
    var y := Apply(m, Unit(n, j));
    forall i | 0 <= i < |m|
      ensures y[i] == m[i][j]
    {
      DotUnit(m[i], j, n);
    }
  }

  lemma ProductUnits(a: Mat, cols: nat)
    requires IsMat(a, |a|, cols)
    ensures Product(a, Identity(cols), cols) == a
    ensures Product(Identity(|a|), a, cols) == a
  {
    hide Dot;
    forall i, j | 0 <= i < |a| && 0 <= j < cols
      ensures Product(a, Identity(cols), cols)[i][j] == a[i][j] == Product(Identity(|a|), a, cols)[i][j]
    {
      assert Column(Identity(cols), j) == Unit(cols, j);
      DotUnit(a[i], j, cols);
      DotUnit(Column(a, j), i, |a|);
    }
    MatExtensional(Product(a, Identity(cols), cols), a, |a|, cols);
    MatExtensional(Product(Identity(|a|), a, cols), a, |a|, cols);
  }

  ghost function MatAdd(a: Mat, b: Mat, cols: nat): (s: Mat)
    requires IsMat(a, |a|, cols) && IsMat(b, |a|, cols)
    ensures IsMat(s, |a|, cols) && forall i :: 0 <= i < |a| ==> s[i] == VecAdd(a[i], b[i])
  {
    seq(|a|, i requires 0 <= i < |a| => VecAdd(a[i], b[i]))
  }

  lemma ProductDistributes(a: Mat, b: Mat, c: Mat, cols: nat)
    requires IsMat(a, |a|, |b|) && IsMat(b, |b|, cols) && IsMat(c, |b|, cols)
    ensures Product(a, MatAdd(b, c, cols), cols) == MatAdd(Product(a, b, cols), Product(a, c, cols), cols)
  {
    hide Dot, Add;
    var l, r := Product(a, MatAdd(b, c, cols), cols), MatAdd(Product(a, b, cols), Product(a, c, cols), cols);
    forall i, j | 0 <= i < |a| && 0 <= j < cols
      ensures l[i][j] == r[i][j]
    {
      assert Column(MatAdd(b, c, cols), j) == VecAdd(Column(b, j), Column(c, j));
      DotAdd(a[i], Column(b, j), Column(c, j));
    }
    MatExtensional(l, r, |a|, cols);
  }

  lemma ProductDistributesLeft(a: Mat, b: Mat, c: Mat, cols: nat)
    requires IsMat(a, |a|, |c|) && IsMat(b, |a|, |c|) && IsMat(c, |c|, cols)
    ensures Product(MatAdd(a, b, |c|), c, cols) == MatAdd(Product(a, c, cols), Product(b, c, cols), cols)
  {
    hide Dot, Add;
    var l, r := Product(MatAdd(a, b, |c|), c, cols), MatAdd(Product(a, c, cols), Product(b, c, cols), cols);
    forall i, j | 0 <= i < |a| && 0 <= j < cols
      ensures l[i][j] == r[i][j]
    {
      var v, n := Column(c, j), |c|;
      DotComm(VecAdd(a[i], b[i]), v, n);
      DotComm(a[i], v, n);
      DotComm(b[i], v, n);
      DotAdd(v, a[i], b[i]);
    }
    MatExtensional(l, r, |a|, cols);
  }

  // ----- inverses

  /** b undoes a: the equation a x = y has exactly the solution x = b y. */
  ghost predicate IsInverse(a: Mat, b: Mat, n: nat)
    requires IsMat(a, n, n) && IsMat(b, n, n)
  {
    forall x: Vec, y: Vec {:trigger Apply(a, x), Apply(b, y)} :: |x| == n && |y| == n ==>
      (Apply(a, x) == y <==> Apply(b, y) == x)
  }

  /** No nonzero vector is mapped to zero. */
  ghost predicate Nonsingular(a: Mat, n: nat)
    requires IsMat(a, |a|, n)
  {
    forall x: Vec {:trigger Apply(a, x)} :: |x| == n && Apply(a, x) == Zero(|a|) ==> x == Zero(n)
  }

  lemma InverseProducts(a: Mat, b: Mat, n: nat)
    requires IsMat(a, n, n) && IsMat(b, n, n)
    ensures IsInverse(a, b, n) <==> Product(a, b, n) == Identity(n) && Product(b, a, n) == Identity(n)
  {
    hide Dot, Apply, Product, Identity;
    if IsInverse(a, b, n) {
      LeftInverse(a, b, n);
      assert IsInverse(b, a, n);
      LeftInverse(b, a, n);
    }
    if Product(a, b, n) == Identity(n) && Product(b, a, n) == Identity(n) {
      forall x: Vec, y: Vec | |x| == n && |y| == n
        ensures Apply(a, x) == y <==> Apply(b, y) == x
      {
        ApplyProduct(a, b, y);
        ApplyProduct(b, a, x);
        ApplyIdentity(x);
        ApplyIdentity(y);
      }
    }
  }

  lemma LeftInverse(a: Mat, b: Mat, n: nat)
    requires IsMat(a, n, n) && IsMat(b, n, n)
    requires IsInverse(a, b, n)
    ensures Product(b, a, n) == Identity(n)
  {
    hide Dot, Product, Identity;
    forall i, j | 0 <= i < n && 0 <= j < n
      ensures Product(b, a, n)[i][j] == Identity(n)[i][j]
    {
      var e := Unit(n, j);
      ApplyProduct(b, a, e);
      ApplyUnit(Product(b, a, n), n, j);
      assert Apply(b, Apply(a, e)) == e;
      assert Column(Product(b, a, n), j)[i] == e[i];
    }
    MatExtensional(Product(b, a, n), Identity(n), n, n);
  }

  lemma InverseUnique(a: Mat, b: Mat, c: Mat, n: nat)
    requires IsMat(a, n, n) && IsMat(b, n, n) && IsMat(c, n, n)
    requires IsInverse(a, b, n) && IsInverse(a, c, n)
    ensures b == c
  {
    hide Dot;
    forall i, j | 0 <= i < n && 0 <= j < n
      ensures b[i][j] == c[i][j]
    {
      var e := Unit(n, j);
      ApplyUnit(b, n, j);
      ApplyUnit(c, n, j);
      assert Apply(a, Apply(b, e)) == e;
      assert Column(b, j) == Column(c, j);
      assert Column(b, j)[i] == Column(c, j)[i];
    }
    MatExtensional(b, c, n, n);
  }
}
