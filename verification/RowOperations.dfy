/** Row operations on an augmented matrix keep the vectors it maps to zero. */
module RowOperations {
  import opened Gf256
  import opened LinearAlgebra
  import Symbol

  ghost predicate InKernel(m: Mat, w: Vec)
    requires IsMat(m, |m|, |w|)
  {
    forall i :: 0 <= i < |m| ==> Dot(m[i], w, |w|) == 0
  }

  ghost predicate SameKernel(m: Mat, m': Mat, cols: nat)
    requires IsMat(m, |m|, cols) && IsMat(m', |m'|, cols)
  {
    forall w: Vec {:trigger InKernel(m, w)} {:trigger InKernel(m', w)} :: |w| == cols ==>
      (InKernel(m, w) <==> InKernel(m', w))
  }

  /** The first r columns are columns of the identity matrix. */
  ghost predicate UnitColumns(m: Mat, r: nat, cols: nat)
    requires IsMat(m, |m|, cols) && r <= cols
  {
    forall i, j :: 0 <= i < |m| && 0 <= j < r ==> m[i][j] == if i == j then 1 else 0
  }

  /** The matrix with the identity to its right. */
  ghost function Augmented(a: Mat): (m: Mat)
    requires IsMat(a, |a|, |a|)
    ensures IsMat(m, |a|, 2 * |a|)
    ensures forall i :: 0 <= i < |a| ==> m[i] == a[i] + Unit(|a|, i)
  {
    seq(|a|, i requires 0 <= i < |a| => a[i] + Unit(|a|, i))
  }

  ghost function SwapRows(m: Mat, i: nat, j: nat): Mat
    requires i < |m| && j < |m|
  {
    m[i := m[j]][j := m[i]]
  }

  ghost function Axpy(u: Vec, s: Byte, v: Vec): (w: Vec)
    requires |u| == |v|
    ensures |w| == |u| && forall c :: 0 <= c < |u| ==> w[c] == Add(u[c], Mul(s, v[c]))
  {
    seq(|u|, c requires 0 <= c < |u| => Add(u[c], Mul(s, v[c])))
  }

  /** Row r, multiplied by each row's own entry in column r, is taken off every other row. */
  ghost function Eliminated(m: Mat, r: nat, cols: nat): (e: Mat)
    requires IsMat(m, |m|, cols) && r < |m| && r < cols
    ensures IsMat(e, |m|, cols)
    ensures forall i :: 0 <= i < |m| ==> e[i] == if i == r then m[r] else Axpy(m[i], m[i][r], m[r])
  {
    seq(|m|, i requires 0 <= i < |m| => if i == r then m[r] else Axpy(m[i], m[i][r], m[r]))
  }

  // ----- the kernel is kept

  lemma SwapKeepsKernel(m: Mat, i: nat, j: nat, cols: nat)
    requires IsMat(m, |m|, cols) && i < |m| && j < |m|
    ensures SameKernel(m, SwapRows(m, i, j), cols)
  {
    hide Dot;
    var s := SwapRows(m, i, j);
    forall w: Vec | |w| == cols
      ensures InKernel(m, w) <==> InKernel(s, w)
    {
      forall k | 0 <= k < |m|
        ensures InKernel(s, w) ==> Dot(m[k], w, cols) == 0
      {
        assert m[k] == s[if k == i then j else if k == j then i else k];
      }
    }
  }

  lemma ScaleKeepsKernel(m: Mat, r: nat, v: Vec, d: Byte, cols: nat)
    requires IsMat(m, |m|, cols) && r < |m| && |v| == cols && d != 0
    requires forall c :: 0 <= c < cols ==> m[r][c] == Mul(d, v[c])
    ensures SameKernel(m, m[r := v], cols)
  {
    hide Dot, Mul;
    var s := m[r := v];
    forall w: Vec | |w| == cols
      ensures InKernel(m, w) <==> InKernel(s, w)
    {
      DotScale(m[r], d, v, w, cols);
      MulUnits(d);
      if InKernel(m, w) {
        NonzeroFactor(d, Dot(v, w, cols));
        assert InKernel(s, w);
      }
      if InKernel(s, w) {
        assert s[r] == v;
        forall i | 0 <= i < |m|
          ensures Dot(m[i], w, cols) == 0
        {
          assert i != r ==> m[i] == s[i];
        }
      }
    }
  }

  lemma NonzeroFactor(d: Byte, x: Byte)
    requires d != 0 && Mul(d, x) == 0
    ensures x == 0
  {
    hide *;
    Symbol.NoZeroDivisors(d, x);
  }

  lemma EliminateKeepsKernel(m: Mat, r: nat, cols: nat)
    requires IsMat(m, |m|, cols) && r < |m| && r < cols
    ensures SameKernel(m, Eliminated(m, r, cols), cols)
  {
    hide Dot, Mul, Add, Axpy, Eliminated;
    var e := Eliminated(m, r, cols);
    forall w: Vec | |w| == cols
      ensures InKernel(m, w) <==> InKernel(e, w)
    {
      forall i | 0 <= i < |m| && i != r && Dot(m[r], w, cols) == 0
        ensures Dot(e[i], w, cols) == Dot(m[i], w, cols)
      {
        DotAxpy(e[i], m[i], m[i][r], m[r], w, cols);
        MulUnits(m[i][r]);
        AddLaws(Dot(m[i], w, cols), 0, 0);
      }
      assert e[r] == m[r];
    }
  }

  // ----- the pivot columns become identity columns

  lemma EliminateMakesUnitColumn(m: Mat, r: nat, cols: nat)
    requires IsMat(m, |m|, cols) && r < |m| && r < cols
    requires UnitColumns(m, r, cols) && m[r][r] == 1
    ensures UnitColumns(Eliminated(m, r, cols), r + 1, cols)
  {
    hide Mul, Add;
    forall i, j | 0 <= i < |m| && 0 <= j < r + 1
      ensures Eliminated(m, r, cols)[i][j] == if i == j then 1 else 0
    {
      if i != r {
        MulUnits(m[i][r]);
        AddLaws(m[i][j], 0, 0);
      }
    }
  }

  /** The state after r pivots: only row operations so far, and r finished columns. */
  ghost predicate Reduced(a: Mat, m: Mat, r: nat, n: nat) {
    && IsMat(a, n, n) && IsMat(m, n, 2 * n) && r <= n
    && SameKernel(Augmented(a), m, 2 * n)
    && UnitColumns(m, r, 2 * n)
  }

  lemma SameKernelTrans(a: Mat, b: Mat, c: Mat, cols: nat)
    requires IsMat(a, |a|, cols) && IsMat(b, |b|, cols) && IsMat(c, |c|, cols)
    requires SameKernel(a, b, cols) && SameKernel(b, c, cols)
    ensures SameKernel(a, c, cols)
  {
    hide InKernel;
  }

  lemma StartReduced(a: Mat, n: nat)
    requires IsMat(a, n, n)
    ensures Reduced(a, Augmented(a), 0, n)
  {
    hide InKernel, Augmented;
  }

  lemma SwapKeepsReduced(a: Mat, m: Mat, r: nat, r2: nat, n: nat)
    requires Reduced(a, m, r, n) && r <= r2 < n
    ensures Reduced(a, SwapRows(m, r, r2), r, n)
  {
    hide InKernel, Augmented, SameKernel;
    SwapKeepsKernel(m, r, r2, 2 * n);
    SameKernelTrans(Augmented(a), m, SwapRows(m, r, r2), 2 * n);
  }

  lemma ScaleKeepsReduced(a: Mat, m: Mat, r: nat, v: Vec, d: Byte, n: nat)
    requires Reduced(a, m, r, n) && r < n && |v| == 2 * n && d != 0
    requires forall c :: 0 <= c < 2 * n ==> m[r][c] == Mul(d, v[c])
    ensures Reduced(a, m[r := v], r, n)
  {
    hide InKernel, Augmented, SameKernel, Mul;
    ScaleKeepsKernel(m, r, v, d, 2 * n);
    SameKernelTrans(Augmented(a), m, m[r := v], 2 * n);
    forall c | 0 <= c < r
      ensures v[c] == 0
    {
      NonzeroFactor(d, v[c]);
    }
  }

  lemma EliminateKeepsReduced(a: Mat, m: Mat, r: nat, n: nat)
    requires Reduced(a, m, r, n) && r < n && m[r][r] == 1
    ensures Reduced(a, Eliminated(m, r, 2 * n), r + 1, n)
  {
    hide InKernel, Augmented, SameKernel, UnitColumns, Eliminated;
    EliminateKeepsKernel(m, r, 2 * n);
    SameKernelTrans(Augmented(a), m, Eliminated(m, r, 2 * n), 2 * n);
    EliminateMakesUnitColumn(m, r, 2 * n);
  }

  // ----- what the finished matrix says

  lemma {:induction false} DotTail(u: Vec, x: Vec, m: nat, n: nat)
    requires m <= n <= |u| && n <= |x|
    requires forall i :: m <= i < n ==> u[i] == 0 || x[i] == 0
    ensures Dot(u, x, n) == Dot(u, x, m)
  {
    hide Add, Mul;
    if m < n {
      DotTail(u, x, m, n - 1);
      MulUnits(u[n - 1]);
      MulUnits(x[n - 1]);
      AddLaws(Dot(u, x, m), 0, 0);
    }
  }

  lemma AugmentedKernel(a: Mat, x: Vec, y: Vec)
    requires IsMat(a, |a|, |a|) && |x| == |y| == |a|
    ensures InKernel(Augmented(a), x + y) <==> Apply(a, x) == y
  {
    hide Dot, Mul, Add, Augmented;
    var n, m := |a|, Augmented(a);
    forall i | 0 <= i < n
      ensures Dot(m[i], x + y, 2 * n) == 0 <==> Apply(a, x)[i] == y[i]
    {
      DotConcat(a[i], Unit(n, i), x, y);
      DotUnit(y, i, n);
      AddCancel(Dot(a[i], x, n), y[i]);
    }
  }

  lemma ReducedKernel(m: Mat, b: Mat, x: Vec, y: Vec)
    requires |m| == |b| == |x| == |y| && IsMat(b, |b|, |b|) && IsMat(m, |m|, 2 * |m|)
    requires forall i :: 0 <= i < |m| ==> m[i] == Unit(|m|, i) + b[i]
    ensures InKernel(m, x + y) <==> Apply(b, y) == x
  {
    hide Dot, Mul, Add;
    var n := |m|;
    forall i | 0 <= i < n
      ensures Dot(m[i], x + y, 2 * n) == 0 <==> Apply(b, y)[i] == x[i]
    {
      DotConcat(Unit(n, i), b[i], x, y);
      DotUnit(x, i, n);
      AddCancel(x[i], Dot(b[i], y, n));
    }
  }

  ghost function RightHalf(m: Mat, n: nat): (b: Mat)
    requires IsMat(m, n, 2 * n)
    ensures IsMat(b, n, n) && forall i :: 0 <= i < n ==> b[i] == m[i][n..]
  {
    seq(n, i requires 0 <= i < n => m[i][n..])
  }

  /** Soundness: when the left half is the identity, the right half is the inverse. */
  lemma ReducedGivesInverse(a: Mat, m: Mat, n: nat)
    requires Reduced(a, m, n, n)
    ensures IsInverse(a, RightHalf(m, n), n)
  {
    hide Dot, InKernel, Augmented, RightHalf;
    var b := RightHalf(m, n);
    forall i | 0 <= i < n
      ensures m[i] == Unit(n, i) + b[i]
    {
      assert m[i][..n] == Unit(n, i);
    }
    forall x: Vec, y: Vec | |x| == n && |y| == n
      ensures Apply(a, x) == y <==> Apply(b, y) == x
    {
      AugmentedKernel(a, x, y);
      ReducedKernel(m, b, x, y);
    }
  }

  /** The vector that shows there is no pivot for column r. */
  ghost function Witness(m: Mat, r: nat, n: nat): (x: Vec)
    requires IsMat(m, n, 2 * n) && r < n
    ensures |x| == n
    ensures forall i :: 0 <= i < n ==> x[i] == if i < r then m[i][r] else if i == r then 1 else 0
  {
    seq(n, i requires 0 <= i < n => if i < r then m[i][r] else if i == r then 1 else 0)
  }

  lemma WitnessRow(m: Mat, r: nat, n: nat, i: nat)
    requires IsMat(m, n, 2 * n) && r < n && i < n && UnitColumns(m, r, 2 * n)
    requires forall k :: r <= k < n ==> m[k][r] == 0
    ensures Dot(m[i], Witness(m, r, n) + Zero(n), 2 * n) == 0
  {
    hide Mul, Add, Witness;
    var w := Witness(m, r, n) + Zero(n);
    DotTail(m[i], w, r + 1, 2 * n);
    MulUnits(m[i][r]);
    AddLaws(m[i][r], m[i][r], 0);
    AddLaws(0, 0, 0);
    if i < r {
      DotSingle(m[i], w, i, r);
    } else {
      DotZero(m[i], w, r);
    }
  }

  /** Completeness: when column r has no pivot, the original matrix is singular. */
  lemma NoPivotMeansSingular(a: Mat, m: Mat, r: nat, n: nat)
    requires Reduced(a, m, r, n) && r < n
    requires forall k :: r <= k < n ==> m[k][r] == 0
    ensures !Nonsingular(a, n)
  {
    hide Dot, Augmented, Witness;
    var x := Witness(m, r, n);
    assert InKernel(m, x + Zero(n)) by {
      forall i | 0 <= i < n
        ensures Dot(m[i], x + Zero(n), 2 * n) == 0
      {
        WitnessRow(m, r, n, i);
      }
    }
    hide InKernel, UnitColumns, Nonsingular;
    AugmentedKernel(a, x, Zero(n));
    SingularBy(a, x, r, n);
  }

  lemma SingularBy(a: Mat, x: Vec, r: nat, n: nat)
    requires IsMat(a, n, n) && |x| == n && r < n && x[r] == 1 && Apply(a, x) == Zero(n)
    ensures !Nonsingular(a, n)
  {
    hide Apply;
    assert Zero(n)[r] == 0;
  }

  lemma InverseMeansNonsingular(a: Mat, b: Mat, n: nat)
    requires IsMat(a, n, n) && IsMat(b, n, n) && IsInverse(a, b, n)
    ensures Nonsingular(a, n)
  {
    hide Dot;
    assert Apply(a, Zero(n)) == Zero(n) by {
      forall i | 0 <= i < n
        ensures Dot(a[i], Zero(n), n) == 0
      {
        DotZero(a[i], Zero(n), n);
      }
    }
    assert Apply(b, Zero(n)) == Zero(n);
  }
}
