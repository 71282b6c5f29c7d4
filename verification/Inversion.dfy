/** Gauss-Jordan inversion on the matrix with the identity appended. */
module Inversion {
  import opened Gf256
  import opened LinearAlgebra
  import opened RowOperations
  import opened Matrices
  import Symbol

  method Augment(a: array2<Byte>) returns (m: array2<Byte>)
    requires a.Length0 == a.Length1
    ensures fresh(m) && m.Length0 == a.Length0 && m.Length1 == 2 * a.Length0
    ensures Rows(m) == Augmented(Rows(a))
  {
    hide RowOf;
    var n := a.Length0;
    m := new Byte[n, 2 * n]((_, _) => 0);
    for r := 0 to n
      invariant forall i, j :: r <= i < n && 0 <= j < 2 * n ==> m[i, j] == 0
      invariant forall i, j :: 0 <= i < r && 0 <= j < n ==> m[i, j] == a[i, j]
      invariant forall i, j :: 0 <= i < r && n <= j < 2 * n ==> m[i, j] == if i == j - n then 1 else 0
    {
      for c := 0 to n
        invariant forall i, j :: r < i < n && 0 <= j < 2 * n ==> m[i, j] == 0
        invariant forall i, j :: 0 <= i < r && 0 <= j < n ==> m[i, j] == a[i, j]
        invariant forall i, j :: 0 <= i < r && n <= j < 2 * n ==> m[i, j] == if i == j - n then 1 else 0
        invariant forall j :: 0 <= j < c ==> m[r, j] == a[r, j]
        invariant forall j :: n <= j < 2 * n ==> m[r, j] == 0
      {
        m[r, c] := a[r, c];
      }
      m[r, r + n] := 1;
    }
    MatExtensional(Rows(m), Augmented(Rows(a)), n, 2 * n);
  }

  /** Row r trades places with the first row below it that has a nonzero entry in column r. */
  method FindPivot(m: array2<Byte>, r1: nat)
    requires r1 < m.Length0 && r1 < m.Length1
    modifies m
    ensures Rows(m) == old(Rows(m)) || exists r2 :: r1 < r2 < m.Length0 && Rows(m) == old(SwapRows(Rows(m), r1, r2))
    ensures old(m[r1, r1]) != 0 ==> Rows(m) == old(Rows(m))
    ensures
      forall r2 :: r1 < r2 < m.Length0 && old(m[r2, r1]) != 0 && (forall r :: r1 <= r < r2 ==> old(m[r, r1]) == 0)
        ==> forall c :: 0 <= c < m.Length1 ==> m[r1, c] == old(m[r2, c]) && m[r2, c] == old(m[r1, c])
    ensures m[r1, r1] == 0 ==> forall r2 :: r1 <= r2 < m.Length0 ==> m[r2, r1] == 0
  {
    hide RowOf;
    if m[r1, r1] == 0 {
      var tmp := new Byte[1, m.Length1];
      ghost var before := Rows(m);
      var r2 := r1 + 1;
      while r2 < m.Length0
        invariant r1 < r2 <= m.Length0
        invariant Rows(m) == before && fresh(tmp)
        invariant forall r :: r1 <= r < r2 ==> m[r, r1] == 0
      {
        if m[r2, r1] != 0 {
          CopyRow(tmp, 0, m, r1);
          CopyRow(m, r1, m, r2);
          CopyRow(m, r2, tmp, 0);
          assert Rows(m) == SwapRows(before, r1, r2);
          assert m[r1, r1] == before[r2][r1];
          return;
        }
        r2 := r2 + 1;
      }
    }
  }

  /** Row r is divided by its own diagonal entry; everything left of the diagonal is zero already. */
  method Normalise(m: array2<Byte>, r1: nat)
    requires r1 < m.Length0 && r1 < m.Length1 && m[r1, r1] != 0
    requires forall c :: 0 <= c < r1 ==> m[r1, c] == 0
    modifies m
    ensures m[r1, r1] == 1
    ensures Rows(m) == old(Rows(m))[r1 := Rows(m)[r1]]
    ensures forall c :: 0 <= c < m.Length1 ==> old(m[r1, c]) == Mul(old(m[r1, r1]), m[r1, c])
  {
    hide Symbol.Div, Mul, RowOf;
    var div := m[r1, r1];
    ghost var before := Rows(m);
    MulUnits(div);
    if div == 1 {
      forall c | 0 <= c < m.Length1
        ensures m[r1, c] == Mul(1, m[r1, c])
      {
        MulUnits(m[r1, c]);
      }
      assert Rows(m) == before[r1 := Rows(m)[r1]];
    } else {
      for c := r1 to m.Length1
        invariant forall i, j :: 0 <= i < m.Length0 && 0 <= j < m.Length1 && (i != r1 || j >= c || j < r1) ==>
          m[i, j] == before[i][j]
        invariant forall j :: r1 <= j < c ==> before[r1][j] == Mul(div, m[r1, j])
        invariant c > r1 ==> m[r1, r1] == 1
      {
        MulComm(Symbol.Div(m[r1, c], div), div);
        Symbol.DivIsUnique(div, div, 1);
        m[r1, c] := Symbol.Div(m[r1, c], div);
      }
      MatExtensional(Rows(m), before[r1 := Rows(m)[r1]], m.Length0, m.Length1);
    }
  }

  /** The multiple of row r that clears column r is taken off every other row. */
  method Eliminate(m: array2<Byte>, r1: nat)
    requires r1 < m.Length0 && r1 < m.Length1
    modifies m
    ensures Rows(m) == Eliminated(old(Rows(m)), r1, m.Length1)
  {
    hide Symbol.Times, Mul, Add, RowOf, Eliminated, Axpy;
    ghost var before := Rows(m);
    ghost var after := Eliminated(before, r1, m.Length1);
    for r2 := 0 to m.Length0
      invariant forall i, j :: 0 <= i < m.Length0 && 0 <= j < m.Length1 ==>
        m[i, j] == (if i < r2 then after else before)[i][j]
    {
      if r2 == r1 {
        continue;
      }
      var mult := m[r2, r1];
      for c := 0 to m.Length1
        invariant forall i, j :: 0 <= i < m.Length0 && 0 <= j < m.Length1 && i != r2 ==>
          m[i, j] == (if i < r2 then after else before)[i][j]
        invariant forall j :: 0 <= j < m.Length1 ==> m[r2, j] == (if j < c then after else before)[r2][j]
      {
        m[r2, c] := Symbol.Minus(m[r2, c], Symbol.Times(mult, m[r1, c]));
      }
    }
    MatExtensional(Rows(m), after, m.Length0, m.Length1);
  }

  lemma BlockIsRightHalf(m: Mat, n: nat)
    requires IsMat(m, n, 2 * n)
    ensures Block(m, 0, n, n, 2 * n) == RightHalf(m, n)
  {
    MatExtensional(Block(m, 0, n, n, 2 * n), RightHalf(m, n), n, n);
  }

  /**
   Null exactly for the singular matrices; otherwise a two-sided inverse.
   */
  method Inverse(a: array2<Byte>) returns (inv: array2?<Byte>)
    requires a.Length0 == a.Length1
    ensures inv == null <==> !Nonsingular(Rows(a), a.Length0)
    ensures inv != null ==> fresh(inv) && inv.Length0 == inv.Length1 == a.Length0
    ensures inv != null ==> IsInverse(Rows(a), Rows(inv), a.Length0)
  {
    hide SameKernel, Augmented, RowOf, Mul, Nonsingular, IsInverse, Eliminated, SwapRows;
    var n := a.Length0;
    ghost var input := Rows(a);
    var m := Augment(a);
    StartReduced(input, n);
    for r1 := 0 to n
      invariant Reduced(input, Rows(m), r1, n)
    {
      ghost var m0 := Rows(m);
      FindPivot(m, r1);
      ghost var m1 := Rows(m);
      forall r2 | r1 <= r2 < n
        ensures Reduced(input, SwapRows(m0, r1, r2), r1, n)
      {
        SwapKeepsReduced(input, m0, r1, r2, n);
      }
      assert Reduced(input, m1, r1, n);
      if m[r1, r1] == 0 {
        NoPivotMeansSingular(input, m1, r1, n);
        return null;
      }
      Normalise(m, r1);
      ghost var m2 := Rows(m);
      ScaleKeepsReduced(input, m1, r1, m2[r1], m1[r1][r1], n);
      EliminateKeepsReduced(input, m2, r1, n);
      Eliminate(m, r1);
    }
    ReducedGivesInverse(input, Rows(m), n);
    inv := Submatrix(m, 0, n, n, 2 * n);
    BlockIsRightHalf(Rows(m), n);
    InverseMeansNonsingular(input, Rows(inv), n);
  }
}
