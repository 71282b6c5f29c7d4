/** The library's matrices, updated in place.  A matrix that could not be produced is null. */
module Matrices {
  import opened Gf256
  import opened LinearAlgebra
  import Symbol

  ghost function RowOf(m: array2<Byte>, r: nat): (v: Vec)
    requires r < m.Length0
    reads m
    ensures |v| == m.Length1 && forall c :: 0 <= c < m.Length1 ==> v[c] == m[r, c]
  {
    seq(m.Length1, c requires 0 <= c < m.Length1 reads m => m[r, c])
  }

  /** The contents of a matrix as a value. */
  ghost function Rows(m: array2<Byte>): (s: Mat)
    reads m
    ensures IsMat(s, m.Length0, m.Length1)
    ensures forall r, c :: 0 <= r < m.Length0 && 0 <= c < m.Length1 ==> s[r][c] == m[r, c]
  {
    seq(m.Length0, r requires 0 <= r < m.Length0 reads m => RowOf(m, r))
  }

  method Multiply(a: array2<Byte>, b: array2<Byte>) returns (result: array2<Byte>)
    requires a.Length1 == b.Length0
    ensures fresh(result) && result.Length0 == a.Length0 && result.Length1 == b.Length1
    ensures Rows(result) == Product(Rows(a), Rows(b), b.Length1)
  {
    hide Symbol.Times, Add, Mul, Product, RowOf;
    ghost var p := Product(Rows(a), Rows(b), b.Length1);
    result := new Byte[a.Length0, b.Length1];
    for i := 0 to a.Length0
      invariant forall r, c :: 0 <= r < i && 0 <= c < b.Length1 ==> result[r, c] == p[r][c]
    {
      for j := 0 to b.Length1
        invariant forall r, c :: 0 <= r < i && 0 <= c < b.Length1 ==> result[r, c] == p[r][c]
        invariant forall c :: 0 <= c < j ==> result[i, c] == p[i][c]
      {
        ghost var u, v := Rows(a)[i], Column(Rows(b), j);
        result[i, j] := 0;
        for k := 0 to a.Length1
          invariant forall r, c :: 0 <= r < i && 0 <= c < b.Length1 ==> result[r, c] == p[r][c]
          invariant forall c :: 0 <= c < j ==> result[i, c] == p[i][c]
          invariant result[i, j] == Dot(u, v, k)
        {
          result[i, j] := Symbol.Plus(result[i, j], Symbol.Times(a[i, k], b[k, j]));
        }
      }
    }
    MatExtensional(Rows(result), p, a.Length0, b.Length1);
  }

  /** Rows r1 up to r2 and columns c1 up to c2. */
  ghost function Block(m: Mat, r1: nat, r2: nat, c1: nat, c2: nat): (s: Mat)
    requires r1 <= r2 <= |m| && c1 <= c2 && IsMat(m, |m|, if m == [] then 0 else |m[0]|)
    requires m != [] ==> c2 <= |m[0]|
    ensures IsMat(s, r2 - r1, c2 - c1) && forall r :: 0 <= r < r2 - r1 ==> s[r] == m[r1 + r][c1..c2]
  {
    seq(r2 - r1, r requires 0 <= r < r2 - r1 => m[r1 + r][c1..c2])
  }

  method Submatrix(m: array2<Byte>, r1: nat, r2: nat, c1: nat, c2: nat) returns (result: array2<Byte>)
    requires r1 <= r2 <= m.Length0 && c1 <= c2 <= m.Length1
    ensures fresh(result) && result.Length0 == r2 - r1 && result.Length1 == c2 - c1
    ensures Rows(result) == Block(Rows(m), r1, r2, c1, c2)
  {
    hide RowOf;
    result := new Byte[r2 - r1, c2 - c1];
    for r := 0 to r2 - r1
      invariant forall i, j :: 0 <= i < r && 0 <= j < c2 - c1 ==> result[i, j] == m[r1 + i, c1 + j]
    {
      for c := 0 to c2 - c1
        invariant forall i, j :: 0 <= i < r && 0 <= j < c2 - c1 ==> result[i, j] == m[r1 + i, c1 + j]
        invariant forall j :: 0 <= j < c ==> result[r, j] == m[r1 + r, c1 + j]
      {
        result[r, c] := m[r1 + r, c1 + c];
      }
    }
    MatExtensional(Rows(result), Block(Rows(m), r1, r2, c1, c2), r2 - r1, c2 - c1);
  }

  /** Row assignment: row i of one matrix becomes row j of another, or of the same one. */
  method CopyRow(dst: array2<Byte>, i: nat, src: array2<Byte>, j: nat)
    requires i < dst.Length0 && j < src.Length0 && dst.Length1 == src.Length1
    modifies dst
    ensures Rows(dst) == old(Rows(dst)[i := Rows(src)[j]])
  {
    hide RowOf;
    for c := 0 to dst.Length1
      invariant forall k :: 0 <= k < c ==> dst[i, k] == old(src[j, k])
      invariant forall r, k :: 0 <= r < dst.Length0 && 0 <= k < dst.Length1 && (r != i || k >= c) ==>
        dst[r, k] == old(dst[r, k])
    {
      dst[i, c] := src[j, c];
    }
    MatExtensional(Rows(dst), old(Rows(dst)[i := Rows(src)[j]]), dst.Length0, dst.Length1);
  }
}
