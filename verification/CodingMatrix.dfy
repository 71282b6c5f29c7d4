/** Building the coding matrix. */
module CodingMatrix {
  import opened Gf256
  import opened LinearAlgebra
  import opened Matrices
  import opened Inversion
  import RS = ReedSolomon
  import Symbol

  /** Overwrites a matrix with its inverse, if it has one. */
  method InvertInPlace(m: array2<Byte>) returns (ok: bool)
    requires m.Length0 == m.Length1
    modifies m
    ensures ok <==> Nonsingular(old(Rows(m)), m.Length0)
    ensures ok ==> IsInverse(old(Rows(m)), Rows(m), m.Length0)
    ensures !ok ==> Rows(m) == old(Rows(m))
  {
    hide *;
    var inv := Inverse(m);
    if inv == null {
      return false;
    }
    CopyMatrix(m, inv);
    return true;
  }

  method CopyMatrix(dst: array2<Byte>, src: array2<Byte>)
    requires dst.Length0 == src.Length0 && dst.Length1 == src.Length1
    modifies dst
    ensures Rows(dst) == old(Rows(src))
  {
    hide RowOf;
    forall r, c | 0 <= r < dst.Length0 && 0 <= c < dst.Length1 {
      dst[r, c] := src[r, c];
    }
    MatExtensional(Rows(dst), old(Rows(src)), dst.Length0, dst.Length1);
  }

  method Vandermonde(n: nat, k: nat) returns (m: array2<Byte>)
    requires k <= n < 256
    ensures fresh(m) && m.Length0 == n && m.Length1 == k
    ensures Rows(m) == RS.Vandermonde(n, k)
    ensures forall r, c :: 0 <= r < n && 0 <= c < k ==> m[r, c] == Pow(r as Byte, c)
  {
    hide Symbol.Exp, RowOf, Pow;
    m := new Byte[n, k];
    for r := 0 to n
      invariant forall i, j :: 0 <= i < r && 0 <= j < k ==> m[i, j] == Pow(i as Byte, j)
    {
      for c := 0 to k
        invariant forall i, j :: 0 <= i < r && 0 <= j < k ==> m[i, j] == Pow(i as Byte, j)
        invariant forall j :: 0 <= j < c ==> m[r, j] == Pow(r as Byte, j)
      {
        m[r, c] := Symbol.Exp(r as Byte, c);
      }
    }
    MatExtensional(Rows(m), RS.Vandermonde(n, k), n, k);
  }

  method BuildMatrix(n: nat, k: nat) returns (c: array2<Byte>)
    requires k <= n < 256
    ensures fresh(c) && c.Length0 == n && c.Length1 == k
    ensures RS.IsCoding(Rows(c), n, k)
  {
    hide *;
    var vm := Vandermonde(n, k);
    var inv := Submatrix(vm, 0, k, 0, k);
    TopBlock(Rows(vm), n, k);
    ghost var top := Rows(inv);
    var r := InvertInPlace(inv);
    RS.TopNonsingular(n, k);
    assert r;
    c := Multiply(vm, inv);
    CodingIsBuilt(Rows(c), Rows(inv), n, k);
  }

  lemma TopBlock(m: Mat, n: nat, k: nat)
    requires k <= n && IsMat(m, n, k)
    ensures Block(m, 0, k, 0, k) == m[..k]
  {
    MatExtensional(Block(m, 0, k, 0, k), m[..k], k, k);
  }

  lemma CodingIsBuilt(c: Mat, inv: Mat, n: nat, k: nat)
    requires k <= n < 256 && IsMat(inv, k, k)
    requires IsInverse(RS.Vandermonde(n, k)[..k], inv, k)
    requires c == Product(RS.Vandermonde(n, k), inv, k)
    ensures RS.IsCoding(c, n, k)
  {
    hide IsInverse, Product, RS.Vandermonde;
    assert RS.IsBasisChange(inv, n, k);
  }
}
