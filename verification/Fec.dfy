/** fec.c's entry points: fec_new and fec_encode. */
module Fec {
  import opened Field
  import opened FieldLaws
  import opened Primitive
  import opened Linear
  import opened Tables
  import opened Kernels
  import opened GaussJordan
  import opened InvertMat
  import opened Polynomials
  import opened Vandermonde
  import opened InvertVdm
  import opened Codec
  import opened Options

  /** struct fec_parms; the matrix is never written after fec_new. */
  datatype FecParms = FecParms(k: nat, n: nat, encMatrix: seq<gf>) {
    ghost predicate Valid() {
      && 1 <= k <= n <= GF_SIZE + 1 && |encMatrix| == At(n, k)
      && forall i :: 0 <= i < n ==> Rows(encMatrix, 0, n, k)[i] == EncRow(k, i)
    }
  }

  lemma AtSplit(a: nat, b: nat, k: nat)
    ensures At(a + b, k) == At(a, k) + At(b, k)
  {}

  lemma {:induction false} RowsShift(s: Vector, a: nat, b: nat, k: nat)
    requires At(a + b, k) <= |s|
    ensures At(a, k) + At(b, k) <= |s|
    ensures Rows(s, 0, a + b, k) == Rows(s, 0, a, k) + Rows(s, At(a, k), b, k)
  {
    AtSplit(a, b, k);
    if b > 0 {
      AtSplit(a, b - 1, k);
      AtNext(a + b - 1, k);
      AtNext(b - 1, k);
      hide At;
      RowsShift(s, a, b - 1, k);
    }
  }

  lemma {:induction false} PowerOfPow(i: nat, j: nat)
    ensures Power(Pow(i), j) == Pow(At(i, j))
  {
    hide Pow, Mul;
    if j == 0 {
      PowZero();
    } else {
      PowerOfPow(i, j - 1);
      PowAdd(At(i, j - 1), i);
      assert At(i, j) == At(i, j - 1) + i;
    }
  }

  lemma PowReduced(x: nat)
    ensures Pow(x) == Pow(x % GF_SIZE)
  {
    PowOrder();
    PowMultiple(GF_SIZE, x / GF_SIZE);
    hide Pow;
    PowShift(x / GF_SIZE * GF_SIZE, x % GF_SIZE);
  }

  /** The first double loop of fec_new: row i holds the powers of Point(i). */
  method FillPowers(t: GfTables, tmp: array<gf>, k: nat, n: nat)
    requires t.Valid() && 1 <= k <= n && tmp.Length == At(n, k)
    modifies tmp
    ensures forall i :: 0 <= i < n ==> Rows(tmp[..], 0, n, k)[i] == PowerRow(Point(i), k)
  {
    hide At, Rows, Pow, Mul, GfTables.Valid;
    AtNext(0, k);
    AtBound(0, n, k);
    tmp[0] := 1;
    for col := 1 to k
      invariant tmp[..col] == PowerRow(0, col)
    {
      tmp[col] := 0;
      MulZeros(Power(0, col - 1));
    }
    RowsAt(tmp[..], 0, n, k, 0);
    var p := k;
    for row := 0 to n - 1
      invariant p == At(row + 1, k)
      invariant forall i :: 0 <= i <= row ==> Rows(tmp[..], 0, n, k)[i] == PowerRow(Point(i), k)
    {
      FillRow(t, tmp, n, k, row, p);
      AtNext(row + 1, k);
      p := p + k;
    }
  }

  method FillRow(t: GfTables, tmp: array<gf>, n: nat, k: nat, row: nat, p: nat)
    requires t.Valid() && k >= 1 && tmp.Length == At(n, k) && row + 1 < n && p == At(row + 1, k)
    modifies tmp
    ensures Rows(tmp[..], 0, n, k) == Rows(old(tmp[..]), 0, n, k)[row + 1 := PowerRow(Pow(row), k)]
  {
    hide Rows, Pow, Mul, GfTables.Valid;
    AtBound(row + 1, n, k);
    ghost var was := tmp[..];
    for col := 0 to k
      invariant tmp[p..p + col] == PowerRow(Pow(row), col)
      invariant forall i :: 0 <= i < tmp.Length && !(p <= i < p + col) ==> tmp[i] == was[i]
    {
      var e := Modnn(row * col);
      PowerOfPow(row, col);
      PowReduced(row * col);
      tmp[p + col] := Exp(t, e);
    }
    RowsUpdate(was, tmp[..], n, k, row + 1);
  }

  function Exp(t: GfTables, e: nat): (r: gf)
    requires t.Valid() && e < 2 * GF_SIZE
    ensures r == Pow(e)
  {
    t.exp[e]
  }

  /** The upper k x k part of enc_matrix: the identity. */
  method FillIdentity(enc: array<gf>, k: nat)
    requires k >= 1 && At(k, k) <= enc.Length
    modifies enc
    ensures Rows(enc[..], 0, k, k) == Identity(k)
    ensures forall i :: At(k, k) <= i < enc.Length ==> enc[i] == old(enc[i])
  {
    hide At, Rows;
    for i := 0 to At(k, k)
      invariant forall j :: 0 <= j < i ==> enc[j] == 0
      invariant forall j :: At(k, k) <= j < enc.Length ==> enc[j] == old(enc[j])
    {
      enc[i] := 0;
    }
    forall i | 0 <= i < k ensures Rows(enc[..], 0, k, k)[i] == Zeros(k) {
      RowsAt(enc[..], 0, k, k, i);
    }
    var p := 0;
    AtNext(0, k);
    for col := 0 to k
      invariant p == At(col, k) + col
      invariant forall i :: 0 <= i < col ==> Rows(enc[..], 0, k, k)[i] == Unit(k, i)
      invariant forall i :: col <= i < k ==> Rows(enc[..], 0, k, k)[i] == Zeros(k)
      invariant forall j :: At(k, k) <= j < enc.Length ==> enc[j] == old(enc[j])
    {
      ghost var before := enc[..];
      RowsAt(before, 0, k, k, col);
      enc[p] := 1;
      RowsUpdate(before, enc[..], k, k, col);
      assert enc[At(col, k)..At(col, k) + k] == Unit(k, col);
      AtNext(col, k);
      p := p + k + 1;
    }
  }

  /** The rows below the identity: powers times the inverse of the top. */
  method FillBottom(t: GfTables, enc: array<gf>, k: nat, n: nat)
    requires t.Valid() && 1 <= k <= n <= GF_SIZE + 1 && enc.Length == At(n, k)
    modifies enc
    ensures BottomRows(enc[..], k, n)
  {
    hide At, Rows, Pow, GfTables.Valid, Combine, TopInverse;
    var tmp := new gf[At(n, k)];
    FillPowers(t, tmp, k, n);
    ghost var was := tmp[..];
    AtSplit(k, n - k, k);
    RowsShift(was, k, n - k, k);
    InvertTop(t, tmp, k, n);
    RowsSame(was, tmp[..], At(k, k), n - k, k);
    Matmul(t, tmp, At(k, k), tmp, 0, enc, At(k, k), n - k, k, k);
    BottomIsProduct(was, enc[..], k, n);
  }

  /** The rows from k on are the code's. */
  ghost predicate BottomRows(enc: Vector, k: nat, n: nat)
    requires 1 <= k <= n
  {
    && |enc| == At(n, k) == At(k, k) + At(n - k, k)
    && forall i :: k <= i < n ==> Rows(enc, At(k, k), n - k, k)[i - k] == EncRow(k, i)
  }

  lemma BottomIsProduct(powers: Vector, enc: Vector, k: nat, n: nat)
    requires 1 <= k <= n && |enc| == |powers| == At(n, k) == At(k, k) + At(n - k, k)
    requires forall i :: 0 <= i < n ==> Rows(powers, 0, n, k)[i] == PowerRow(Point(i), k)
    requires Rows(enc, At(k, k), n - k, k) == Product(Rows(powers, At(k, k), n - k, k), TopInverse(k), k)
    ensures BottomRows(enc, k, n)
  {
    hide At, Rows, Pow, Combine, TopInverse;
    RowsShift(powers, k, n - k, k);
    forall i | k <= i < n ensures Rows(enc, At(k, k), n - k, k)[i - k] == EncRow(k, i) {
      assert Rows(powers, 0, n, k)[i] == Rows(powers, At(k, k), n - k, k)[i - k];
    }
  }

  /** fec_new: the systematic code with k source and n encoding symbols. */
  method FecNew(t: GfTables, k: nat, n: nat) returns (r: Option<FecParms>)
    requires t.Valid() && k >= 1
    ensures r.None? <==> k > GF_SIZE + 1 || n > GF_SIZE + 1 || k > n
    ensures r.Some? ==> r.value.Valid() && r.value.k == k && r.value.n == n
  {
    if k > GF_SIZE + 1 || n > GF_SIZE + 1 || k > n {
      return None;
    }
    hide At, Rows, GfTables.Valid, EncRow, Identity;
    var enc := new gf[At(n, k)];
    FillBottom(t, enc, k, n);
    ghost var bottom := enc[..];
    FillIdentity(enc, k);
    RowsSame(bottom, enc[..], At(k, k), n - k, k);
    EncMatrixRows(enc[..], k, n);
    r := Some(FecParms(k, n, enc[..]));
  }

  lemma EncMatrixRows(enc: Vector, k: nat, n: nat)
    requires 1 <= k <= n <= GF_SIZE + 1 && BottomRows(enc, k, n)
    requires Rows(enc, 0, k, k) == Identity(k)
    ensures forall i :: 0 <= i < n ==> Rows(enc, 0, n, k)[i] == EncRow(k, i)
  {
    hide At, Rows, EncRow, Identity;
    RowsShift(enc, k, n - k, k);
    forall i | 0 <= i < n ensures Rows(enc, 0, n, k)[i] == EncRow(k, i) {
      if i < k {
        IdentityAt(k, i);
        Systematic(k, i);
      } else {
        assert Rows(enc, 0, n, k)[i] == Rows(enc, At(k, k), n - k, k)[i - k];
      }
    }
  }

  /** invert_vdm applied to the rows of powers. */
  method InvertTop(t: GfTables, tmp: array<gf>, k: nat, n: nat)
    requires t.Valid() && 1 <= k <= n && tmp.Length == At(n, k)
    requires At(k, k) + At(n - k, k) == At(n, k)
    requires forall i :: 0 <= i < n ==> Rows(tmp[..], 0, n, k)[i] == PowerRow(Point(i), k)
    requires Rows(tmp[..], 0, n, k) == Rows(tmp[..], 0, k, k) + Rows(tmp[..], At(k, k), n - k, k)
    modifies tmp
    ensures Rows(tmp[..], 0, k, k) == TopInverse(k)
    ensures forall i :: At(k, k) <= i < tmp.Length ==> tmp[i] == old(tmp[i])
  {
    hide At, Rows, Pow, GfTables.Valid, FromColumns, CodeMaster;
    ghost var top := Rows(tmp[..], 0, k, k);
    assert forall i :: 0 <= i < k ==> top[i] == PowerRow(Point(i), k);
    InvertVdm.InvertVdm(t, tmp, k);
    if k >= 2 {
      forall i | 0 <= i < k ensures Column(top, k, 1)[i] == Points(k)[i] {
        PowerOne(Point(i));
      }
      assert Column(top, k, 1) == Points(k);
    } else {
      assert top[0] == PowerRow(Point(0), 1) == [1];
    }
  }

  lemma PowerOne(z: gf)
    ensures Power(z, 1) == z
  {
    assert Power(z, 0) == 1;
    MulOne(z);
  }
}
