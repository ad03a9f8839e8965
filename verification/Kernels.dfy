/** The inner loops of fec.c on flat buffers: addmul1 and matmul. A pointer into a
    buffer is modelled as the buffer and an offset. */
module Kernels {
  import opened Field
  import opened FieldLaws
  import opened Linear
  import opened Tables

  /** dst with c * src added to the n entries from d on; src starts at s. */
  ghost function AddMulRange(dst: Vector, d: nat, src: Vector, s: nat, c: gf, n: nat): (r: Vector)
    requires d + n <= |dst| && s + n <= |src|
    ensures |r| == |dst|
  {
    seq(|dst|, i requires 0 <= i < |dst| => if d <= i < d + n then Add(dst[i], Mul(c, src[s + i - d])) else dst[i])
  }

  /** A call of addmul1: the buffers at its start and its arguments. */
  datatype Job = Job(was: Vector, d: nat, from: Vector, s: nat, c: gf, sz: nat)

  ghost predicate Apart(dst: array<gf>, d: nat, src: array<gf>, s: nat, n: nat) {
    dst != src || d + n <= s || s + n <= d
  }

  /** The first n entries are done. */
  ghost predicate Done(job: Job, n: nat, dst: array<gf>, src: array<gf>)
    reads dst, src
  {
    && job.c != 0 && n <= job.sz
    && |job.was| == dst.Length && job.d + job.sz <= dst.Length
    && |job.from| == src.Length && job.s + job.sz <= src.Length
    && Apart(dst, job.d, src, job.s, job.sz)
    && dst[..] == AddMulRange(job.was, job.d, job.from, job.s, job.c, n)
    && forall i :: job.s <= i < job.s + job.sz ==> src[i] == job.from[i]
  }

  /** GF_ADDMULC for entry n of a job; its d and s are the pointers dst and src. */
  method AddMulC(t: GfTables, dst: array<gf>, d: nat, src: array<gf>, s: nat, c: gf, ghost job: Job, ghost n: nat)
    requires t.Valid()
    requires Done(job, n, dst, src) && n < job.sz
    requires d == job.d + n && s == job.s + n && c == job.c
    modifies dst
    ensures Done(job, n + 1, dst, src)
  {
    hide Add, Mul, Log;
    var x := src[s];
    MulZeros(c);
    assert dst[d] == dst[..][d];
    AddLaws(dst[d], 0, 0);
    if x != 0 {
      MulPowers(c, x);
      dst[d] := Add(dst[d], t.exp[t.log[c] + t.log[x]]);
    }
  }

  /** The body of the unrolled loop. */
  method AddMul16(t: GfTables, dst: array<gf>, d: nat, src: array<gf>, s: nat, c: gf, ghost job: Job, ghost n: nat)
    requires t.Valid()
    requires Done(job, n, dst, src) && n + UNROLL <= job.sz
    requires d == job.d + n && s == job.s + n && c == job.c
    modifies dst
    ensures Done(job, n + UNROLL, dst, src)
  {
    hide Done, GfTables.Valid;
    AddMulC(t, dst, d, src, s, c, job, n);
    AddMulC(t, dst, d + 1, src, s + 1, c, job, n + 1);
    AddMulC(t, dst, d + 2, src, s + 2, c, job, n + 2);
    AddMulC(t, dst, d + 3, src, s + 3, c, job, n + 3);
    AddMulC(t, dst, d + 4, src, s + 4, c, job, n + 4);
    AddMulC(t, dst, d + 5, src, s + 5, c, job, n + 5);
    AddMulC(t, dst, d + 6, src, s + 6, c, job, n + 6);
    AddMulC(t, dst, d + 7, src, s + 7, c, job, n + 7);
    AddMulC(t, dst, d + 8, src, s + 8, c, job, n + 8);
    AddMulC(t, dst, d + 9, src, s + 9, c, job, n + 9);
    AddMulC(t, dst, d + 10, src, s + 10, c, job, n + 10);
    AddMulC(t, dst, d + 11, src, s + 11, c, job, n + 11);
    AddMulC(t, dst, d + 12, src, s + 12, c, job, n + 12);
    AddMulC(t, dst, d + 13, src, s + 13, c, job, n + 13);
    AddMulC(t, dst, d + 14, src, s + 14, c, job, n + 14);
    AddMulC(t, dst, d + 15, src, s + 15, c, job, n + 15);
  }

  /** addmul1: dst += c * src over sz entries, sixteen at a time and then one by one. */
  method AddMul1(t: GfTables, dst: array<gf>, d0: nat, src: array<gf>, s0: nat, c: gf, sz: nat)
    requires t.Valid() && c != 0
    requires d0 + sz <= dst.Length && s0 + sz <= src.Length && Apart(dst, d0, src, s0, sz)
    modifies dst
    ensures dst[..] == AddMulRange(old(dst[..]), d0, old(src[..]), s0, c, sz)
  {
    ghost var job := Job(dst[..], d0, src[..], s0, c, sz);
    var d, s := d0, s0;
    var lim: int := d0 + sz - UNROLL + 1;
    assert dst[..] == AddMulRange(dst[..], d0, src[..], s0, c, 0);
    while d < lim
      invariant d0 <= d <= d0 + sz && s - s0 == d - d0
      invariant Done(job, d - d0, dst, src)
    {
      hide Done, GfTables.Valid;
      AddMul16(t, dst, d, src, s, c, job, d - d0);
      d, s := d + UNROLL, s + UNROLL;
    }
    lim := lim + UNROLL - 1;
    while d < lim
      invariant d0 <= d <= d0 + sz && s - s0 == d - d0
      invariant Done(job, d - d0, dst, src)
    {
      hide Done, GfTables.Valid;
      AddMulC(t, dst, d, src, s, c, job, d - d0);
      d, s := d + 1, s + 1;
    }
  }

  /** The addmul macro: a zero factor is skipped. */
  method Addmul(t: GfTables, dst: array<gf>, d: nat, src: array<gf>, s: nat, c: gf, sz: nat)
    requires t.Valid()
    requires d + sz <= dst.Length && s + sz <= src.Length && Apart(dst, d, src, s, sz)
    modifies dst
    ensures dst[..] == AddMulRange(old(dst[..]), d, old(src[..]), s, c, sz)
  {
    if c != 0 {
      AddMul1(t, dst, d, src, s, c, sz);
    } else {
      AddMulZero(dst[..], d, src[..], s, sz);
    }
  }

  lemma AddMulZero(dst: Vector, d: nat, src: Vector, s: nat, n: nat)
    requires d + n <= |dst| && s + n <= |src|
    ensures AddMulRange(dst, d, src, s, 0, n) == dst
  {
    hide Add, Mul;
    forall i | d <= i < d + n ensures Add(dst[i], Mul(0, src[s + i - d])) == dst[i] {
      MulZeros(src[s + i - d]);
      AddLaws(dst[i], 0, 0);
    }
  }

  // ----- matrices in row-major order

  /** Where row i of a matrix with k columns starts. */
  function At(i: nat, k: nat): nat { i * k }

  lemma AtNext(i: nat, k: nat)
    ensures At(i + 1, k) == At(i, k) + k && At(0, k) == 0
  {}

  lemma {:induction false} AtBound(i: nat, n: nat, k: nat)
    requires i < n
    ensures At(i, k) + k <= At(n, k)
  {
    AtNext(n - 1, k);
    hide At;
    if i < n - 1 {
      AtBound(i, n - 1, k);
    }
  }

  /** The matrix with n rows of k entries that starts at offset off. */
  ghost function Rows(s: Vector, off: nat, n: nat, k: nat): (r: Matrix)
    requires off + At(n, k) <= |s|
    ensures IsMatrix(r, n, k)
  {
    if n == 0 then [] else
      AtNext(n - 1, k);
      Rows(s, off, n - 1, k) + [s[off + At(n - 1, k)..off + At(n, k)]]
  }

  lemma {:induction false} RowsAt(s: Vector, off: nat, n: nat, k: nat, i: nat)
    requires off + At(n, k) <= |s| && i < n
    ensures off + At(i, k) + k <= off + At(n, k)
    ensures Rows(s, off, n, k)[i] == s[off + At(i, k)..off + At(i, k) + k]
  {
    hide At;
    AtNext(n - 1, k);
    if i < n - 1 {
      RowsAt(s, off, n - 1, k, i);
    }
  }

  /** Buffers that agree on the matrix hold the same matrix. */
  lemma {:induction false} RowsSame(s: Vector, s': Vector, off: nat, n: nat, k: nat)
    requires off + At(n, k) <= |s| && off + At(n, k) <= |s'|
    requires forall i :: off <= i < off + At(n, k) ==> s[i] == s'[i]
    ensures Rows(s, off, n, k) == Rows(s', off, n, k)
  {
    if n > 0 {
      hide At;
      AtNext(n - 1, k);
      RowsSame(s, s', off, n - 1, k);
      assert s[off + At(n - 1, k)..off + At(n, k)] == s'[off + At(n - 1, k)..off + At(n, k)];
    }
  }

  /** The matrix product. */
  ghost function Product(a: Matrix, b: Matrix, cols: nat): (r: Matrix)
    requires IsMatrix(a, |a|, |b|) && IsMatrix(b, |b|, cols)
    ensures IsMatrix(r, |a|, cols)
  {
    seq(|a|, i requires 0 <= i < |a| => Combine(a[i], b, cols))
  }

  /** The innermost loop of matmul. */
  method MatmulEntry(t: GfTables, a: array<gf>, pa0: nat, b: array<gf>, b0: nat, k: nat, m: nat, col: nat) returns (acc: gf)
    requires t.Valid() && col < m
    requires pa0 + k <= a.Length && b0 + At(k, m) <= b.Length
    ensures acc == Dot(a[pa0..pa0 + k], Column(Rows(b[..], b0, k, m), m, col), k)
  {
    hide Add, Mul, At, Rows, GfTables.Valid;
    var pa, pb := pa0, b0 + col;
    acc := 0;
    AtNext(0, m);
    for i := 0 to k
      invariant pa == pa0 + i && pb == b0 + At(i, m) + col
      invariant acc == Dot(a[pa0..pa0 + k], Column(Rows(b[..], b0, k, m), m, col), i)
    {
      AtNext(i, m);
      RowsAt(b[..], b0, k, m, i);
      AddIsXor(acc, GfMul(t, a[pa], b[pb]));
      acc := Xor(acc, GfMul(t, a[pa], b[pb]));
      pa, pb := pa + 1, pb + m;
    }
  }

  /** One row of matmul: the row vector at pa times the matrix at b0. */
  method MatmulRow(t: GfTables, a: array<gf>, pa: nat, b: array<gf>, b0: nat, c: array<gf>, pc: nat, k: nat, m: nat)
    requires t.Valid() && c != a && c != b
    requires pa + k <= a.Length && b0 + At(k, m) <= b.Length && pc + m <= c.Length
    modifies c
    ensures c[pc..pc + m] == Combine(a[pa..pa + k], Rows(b[..], b0, k, m), m)
    ensures forall i :: 0 <= i < pc || pc + m <= i < c.Length ==> c[i] == old(c[i])
  {
    hide Add, Mul, At, Rows, GfTables.Valid;
    ghost var row := Combine(a[pa..pa + k], Rows(b[..], b0, k, m), m);
    for col := 0 to m
      invariant forall i :: 0 <= i < col ==> c[pc + i] == row[i]
      invariant forall i :: 0 <= i < pc || pc + m <= i < c.Length ==> c[i] == old(c[i])
    {
      var acc := MatmulEntry(t, a, pa, b, b0, k, m, col);
      c[pc + col] := acc;
    }
  }

  /** matmul: c = a * b, with a of size n x k and b of size k x m. */
  method Matmul(t: GfTables, a: array<gf>, a0: nat, b: array<gf>, b0: nat, c: array<gf>, c0: nat, n: nat, k: nat, m: nat)
    requires t.Valid() && c != a && c != b
    requires a0 + At(n, k) <= a.Length && b0 + At(k, m) <= b.Length && c0 + At(n, m) <= c.Length
    modifies c
    ensures Rows(c[..], c0, n, m) == Product(Rows(a[..], a0, n, k), Rows(b[..], b0, k, m), m)
    ensures forall i :: 0 <= i < c0 || c0 + At(n, m) <= i < c.Length ==> c[i] == old(c[i])
  {
    hide Add, Mul, At, GfTables.Valid, Combine, Product;
    ghost var A, B := Rows(a[..], a0, n, k), Rows(b[..], b0, k, m);
    ghost var P := Product(A, B, m);
    AtNext(0, k);
    AtNext(0, m);
    for row := 0 to n
      invariant c0 + At(row, m) <= c.Length
      invariant Rows(c[..], c0, row, m) == P[..row]
      invariant forall i :: 0 <= i < c0 || c0 + At(n, m) <= i < c.Length ==> c[i] == old(c[i])
    {
      ProductRow(A, B, m, row);
      AtBound(row, n, k);
      AtBound(row, n, m);
      RowsAt(a[..], a0, n, k, row);
      ghost var before := c[..];
      MatmulRow(t, a, a0 + At(row, k), b, b0, c, c0 + At(row, m), k, m);
      RowsSame(before, c[..], c0, row, m);
      AtNext(row, m);
      RowsNext(c[..], c0, row, m);
    }
  }

  lemma ProductRow(a: Matrix, b: Matrix, m: nat, i: nat)
    requires IsMatrix(a, |a|, |b|) && IsMatrix(b, |b|, m) && i < |a|
    ensures Product(a, b, m)[i] == Combine(a[i], b, m)
  {}

  lemma RowsNext(s: Vector, off: nat, n: nat, k: nat)
    requires off + At(n + 1, k) <= |s|
    ensures At(n + 1, k) == At(n, k) + k
    ensures Rows(s, off, n + 1, k) == Rows(s, off, n, k) + [s[off + At(n, k)..off + At(n, k) + k]]
  {
    AtNext(n, k);
  }
}
