/** Vectors and matrices over GF(2^16). A matrix is the sequence of its rows. */
module Linear {
  import opened Field
  import opened FieldLaws

  type Vector = seq<gf>
  type Matrix = seq<Vector>

  ghost predicate IsMatrix(m: Matrix, rows: nat, cols: nat) {
    |m| == rows && forall i :: 0 <= i < rows ==> |m[i]| == cols
  }

  /** Sum of the first n products a[i] * b[i]. */
  function Dot(a: Vector, b: Vector, n: nat): gf
    requires n <= |a| && n <= |b|
  {
    if n == 0 then 0 else Add(Dot(a, b, n - 1), Mul(a[n - 1], b[n - 1]))
  }

  function Zeros(n: nat): (r: Vector)
    ensures |r| == n && forall i :: 0 <= i < n ==> r[i] == 0
  {
    seq(n, i => 0)
  }

  function Unit(n: nat, p: nat): (r: Vector)
    requires p < n
    ensures |r| == n && r[p] == 1 && forall i :: 0 <= i < n && i != p ==> r[i] == 0
  {
    Zeros(n)[p := 1]
  }

  function Scale(c: gf, a: Vector): (r: Vector)
    ensures |r| == |a|
  {
    seq(|a|, i requires 0 <= i < |a| => Mul(c, a[i]))
  }

  /** a + c * b. */
  function AddMul(a: Vector, b: Vector, c: gf): (r: Vector)
    requires |a| == |b|
    ensures |r| == |a|
  {
    seq(|a|, i requires 0 <= i < |a| => Add(a[i], Mul(c, b[i])))
  }

  function Column(m: Matrix, cols: nat, j: nat): (r: Vector)
    requires IsMatrix(m, |m|, cols) && j < cols
    ensures |r| == |m|
  {
    seq(|m|, i requires 0 <= i < |m| => m[i][j])
  }

  /** The vector m * x. */
  function Apply(m: Matrix, x: Vector): (r: Vector)
    requires IsMatrix(m, |m|, |x|)
    ensures |r| == |m|
  {
    seq(|m|, i requires 0 <= i < |m| => Dot(m[i], x, |x|))
  }

  /** The row vector v * m. */
  function Combine(v: Vector, m: Matrix, cols: nat): (r: Vector)
    requires IsMatrix(m, |v|, cols)
    ensures |r| == cols
  {
    seq(cols, j requires 0 <= j < cols => Dot(v, Column(m, cols, j), |v|))
  }

  /** Some x other than 0 has m * x = 0. */
  ghost predicate Singular(m: Matrix, k: nat)
    requires IsMatrix(m, k, k)
  {
    exists x: Vector :: |x| == k && x != Zeros(k) && Apply(m, x) == Zeros(k)
  }

  // ----- algebra of Dot

  lemma {:induction false} DotEqual(a: Vector, b: Vector, c: Vector, d: Vector, n: nat)
    requires n <= |a| && n <= |b| && n <= |c| && n <= |d|
    requires forall i :: 0 <= i < n ==> a[i] == c[i] && b[i] == d[i]
    ensures Dot(a, b, n) == Dot(c, d, n)
  {
    if n > 0 {
      DotEqual(a, b, c, d, n - 1);
    }
  }

  lemma {:induction false} DotComm(a: Vector, b: Vector, n: nat)
    requires n <= |a| && n <= |b|
    ensures Dot(a, b, n) == Dot(b, a, n)
  {
    hide Add, Mul;
    if n > 0 {
      DotComm(a, b, n - 1);
      MulComm(a[n - 1], b[n - 1]);
    }
  }

  lemma {:induction false} DotZeros(a: Vector, b: Vector, n: nat)
    requires n <= |a| && n <= |b|
    requires forall i :: 0 <= i < n ==> a[i] == 0 || b[i] == 0
    ensures Dot(a, b, n) == 0
  {
    hide Add, Mul;
    if n > 0 {
      DotZeros(a, b, n - 1);
      MulNonzero(a[n - 1], b[n - 1]);
      AddLaws(0, 0, 0);
    }
  }

  /** Dot is linear: (a + c * b) . x = a . x + c * (b . x). */
  lemma {:induction false} DotAddMul(a: Vector, b: Vector, c: gf, x: Vector, n: nat)
    requires |a| == |b| && n <= |a| && n <= |x|
    ensures Dot(AddMul(a, b, c), x, n) == Add(Dot(a, x, n), Mul(c, Dot(b, x, n)))
  {
    hide Add, Mul;
    if n == 0 {
      MulZeros(c);
      AddLaws(0, 0, 0);
    } else {
      var i := n - 1;
      DotAddMul(a, b, c, x, i);
      MulAdd(a[i], Mul(c, b[i]), x[i]);
      MulAssoc(c, b[i], x[i]);
      MulAdd(Dot(b, x, i), Mul(b[i], x[i]), c);
      AddSwap(Dot(a, x, i), Mul(c, Dot(b, x, i)), Mul(a[i], x[i]), Mul(c, Mul(b[i], x[i])));
    }
  }

  lemma {:induction false} DotScale(c: gf, a: Vector, x: Vector, n: nat)
    requires n <= |a| && n <= |x|
    ensures Dot(Scale(c, a), x, n) == Mul(c, Dot(a, x, n))
  {
    hide Add, Mul;
    if n == 0 {
      MulZeros(c);
    } else {
      DotScale(c, a, x, n - 1);
      MulAssoc(c, a[n - 1], x[n - 1]);
      MulAdd(Dot(a, x, n - 1), Mul(a[n - 1], x[n - 1]), c);
    }
  }

  /** Changing one entry changes the product by the difference times the other factor. */
  lemma {:induction false} DotUpdate(a: Vector, p: nat, c: gf, x: Vector, n: nat)
    requires p < n <= |a| && n <= |x|
    ensures Dot(a[p := c], x, n) == Add(Dot(a, x, n), Mul(Add(a[p], c), x[p]))
  {
    hide Add, Mul;
    var i := n - 1;
    if p < i {
      DotUpdate(a, p, c, x, i);
      AddRotate(Dot(a, x, i), Mul(Add(a[p], c), x[p]), Mul(a[i], x[i]));
    } else {
      DotEqual(a[p := c], x, a, x, i);
      MulAdd(a[p], c, x[p]);
      AddInsert(Dot(a, x, i), Mul(a[p], x[p]), Mul(c, x[p]));
    }
  }

  lemma AddRotate(a: gf, b: gf, c: gf)
    ensures Add(Add(a, b), c) == Add(Add(a, c), b)
  {
    hide Add;
    AddLaws(a, b, c);
    AddLaws(b, c, c);
    AddLaws(a, c, b);
  }

  lemma AddInsert(a: gf, b: gf, c: gf)
    ensures Add(a, c) == Add(Add(a, b), Add(b, c))
  {
    hide Add;
    AddLaws(a, b, Add(b, c));
    AddCancel(b, c);
  }

  lemma DotUnit(k: nat, p: nat, x: Vector)
    requires p < k == |x|
    ensures Dot(Unit(k, p), x, k) == x[p] && Dot(x, Unit(k, p), k) == x[p]
  {
    hide Add, Mul;
    DotZeros(Zeros(k), x, k);
    DotUpdate(Zeros(k), p, 1, x, k);
    AddLaws(1, 0, 0);
    AddLaws(x[p], 0, 0);
    MulOne(x[p]);
    DotComm(x, Unit(k, p), k);
  }

  /** (v * m) . x = v . (m * x), with the sums over rows and columns exchanged. */
  lemma {:induction false} CombineApply(v: Vector, m: Matrix, x: Vector, n: nat)
    requires n <= |v| == |m| && IsMatrix(m, |m|, |x|)
    ensures Dot(PartialCombine(v, m, |x|, n), x, |x|) == Dot(v, Apply(m, x), n)
  {
    hide Add, Mul;
    if n == 0 {
      forall j | 0 <= j < |x| ensures PartialCombine(v, m, |x|, 0)[j] == 0 {}
      DotZeros(PartialCombine(v, m, |x|, 0), x, |x|);
    } else {
      CombineApply(v, m, x, n - 1);
      DotAddMul(PartialCombine(v, m, |x|, n - 1), m[n - 1], v[n - 1], x, |x|);
      assert PartialCombine(v, m, |x|, n) == AddMul(PartialCombine(v, m, |x|, n - 1), m[n - 1], v[n - 1]);
    }
  }

  ghost function PartialCombine(v: Vector, m: Matrix, cols: nat, n: nat): (r: Vector)
    requires n <= |v| == |m| && IsMatrix(m, |m|, cols)
    ensures |r| == cols
  {
    seq(cols, j requires 0 <= j < cols => Dot(v, Column(m, cols, j), n))
  }

  lemma DotCombine(v: Vector, m: Matrix, x: Vector)
    requires IsMatrix(m, |v|, |x|)
    ensures Dot(Combine(v, m, |x|), x, |x|) == Dot(v, Apply(m, x), |v|)
  {
    CombineApply(v, m, x, |v|);
    assert PartialCombine(v, m, |x|, |v|) == Combine(v, m, |x|);
  }
}
