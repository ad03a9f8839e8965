/** The mathematics of invert_mat. While columns are processed in place, the buffer
    M represents the exchange of variables in y = A * x: where a pivot has been taken,
    M reads y and yields x, elsewhere it reads x and yields y. */
module GaussJordan {
  import opened Field
  import opened FieldLaws
  import opened Linear
  import opened Kernels

  // ipiv[i] == 1 once row and column i have served as pivot, 0 before
  ghost predicate IsPivots(piv: seq<nat>, k: nat) {
    |piv| == k && forall i :: 0 <= i < k ==> piv[i] <= 1
  }

  // order[i] is the row of A that was swapped into place i
  ghost predicate IsOrder(order: seq<nat>, k: nat) {
    |order| == k && forall i :: 0 <= i < k ==> order[i] < k
  }

  /** What M reads: y for pivots, x elsewhere. */
  ghost function Reads(piv: seq<nat>, order: seq<nat>, x: Vector, y: Vector): (v: Vector)
    requires IsPivots(piv, |x|) && IsOrder(order, |x|) && |y| == |x|
    ensures |v| == |x|
  {
    seq(|x|, i requires 0 <= i < |x| => if piv[i] == 1 then y[order[i]] else x[i])
  }

  /** What M yields: x for pivots, y elsewhere. */
  ghost function Yields(piv: seq<nat>, order: seq<nat>, x: Vector, y: Vector): (u: Vector)
    requires IsPivots(piv, |x|) && IsOrder(order, |x|) && |y| == |x|
    ensures |u| == |x|
  {
    seq(|x|, i requires 0 <= i < |x| => if piv[i] == 1 then x[i] else y[order[i]])
  }

  ghost predicate Agrees(a: Matrix, m: Matrix, piv: seq<nat>, order: seq<nat>, x: Vector, y: Vector)
    requires |x| == |y| && IsMatrix(a, |x|, |x|) && IsMatrix(m, |x|, |x|)
    requires IsPivots(piv, |x|) && IsOrder(order, |x|)
  {
    Apply(a, x) == y <==> Apply(m, Reads(piv, order, x, y)) == Yields(piv, order, x, y)
  }

  /** m is a with the variables of all pivots exchanged. */
  ghost predicate Exchanged(a: Matrix, m: Matrix, piv: seq<nat>, order: seq<nat>, k: nat) {
    && IsMatrix(a, k, k) && IsMatrix(m, k, k) && IsPivots(piv, k) && IsOrder(order, k)
    && forall x: Vector, y: Vector | |x| == k && |y| == k :: Agrees(a, m, piv, order, x, y)
  }

  ghost function Swap<T>(s: seq<T>, i: nat, j: nat): (r: seq<T>)
    requires i < |s| && j < |s|
    ensures |r| == |s|
  {
    s[i := s[j]][j := s[i]]
  }

  /** Taking the pivot m[p][p]: scale row p, then clear column p in the other rows. */
  ghost function PivotRow(m: Matrix, p: nat): (r: Vector)
    requires p < |m| && IsMatrix(m, |m|, |m|)
    ensures |r| == |m|
  {
    Scale(Inv(m[p][p]), m[p][p := 1])
  }

  ghost function ClearedRow(m: Matrix, p: nat, i: nat): (r: Vector)
    requires p < |m| && i < |m| && IsMatrix(m, |m|, |m|)
    ensures |r| == |m|
  {
    if i == p then PivotRow(m, p) else AddMul(m[i][p := 0], PivotRow(m, p), m[i][p])
  }

  ghost function Pivoted(m: Matrix, p: nat): (r: Matrix)
    requires p < |m| && IsMatrix(m, |m|, |m|)
    ensures IsMatrix(r, |m|, |m|)
  {
    seq(|m|, i requires 0 <= i < |m| => ClearedRow(m, p, i))
  }

  // ----- the steps

  ghost function NoPivots(k: nat): (r: seq<nat>)
    ensures IsPivots(r, k) && forall i :: 0 <= i < k ==> r[i] == 0
  {
    seq(k, i => 0)
  }

  ghost function InOrder(k: nat): (r: seq<nat>)
    ensures IsOrder(r, k) && forall i :: 0 <= i < k ==> r[i] == i
  {
    seq(k, i => i)
  }

  lemma ExchangedStart(a: Matrix, k: nat)
    requires IsMatrix(a, k, k)
    ensures Exchanged(a, a, NoPivots(k), InOrder(k), k)
  {
    hide Apply, NoPivots, InOrder;
    forall x: Vector, y: Vector | |x| == k && |y| == k
      ensures Agrees(a, a, NoPivots(k), InOrder(k), x, y)
    {
      assert Reads(NoPivots(k), InOrder(k), x, y) == x;
      assert Yields(NoPivots(k), InOrder(k), x, y) == y;
    }
  }

  lemma SwapStep(a: Matrix, m: Matrix, piv: seq<nat>, order: seq<nat>, k: nat, i: nat, j: nat)
    requires Exchanged(a, m, piv, order, k)
    requires i < k && j < k && piv[i] == 0 && piv[j] == 0
    ensures Exchanged(a, Swap(m, i, j), piv, Swap(order, i, j), k)
  {
    var m', order' := Swap(m, i, j), Swap(order, i, j);
    forall x: Vector, y: Vector | |x| == k && |y| == k ensures Agrees(a, m', piv, order', x, y) {
      assert Agrees(a, m, piv, order, x, y);
      var v, u := Reads(piv, order, x, y), Yields(piv, order, x, y);
      assert Reads(piv, order', x, y) == v;
      assert Yields(piv, order', x, y) == Swap(u, i, j);
      assert Apply(m', v) == Swap(Apply(m, v), i, j);
      if Swap(Apply(m, v), i, j) == Swap(u, i, j) {
        assert Apply(m, v) == Swap(Swap(Apply(m, v), i, j), i, j) == Swap(Swap(u, i, j), i, j) == u;
      }
    }
  }

  /** r' * v' = v[p] exactly when r * v = u, where r' is r scaled by its pivot. */
  lemma PivotRowDot(r: Vector, p: nat, v: Vector, u: gf)
    requires p < |r| == |v| && r[p] != 0
    ensures Dot(Scale(Inv(r[p]), r[p := 1]), v[p := u], |r|) == v[p] <==> Dot(r, v, |r|) == u
  {
    hide Add, Mul, Inv;
    var n, c, w := |r|, r[p], v[p := u];
    DotScale(Inv(c), r[p := 1], w, n);
    DotUpdate(r, p, 1, w, n);
    DotComm(r, w, n);
    DotUpdate(v, p, u, r, n);
    DotComm(v, r, n);
    PivotAlgebra(Dot(r, v, n), c, v[p], u);
  }

  lemma PivotAlgebra(d: gf, c: gf, v: gf, u: gf)
    requires c != 0
    ensures Mul(Inv(c), Add(Add(d, Mul(Add(v, u), c)), Mul(Add(c, 1), u))) == v <==> d == u
  {
    hide Add, Mul, Inv;
    MulAdd(v, u, c);
    MulAdd(c, 1, u);
    MulComm(u, c);
    MulComm(v, c);
    MulOne(u);
    var cu, cv := Mul(c, u), Mul(c, v);
    AddLaws(d, Add(cv, cu), Add(cu, u));
    AddInsert(cv, cu, u);
    AddLaws(cv, u, d);
    AddLaws(d, u, cv);
    assert Add(Add(d, Add(cv, cu)), Add(cu, u)) == Add(Add(d, u), cv);
    MulAdd(Add(d, u), cv, Inv(c));
    MulAssoc(Inv(c), c, v);
    MulInv(c);
    MulOne(v);
    var e := Mul(Inv(c), Add(d, u));
    AddCancel(v, e);
    AddCancel(e, v);
    AddLaws(e, v, v);
    MulNonzero(Inv(c), Add(d, u));
    AddCancel(d, u);
  }

  /** Row i of the pivoted matrix, once the pivot row yields v[p]. */
  lemma ClearedRowDot(m: Matrix, p: nat, i: nat, v: Vector, u: gf)
    requires p < |m| == |v| && i < |m| && i != p && IsMatrix(m, |m|, |m|)
    requires Dot(PivotRow(m, p), v[p := u], |m|) == v[p]
    ensures Dot(ClearedRow(m, p, i), v[p := u], |m|) == Dot(m[i], v, |m|)
  {
    hide Add, Mul, PivotRow;
    var n, r, c := |m|, m[i], m[i][p];
    DotAddMul(r[p := 0], PivotRow(m, p), c, v[p := u], n);
    DotAgree(r[p := 0], v[p := u], v, n);
    DotUpdate(r, p, 0, v, n);
    AddLaws(c, 0, 0);
    AddCancel(Mul(c, v[p]), Dot(r, v, n));
  }

  lemma {:induction false} DotAgree(a: Vector, b: Vector, b': Vector, n: nat)
    requires n <= |a| && n <= |b| && n <= |b'|
    requires forall i :: 0 <= i < n ==> a[i] == 0 || b[i] == b'[i]
    ensures Dot(a, b, n) == Dot(a, b', n)
  {
    hide Add, Mul;
    if n > 0 {
      DotAgree(a, b, b', n - 1);
      MulNonzero(a[n - 1], b[n - 1]);
      MulNonzero(a[n - 1], b'[n - 1]);
    }
  }

  lemma PivotedDot(m: Matrix, p: nat, v: Vector, u: Vector)
    requires p < |m| == |v| == |u| && IsMatrix(m, |m|, |m|) && m[p][p] != 0
    ensures Apply(m, v) == u <==> Apply(Pivoted(m, p), v[p := u[p]]) == u[p := v[p]]
  {
    hide Add, Mul, PivotRow, ClearedRow;
    var k, w := |m|, v[p := u[p]];
    PivotRowIs(m, p);
    PivotRowDot(m[p], p, v, u[p]);
    if Dot(PivotRow(m, p), w, k) == v[p] {
      forall i | 0 <= i < k && i != p ensures Dot(ClearedRow(m, p, i), w, k) == Dot(m[i], v, k) {
        ClearedRowDot(m, p, i, v, u[p]);
      }
      if Apply(m, v) == u {
        forall i | 0 <= i < k ensures Apply(Pivoted(m, p), w)[i] == u[p := v[p]][i] {
          assert Apply(m, v)[i] == u[i];
        }
      }
      if Apply(Pivoted(m, p), w) == u[p := v[p]] {
        forall i | 0 <= i < k ensures Apply(m, v)[i] == u[i] {
          assert Apply(Pivoted(m, p), w)[i] == u[p := v[p]][i];
        }
      }
    } else {
      assert Apply(m, v)[p] != u[p];
      assert Apply(Pivoted(m, p), w)[p] != u[p := v[p]][p];
    }
  }

  lemma PivotRowIs(m: Matrix, p: nat)
    requires p < |m| && IsMatrix(m, |m|, |m|)
    ensures ClearedRow(m, p, p) == PivotRow(m, p) == Scale(Inv(m[p][p]), m[p][p := 1])
  {}

  lemma PivotViews(piv: seq<nat>, order: seq<nat>, p: nat, x: Vector, y: Vector)
    requires IsPivots(piv, |x|) && IsOrder(order, |x|) && |y| == |x|
    requires p < |x| && piv[p] == 0
    ensures Reads(piv[p := 1], order, x, y) == Reads(piv, order, x, y)[p := Yields(piv, order, x, y)[p]]
    ensures Yields(piv[p := 1], order, x, y) == Yields(piv, order, x, y)[p := Reads(piv, order, x, y)[p]]
  {}

  lemma PivotAgrees(a: Matrix, m: Matrix, piv: seq<nat>, order: seq<nat>, k: nat, p: nat, x: Vector, y: Vector)
    requires |x| == |y| == k && IsMatrix(a, k, k) && IsMatrix(m, k, k)
    requires IsPivots(piv, k) && IsOrder(order, k)
    requires p < k && piv[p] == 0 && m[p][p] != 0
    requires Agrees(a, m, piv, order, x, y)
    ensures Agrees(a, Pivoted(m, p), piv[p := 1], order, x, y)
  {
    hide Apply, Pivoted, Reads, Yields;
    PivotViews(piv, order, p, x, y);
    PivotedDot(m, p, Reads(piv, order, x, y), Yields(piv, order, x, y));
  }

  lemma PivotStep(a: Matrix, m: Matrix, piv: seq<nat>, order: seq<nat>, k: nat, p: nat)
    requires Exchanged(a, m, piv, order, k)
    requires p < k && piv[p] == 0 && m[p][p] != 0
    ensures Exchanged(a, Pivoted(m, p), piv[p := 1], order, k)
  {
    hide Agrees, Pivoted;
    forall x: Vector, y: Vector | |x| == k && |y| == k
      ensures Agrees(a, Pivoted(m, p), piv[p := 1], order, x, y)
    {
      PivotAgrees(a, m, piv, order, k, p, x, y);
    }
  }

  /** All entries outside the pivot rows and columns are 0. */
  ghost predicate NoFreeEntry(m: Matrix, piv: seq<nat>, k: nat)
    requires IsMatrix(m, k, k) && |piv| == k
  {
    forall i, j :: 0 <= i < k && 0 <= j < k && piv[i] == 0 && piv[j] == 0 ==> m[i][j] == 0
  }

  /** No pivot left although some column is free: a has a kernel. */
  lemma NoPivot(a: Matrix, m: Matrix, piv: seq<nat>, order: seq<nat>, k: nat, c: nat)
    requires Exchanged(a, m, piv, order, k)
    requires c < k && piv[c] == 0
    requires NoFreeEntry(m, piv, k)
    ensures Singular(a, k)
  {
    hide Add, Mul, Dot;
    var v, y := Unit(k, c), Zeros(k);
    var u := Apply(m, v);
    forall i | 0 <= i < k && piv[i] == 0 ensures u[i] == 0 {
      DotUnit(k, c, m[i]);
    }
    var x := seq(k, i requires 0 <= i < k => if piv[i] == 1 then u[i] else v[i]);
    assert Agrees(a, m, piv, order, x, y);
    assert Reads(piv, order, x, y) == v;
    assert Yields(piv, order, x, y) == u;
    assert x[c] != Zeros(k)[c];
  }

  // ----- all pivots taken

  ghost function Identity(k: nat): (r: Matrix)
    ensures IsMatrix(r, k, k)
  {
    seq(k, i requires 0 <= i < k => Unit(k, i))
  }

  /** b is the two-sided inverse of a. */
  ghost predicate IsInverse(b: Matrix, a: Matrix, k: nat) {
    && IsMatrix(a, k, k) && IsMatrix(b, k, k)
    && Product(b, a, k) == Identity(k) && Product(a, b, k) == Identity(k)
  }

  /** y read in the given order. */
  ghost function Reordered(y: Vector, order: seq<nat>): (r: Vector)
    requires IsOrder(order, |y|)
    ensures |r| == |y|
  {
    seq(|y|, i requires 0 <= i < |y| => y[order[i]])
  }

  ghost predicate SolvesBy(a: Matrix, m: Matrix, order: seq<nat>, k: nat, x: Vector, y: Vector)
    requires IsMatrix(a, k, k) && IsMatrix(m, k, k) && IsOrder(order, k) && |x| == |y| == k
  {
    Apply(a, x) == y <==> Apply(m, Reordered(y, order)) == x
  }

  /** m solves y = a * x for x when y is read in the given order. */
  ghost predicate Solves(a: Matrix, m: Matrix, order: seq<nat>, k: nat) {
    && IsMatrix(a, k, k) && IsMatrix(m, k, k) && IsOrder(order, k)
    && forall x: Vector, y: Vector | |x| == k && |y| == k :: SolvesBy(a, m, order, k, x, y)
  }

  lemma AllPivots(a: Matrix, m: Matrix, piv: seq<nat>, order: seq<nat>, k: nat)
    requires Exchanged(a, m, piv, order, k) && forall i :: 0 <= i < k ==> piv[i] == 1
    ensures Solves(a, m, order, k)
  {
    hide Apply;
    forall x: Vector, y: Vector | |x| == k && |y| == k ensures SolvesBy(a, m, order, k, x, y) {
      assert Agrees(a, m, piv, order, x, y);
      assert Reads(piv, order, x, y) == Reordered(y, order);
      assert Yields(piv, order, x, y) == x;
    }
  }

  ghost function SwapColumns(m: Matrix, k: nat, i: nat, j: nat): (r: Matrix)
    requires IsMatrix(m, k, k) && i < k && j < k
    ensures IsMatrix(r, k, k)
  {
    seq(k, l requires 0 <= l < k => Swap(m[l], i, j))
  }

  /** Dot products do not depend on the order of the terms. */
  lemma DotSwap(a: Vector, b: Vector, i: nat, j: nat)
    requires |a| == |b| && i < |a| && j < |a|
    ensures Dot(Swap(a, i, j), Swap(b, i, j), |a|) == Dot(a, b, |a|)
  {
    hide Add, Mul;
    if i != j {
      DotSplit(a, b, i, j);
      DotSplit(Swap(a, i, j), Swap(b, i, j), i, j);
      var rest := a[i := 0][j := 0];
      assert Swap(a, i, j)[i := 0][j := 0] == rest;
      DotAgree(rest, b, Swap(b, i, j), |a|);
      AddRotate(Dot(rest, b, |a|), Mul(a[i], b[i]), Mul(a[j], b[j]));
    } else {
      assert Swap(a, i, j) == a && Swap(b, i, j) == b;
    }
  }

  lemma DotSplit(a: Vector, b: Vector, i: nat, j: nat)
    requires |a| == |b| && i < |a| && j < |a| && i != j
    ensures Dot(a, b, |a|) == Add(Add(Dot(a[i := 0][j := 0], b, |a|), Mul(a[i], b[i])), Mul(a[j], b[j]))
  {
    hide Add, Mul;
    DotTake(a, b, i);
    DotTake(a[i := 0], b, j);
    AddRotate(Dot(a[i := 0][j := 0], b, |a|), Mul(a[i], b[i]), Mul(a[j], b[j]));
  }

  lemma DotTake(a: Vector, b: Vector, i: nat)
    requires |a| == |b| && i < |a|
    ensures Dot(a, b, |a|) == Add(Dot(a[i := 0], b, |a|), Mul(a[i], b[i]))
  {
    hide Add, Mul;
    DotUpdate(a, i, 0, b, |a|);
    AddLaws(a[i], 0, 0);
    AddCancel(Mul(a[i], b[i]), Dot(a, b, |a|));
  }

  /** Undoing the latest swap of the order swaps the same two columns. */
  lemma UnscrambleStep(a: Matrix, m: Matrix, order: seq<nat>, k: nat, i: nat, j: nat)
    requires IsOrder(order, k) && i < k && j < k
    requires Solves(a, m, Swap(order, i, j), k)
    ensures Solves(a, SwapColumns(m, k, i, j), order, k)
  {
    hide Dot;
    forall x: Vector, y: Vector | |x| == k && |y| == k
      ensures SolvesBy(a, SwapColumns(m, k, i, j), order, k, x, y)
    {
      assert SolvesBy(a, m, Swap(order, i, j), k, x, y);
      var z := Reordered(y, Swap(order, i, j));
      assert Reordered(y, order) == Swap(z, i, j);
      ApplySwapColumns(m, k, z, i, j);
    }
  }

  lemma ApplySwapColumns(m: Matrix, k: nat, z: Vector, i: nat, j: nat)
    requires IsMatrix(m, k, k) && |z| == k && i < k && j < k
    ensures Apply(SwapColumns(m, k, i, j), Swap(z, i, j)) == Apply(m, z)
  {
    forall l | 0 <= l < k ensures Apply(SwapColumns(m, k, i, j), Swap(z, i, j))[l] == Apply(m, z)[l] {
      DotSwap(m[l], z, i, j);
    }
  }

  /** A matrix that solves in the natural order is the inverse. */
  lemma SolvesInverse(a: Matrix, m: Matrix, k: nat)
    requires Solves(a, m, InOrder(k), k)
    ensures IsInverse(m, a, k) && !Singular(a, k)
  {
    hide Add, Mul, Dot, InOrder, Apply;
    forall x: Vector, y: Vector | |x| == k && |y| == k ensures Apply(a, x) == y <==> Apply(m, y) == x {
      assert SolvesBy(a, m, InOrder(k), k, x, y);
      assert Reordered(y, InOrder(k)) == y;
    }
    ProductIdentity(m, a, k);
    ProductIdentity(a, m, k);
    ApplyZeros(m, k);
    forall x: Vector | |x| == k && Apply(a, x) == Zeros(k) ensures x == Zeros(k) {
      assert Apply(m, Zeros(k)) == x;
    }
  }

  lemma ApplyZeros(m: Matrix, k: nat)
    requires IsMatrix(m, k, k)
    ensures Apply(m, Zeros(k)) == Zeros(k)
  {
    forall i | 0 <= i < k ensures Apply(m, Zeros(k))[i] == 0 {
      DotZeros(m[i], Zeros(k), k);
    }
  }

  lemma ApplyUnit(a: Matrix, k: nat, j: nat)
    requires IsMatrix(a, k, k) && j < k
    ensures Apply(a, Unit(k, j)) == Column(a, k, j)
  {
    hide Dot;
    forall l | 0 <= l < k ensures Apply(a, Unit(k, j))[l] == Column(a, k, j)[l] {
      DotUnit(k, j, a[l]);
    }
  }

  lemma ProductEntryIs(m: Matrix, a: Matrix, k: nat, i: nat, j: nat)
    requires IsMatrix(m, k, k) && IsMatrix(a, k, k) && i < k && j < k
    ensures Product(m, a, k)[i][j] == Apply(m, Apply(a, Unit(k, j)))[i]
  {
    hide Dot;
    ApplyUnit(a, k, j);
  }

  lemma ProductIdentity(m: Matrix, a: Matrix, k: nat)
    requires IsMatrix(m, k, k) && IsMatrix(a, k, k)
    requires forall x: Vector | |x| == k :: Apply(m, Apply(a, x)) == x
    ensures Product(m, a, k) == Identity(k)
  {
    hide Apply, Product;
    forall i | 0 <= i < k ensures Product(m, a, k)[i] == Identity(k)[i] {
      forall j | 0 <= j < k ensures Product(m, a, k)[i][j] == Unit(k, i)[j] {
        ProductEntryIs(m, a, k, i, j);
        assert Apply(m, Apply(a, Unit(k, j))) == Unit(k, j);
      }
    }
  }
}
