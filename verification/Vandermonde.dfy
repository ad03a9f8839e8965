/** The mathematics of invert_vdm: what its synthetic division computes, and exactly
    when that is the inverse of the Vandermonde matrix. */
module Vandermonde {
  import opened Field
  import opened FieldLaws
  import opened Linear
  import opened GaussJordan
  import opened Polynomials
  import opened Kernels

  /** The n x k matrix of powers of the points. */
  function PowerMatrix(p: Vector, k: nat): (r: Matrix)
    ensures IsMatrix(r, |p|, k)
  {
    seq(|p|, i requires 0 <= i < |p| => PowerRow(p[i], k))
  }

  /** The product of x + p[j] for j < i. */
  ghost function Master(p: Vector, i: nat): (r: Vector)
    requires i <= |p|
    ensures |r| == i + 1
  {
    if i == 0 then [1] else MulRoot(Master(p, i - 1), p[i - 1])
  }

  /** The coefficients above the constant one that invert_vdm computes for Master(p, i):
      it never multiplies out the constant coefficient. */
  ghost function CodeMaster(p: Vector, i: nat): (r: Vector)
    requires 1 <= i <= |p|
    ensures |r| == i
  {
    if i == 1 then [1]
    else if i == 2 then [Add(p[0], p[1]), 1]
    else MulRoot(CodeMaster(p, i - 1), p[i - 1])
  }

  /** The column invert_vdm stores for point x. */
  ghost function InverseColumn(h: Vector, x: gf): (r: Vector)
    ensures |r| == |h|
  {
    Scale(Inv(Eval(SynthDiv(h, x), x)), SynthDiv(h, x))
  }

  /** The matrix with the given columns. */
  ghost function FromColumns(h: Vector, p: Vector): (r: Matrix)
    requires |h| == |p|
    ensures IsMatrix(r, |p|, |p|)
  {
    seq(|p|, i requires 0 <= i < |p| => seq(|p|, j requires 0 <= j < |p| => InverseColumn(h, p[j])[i]))
  }

  // ----- the exact master polynomial yields the inverse

  lemma {:induction false} MasterRoots(p: Vector, i: nat, j: nat)
    requires j < i <= |p|
    ensures Eval(Master(p, i), p[j]) == 0
  {
    hide Add, Mul, MulRoot;
    EvalMulRoot(Master(p, i - 1), p[i - 1], p[j]);
    AddLaws(p[j], 0, 0);
    MulZeros(Eval(Master(p, i - 1), p[j]));
    if j < i - 1 {
      MasterRoots(p, i - 1, j);
      MulZeros(Add(p[j], p[i - 1]));
    }
  }

  lemma {:induction false} MasterTop(p: Vector, i: nat)
    requires i <= |p|
    ensures Master(p, i)[i] == 1
  {
    hide Add, Mul;
    if i > 0 {
      MasterTop(p, i - 1);
      MulRootTop(Master(p, i - 1), p[i - 1]);
    }
  }

  lemma MulRootTop(a: Vector, p: gf)
    requires a != []
    ensures MulRoot(a, p)[|a|] == a[|a| - 1]
    ensures |a| >= 2 ==> MulRoot(a, p)[|a| - 1] == Add(a[|a| - 2], Mul(p, a[|a| - 1]))
    ensures |a| >= 3 ==> MulRoot(a, p)[|a| - 2] == Add(a[|a| - 3], Mul(p, a[|a| - 2]))
  {
    hide Add, Mul;
    MulZeros(p);
    AddLaws(a[|a| - 1], 0, 0);
  }

  /** The quotient by x - p[r] vanishes at the other points but not at p[r]. */
  lemma QuotientValues(p: Vector, r: nat)
    requires DistinctPoints(p) && r < |p|
    ensures var q := SynthDiv(Master(p, |p|)[1..], p[r]);
            forall i :: 0 <= i < |p| ==> (Eval(q, p[i]) == 0 <==> i != r)
  {
    hide Master, SynthDiv, Eval;
    forall i | 0 <= i < |p| && i != r ensures Eval(SynthDiv(Master(p, |p|)[1..], p[r]), p[i]) == 0 {
      QuotientRoot(p, r, i);
    }
    QuotientNoRoot(p, r);
  }

  lemma QuotientRoot(p: Vector, r: nat, i: nat)
    requires DistinctPoints(p) && r < |p| && i < |p| && i != r
    ensures Eval(SynthDiv(Master(p, |p|)[1..], p[r]), p[i]) == 0
  {
    hide Add, Mul, Master, SynthDiv, Eval;
    MasterRoots(p, |p|, r);
    MasterRoots(p, |p|, i);
    Division(Master(p, |p|), p[r], p[i]);
    AddLaws(0, 0, 0);
    AddCancel(p[i], p[r]);
    MulNonzero(Add(p[i], p[r]), Eval(SynthDiv(Master(p, |p|)[1..], p[r]), p[i]));
  }

  lemma QuotientNoRoot(p: Vector, r: nat)
    requires DistinctPoints(p) && r < |p|
    ensures Eval(SynthDiv(Master(p, |p|)[1..], p[r]), p[r]) != 0
  {
    hide Master, SynthDiv, Eval;
    var k, f := |p|, Master(p, |p|);
    var q := SynthDiv(f[1..], p[r]);
    forall i | 0 <= i < k && i != r ensures Eval(q, p[i]) == 0 {
      QuotientRoot(p, r, i);
    }
    QuotientTop(f, p[r]);
    MasterTop(p, k);
    if Eval(q, p[r]) == 0 {
      ManyRoots(q, p);
    }
  }

  lemma QuotientTop(f: Vector, x: gf)
    requires |f| >= 2
    ensures SynthDiv(f[1..], x)[|f| - 2] == f[|f| - 1]
  {
    var n := |f| - 2;
    SynthDivAt(f[1..], x, n);
    EvalSingle(f[1..][n..], x);
  }

  lemma EvalSingle(a: Vector, x: gf)
    requires |a| == 1
    ensures Eval(a, x) == a[0]
  {
    MulZeros(x);
    AddLaws(a[0], 0, 0);
  }

  lemma {:induction false} EvalScale(c: gf, a: Vector, z: gf)
    ensures Eval(Scale(c, a), z) == Mul(c, Eval(a, z))
  {
    hide Add, Mul;
    if a == [] {
      MulZeros(c);
    } else {
      assert Scale(c, a)[1..] == Scale(c, a[1..]);
      EvalScale(c, a[1..], z);
      var e := Eval(a[1..], z);
      MulAdd(a[0], Mul(z, e), c);
      MulAssoc(z, c, e);
      MulComm(z, c);
      MulAssoc(c, z, e);
    }
  }

  /** Entry (i, j) of V * FromColumns(h, p) is column j evaluated at p[i]. */
  lemma ProductEntry(p: Vector, h: Vector, i: nat, j: nat)
    requires |h| == |p| && i < |p| && j < |p|
    ensures Product(PowerMatrix(p, |p|), FromColumns(h, p), |p|)[i][j] == Eval(InverseColumn(h, p[j]), p[i])
  {
    hide Add, Mul, Power, Inv, SynthDiv, InverseColumn, Eval;
    var k := |p|;
    assert Column(FromColumns(h, p), k, j) == InverseColumn(h, p[j]);
    EvalDot(InverseColumn(h, p[j]), p[i], k);
  }

  lemma ExactInverse(p: Vector)
    requires DistinctPoints(p)
    ensures Product(PowerMatrix(p, |p|), FromColumns(Master(p, |p|)[1..], p), |p|) == Identity(|p|)
  {
    hide Add, Mul, Power, Inv, SynthDiv, Eval, FromColumns, Master, Dot;
    var k, h := |p|, Master(p, |p|)[1..];
    var m := Product(PowerMatrix(p, k), FromColumns(h, p), k);
    forall i | 0 <= i < k ensures m[i] == Identity(k)[i] {
      forall j | 0 <= j < k ensures m[i][j] == Unit(k, i)[j] {
        ProductEntry(p, h, i, j);
        QuotientValues(p, j);
        var q := SynthDiv(h, p[j]);
        EvalScale(Inv(Eval(q, p[j])), q, p[i]);
        MulInv(Eval(q, p[j]));
        MulZeros(Inv(Eval(q, p[j])));
      }
    }
  }

  // ----- when the code's polynomial is good enough

  ghost predicate Usable(p: Vector) {
    |p| <= 2 || p[0] == 0 || p[1] == 0
  }

  lemma MulRootShift(a: Vector, p: gf)
    requires a != []
    ensures MulRoot([0] + a, p) == [0] + MulRoot(a, p)
  {
    hide Add, Mul;
    MulZeros(p);
    AddLaws(0, 0, 0);
    AddLaws(0, Mul(p, a[0]), 0);
    forall i | 0 <= i < |a| + 2 ensures MulRoot([0] + a, p)[i] == ([0] + MulRoot(a, p))[i] {
    }
  }

  lemma MulRootOne(p: gf)
    ensures MulRoot([1], p) == [p, 1]
  {
    hide Add, Mul;
    MulOne(p);
    MulZeros(p);
    AddLaws(p, 0, 0);
    AddLaws(1, 0, 0);
  }

  lemma MulRootTwo(a: gf, p: gf)
    ensures MulRoot([a, 1], p) == [Mul(p, a), Add(a, p), 1]
  {
    hide Add, Mul;
    MulOne(p);
    MulZeros(p);
    AddLaws(Mul(p, a), 0, 0);
    AddLaws(1, 0, 0);
  }

  lemma MasterTwo(p: Vector)
    requires |p| >= 2
    ensures Master(p, 2) == [Mul(p[1], p[0]), Add(p[0], p[1]), 1]
  {
    hide Add, Mul, MulRoot;
    MulRootOne(p[0]);
    MulRootTwo(p[0], p[1]);
    assert Master(p, 1) == MulRoot(Master(p, 0), p[0]);
  }

  /** With a zero among the first two points nothing is lost. */
  lemma {:induction false} CodeMasterExact(p: Vector, i: nat)
    requires 2 <= i <= |p| && (p[0] == 0 || p[1] == 0)
    ensures Master(p, i) == [0] + CodeMaster(p, i)
  {
    hide MulRoot;
    if i == 2 {
      MasterTwo(p);
      MulNonzero(p[1], p[0]);
    } else {
      CodeMasterExact(p, i - 1);
      MulRootShift(CodeMaster(p, i - 1), p[i - 1]);
    }
  }

  lemma UsableExact(p: Vector)
    requires |p| >= 2 && Usable(p)
    ensures Master(p, |p|)[1..] == CodeMaster(p, |p|)
  {
    if p[0] == 0 || p[1] == 0 {
      CodeMasterExact(p, |p|);
    } else {
      MasterTwo(p);
    }
  }

  /** The three highest coefficients: the third one is off by p[0] * p[1]. */
  lemma {:induction false} CodeMasterTop(p: Vector, i: nat)
    requires 3 <= i <= |p|
    ensures var f, h := Master(p, i), CodeMaster(p, i);
            f[i] == h[i - 1] == 1 && f[i - 1] == h[i - 2] && f[i - 2] == Add(h[i - 3], Mul(p[1], p[0]))
  {
    hide Add, Mul, MulRoot;
    var d, x := Mul(p[1], p[0]), p[i - 1];
    var f, h := Master(p, i - 1), CodeMaster(p, i - 1);
    MulRootTop(f, x);
    MulRootTop(h, x);
    if i == 3 {
      MasterTwo(p);
      MulRootLow(h, x);
      AddLaws(d, Mul(x, h[0]), 0);
    } else {
      CodeMasterTop(p, i - 1);
      AddRotate(h[i - 4], d, Mul(x, h[i - 3]));
    }
  }

  lemma MulRootLow(a: Vector, p: gf)
    requires a != []
    ensures MulRoot(a, p)[0] == Mul(p, a[0])
  {
    hide Add, Mul;
    AddLaws(Mul(p, a[0]), 0, 0);
  }

  lemma SynthDivTop(h: Vector, x: gf)
    requires |h| >= 3
    ensures var n := |h|; var q := SynthDiv(h, x);
            q[n - 1] == h[n - 1] && q[n - 3] == Add(h[n - 3], Mul(x, Add(h[n - 2], Mul(x, h[n - 1]))))
  {
    hide Add, Mul;
    var n := |h|;
    SynthDivAt(h, x, n - 1);
    SynthDivAt(h, x, n - 3);
    EvalSingle(h[n - 1..], x);
    assert h[n - 3..][1..] == h[n - 2..] && h[n - 2..][1..] == h[n - 1..];
  }

  /** Two columns that evaluate alike at all points are the same. */
  lemma SameValues(a: Vector, b: Vector, p: Vector)
    requires |a| == |b| == |p| && DistinctPoints(p)
    requires forall i :: 0 <= i < |p| ==> Eval(a, p[i]) == Eval(b, p[i])
    ensures a == b
  {
    hide Add, Mul, Eval;
    var d := AddMul(a, b, 1);
    forall i | 0 <= i < |p| ensures Eval(d, p[i]) == 0 {
      EvalAddMul(a, b, 1, p[i]);
      MulOne(Eval(b, p[i]));
      AddLaws(Eval(a, p[i]), 0, 0);
    }
    ManyRoots(d, p);
    forall i | 0 <= i < |p| ensures a[i] == b[i] {
      assert d[i] == 0;
      MulOne(b[i]);
      AddCancel(a[i], b[i]);
    }
  }

  lemma SameColumns(p: Vector, h: Vector, f: Vector, j: nat)
    requires |h| == |f| == |p| && DistinctPoints(p) && j < |p|
    requires Product(PowerMatrix(p, |p|), FromColumns(h, p), |p|) == Product(PowerMatrix(p, |p|), FromColumns(f, p), |p|)
    ensures InverseColumn(h, p[j]) == InverseColumn(f, p[j])
  {
    hide Eval, FromColumns, Product, PowerMatrix, InverseColumn;
    var a, b := InverseColumn(h, p[j]), InverseColumn(f, p[j]);
    forall i | 0 <= i < |p| ensures Eval(a, p[i]) == Eval(b, p[i]) {
      ProductEntry(p, h, i, j);
      ProductEntry(p, f, i, j);
    }
    SameValues(a, b, p);
  }

  /** Without such a zero, three or more points make the first column wrong. */
  lemma UnusableWrong(p: Vector)
    requires DistinctPoints(p) && !Usable(p)
    ensures Product(PowerMatrix(p, |p|), FromColumns(CodeMaster(p, |p|), p), |p|) != Identity(|p|)
  {
    hide Mul, Inv, SynthDiv, Eval, FromColumns, Master, CodeMaster, Product, PowerMatrix;
    var h, f, x := CodeMaster(p, |p|), Master(p, |p|)[1..], p[0];
    ExactInverse(p);
    QuotientValues(p, 0);
    MulInv(Eval(SynthDiv(f, x), x));
    DifferentColumns(p, h, f, x, Inv(Eval(SynthDiv(h, x), x)), Inv(Eval(SynthDiv(f, x), x)));
    if Product(PowerMatrix(p, |p|), FromColumns(h, p), |p|) == Identity(|p|) {
      SameColumns(p, h, f, 0);
    }
  }

  lemma DifferentColumns(p: Vector, h: Vector, f: Vector, x: gf, s: gf, t: gf)
    requires |p| >= 3 && p[0] != 0 && p[1] != 0 && t != 0
    requires h == CodeMaster(p, |p|) && f == Master(p, |p|)[1..]
    ensures Scale(s, SynthDiv(h, x)) != Scale(t, SynthDiv(f, x))
  {
    hide Add, Mul, SynthDiv, Master, CodeMaster;
    var n, q, r := |p|, SynthDiv(h, x), SynthDiv(f, x);
    CodeMasterTop(p, n);
    SynthDivTop(h, x);
    SynthDivTop(f, x);
    if Scale(s, q) == Scale(t, r) {
      assert Scale(s, q)[n - 1] == Scale(t, r)[n - 1];
      MulOne(s);
      MulOne(t);
      assert Scale(s, q)[n - 3] == Scale(t, r)[n - 3];
      MulCancel(t, q[n - 3], r[n - 3]);
      var d, w := Mul(p[1], p[0]), Mul(x, Add(h[n - 2], Mul(x, 1)));
      AddRotate(h[n - 3], d, w);
      AddCancel(q[n - 3], d);
      AddLaws(q[n - 3], 0, 0);
      MulNonzero(p[1], p[0]);
    }
  }

  lemma MulCancel(c: gf, a: gf, b: gf)
    requires c != 0 && Mul(c, a) == Mul(c, b)
    ensures a == b
  {
    hide Mul;
    MulInv(c);
    MulAssoc(Inv(c), c, a);
    MulAssoc(Inv(c), c, b);
    MulOne(a);
    MulOne(b);
  }

  /** What invert_vdm stores inverts the matrix of distinct points exactly when there are
      at most two of them or one of the first two is 0. */
  lemma VdmExact(p: Vector)
    requires DistinctPoints(p) && |p| >= 2
    ensures Product(PowerMatrix(p, |p|), FromColumns(CodeMaster(p, |p|), p), |p|) == Identity(|p|) <==> Usable(p)
  {
    hide Product, PowerMatrix, FromColumns, CodeMaster;
    if Usable(p) {
      UsableExact(p);
      ExactInverse(p);
    } else {
      UnusableWrong(p);
    }
  }
}
