/** The Reed-Solomon code of fec_new as mathematics: the systematic matrix evaluates the
    interpolation polynomial of the source symbols, and any k rows determine them. */
module Codec {
  import opened Field
  import opened FieldLaws
  import opened Primitive
  import opened Linear
  import opened Kernels
  import opened GaussJordan
  import opened Polynomials
  import opened Vandermonde

  /** Row i of the code belongs to this evaluation point: 0, 1, alpha, alpha^2, ... */
  ghost function Point(i: nat): gf {
    if i == 0 then 0 else Pow(i - 1)
  }

  ghost function Points(n: nat): (r: Vector)
    ensures |r| == n
  {
    seq(n, i requires 0 <= i < n => Point(i))
  }

  lemma PointsDiffer(i: nat, j: nat)
    requires i < j <= GF_SIZE
    ensures Point(i) != Point(j)
  {
    PowNonzero(j - 1);
    hide Pow;
    if i > 0 {
      PowDistinct(i - 1, j - 1);
    }
  }

  lemma PointsDistinct(k: nat)
    requires k <= GF_SIZE + 1
    ensures DistinctPoints(Points(k))
  {
    forall i, j | 0 <= i < j < k ensures Points(k)[i] != Points(k)[j] {
      PointsDiffer(i, j);
    }
  }

  /** What invert_vdm leaves in the top of the matrix. */
  ghost function TopInverse(k: nat): (r: Matrix)
    requires k >= 1
    ensures IsMatrix(r, k, k)
  {
    if k == 1 then [[1]] else FromColumns(CodeMaster(Points(k), k), Points(k))
  }

  lemma TopInverseExact(k: nat)
    requires 1 <= k <= GF_SIZE + 1
    ensures Product(PowerMatrix(Points(k), k), TopInverse(k), k) == Identity(k)
  {
    hide Add, Mul;
    if k == 1 {
      MulOne(1);
      AddLaws(1, 0, 0);
      var m := Product(PowerMatrix(Points(1), 1), [[1]], 1);
      assert Column([[1]], 1, 0) == [1];
      assert m[0][0] == Dot(PowerRow(0, 1), [1], 1);
      assert m[0] == [1] == Unit(1, 0);
    } else {
      hide Product, FromColumns, CodeMaster, PowerMatrix, Identity;
      PointsDistinct(k);
      VdmExact(Points(k));
    }
  }

  /** Row i of the systematic encoding matrix: the powers of point i times the inverse. */
  ghost function EncRow(k: nat, i: nat): (r: Vector)
    requires k >= 1
    ensures |r| == k
  {
    Combine(PowerRow(Point(i), k), TopInverse(k), k)
  }

  /** The code is systematic: the first k rows are the identity. */
  lemma Systematic(k: nat, i: nat)
    requires 1 <= k <= GF_SIZE + 1 && i < k
    ensures EncRow(k, i) == Unit(k, i)
  {
    TopInverseExact(k);
    hide Combine, TopInverse, Identity;
    assert Product(PowerMatrix(Points(k), k), TopInverse(k), k)[i] == EncRow(k, i);
    IdentityAt(k, i);
  }

  lemma IdentityAt(k: nat, i: nat)
    requires i < k
    ensures Identity(k)[i] == Unit(k, i)
  {}

  /** Encoding symbol i of the source symbols s is the value at point i of a polynomial. */
  lemma EncodesByEvaluation(k: nat, i: nat, s: Vector)
    requires k >= 1 && |s| == k
    ensures Dot(EncRow(k, i), s, k) == Eval(Apply(TopInverse(k), s), Point(i))
  {
    hide Add, Mul, TopInverse, PowerRow;
    DotCombine(PowerRow(Point(i), k), TopInverse(k), s);
    EvalDot(Apply(TopInverse(k), s), Point(i), k);
  }

  /** That polynomial is the one of degree below k through the source symbols. */
  lemma Interpolates(k: nat, s: Vector, j: nat)
    requires 1 <= k <= GF_SIZE + 1 && |s| == k && j < k
    ensures Eval(Apply(TopInverse(k), s), Point(j)) == s[j]
  {
    hide Add, Mul, TopInverse, EncRow, Apply, Eval;
    EncodesByEvaluation(k, j, s);
    Systematic(k, j);
    DotUnit(k, j, s);
  }

  /** Every source is the values of a polynomial of degree below k at 0, 1, alpha, alpha^2, ... */
  lemma SourcePolynomial(k: nat, s: Vector) returns (a: Vector)
    requires 1 <= k <= GF_SIZE + 1 && |s| == k
    ensures |a| == k && s[0] == Eval(a, 0) && forall j :: 1 <= j < k ==> s[j] == Eval(a, Pow(j - 1))
  {
    hide Eval, TopInverse, Apply;
    a := Apply(TopInverse(k), s);
    forall j | 0 <= j < k ensures s[j] == Eval(a, if j == 0 then 0 else Pow(j - 1)) {
      Interpolates(k, s, j);
    }
  }

  /** Systematic Reed-Solomon: if the source symbols are the values of a polynomial of degree
      below k at 0, 1, alpha, ..., alpha^(k-2), then encoding symbol i is its value at
      alpha^(i-1), and symbol 0 its value at 0. */
  lemma EncodesPolynomial(k: nat, a: Vector, s: Vector, i: nat)
    requires 1 <= k <= GF_SIZE + 1 && |a| == |s| == k && i <= GF_SIZE
    requires s[0] == Eval(a, 0) && forall j :: 1 <= j < k ==> s[j] == Eval(a, Pow(j - 1))
    ensures Dot(EncRow(k, i), s, k) == Eval(a, if i == 0 then 0 else Pow(i - 1))
  {
    hide Eval, TopInverse, Apply, EncRow, Dot;
    var b := Apply(TopInverse(k), s);
    forall j | 0 <= j < k ensures Eval(a, Points(k)[j]) == Eval(b, Points(k)[j]) {
      Interpolates(k, s, j);
    }
    PointsDistinct(k);
    SameValues(a, b, Points(k));
    EncodesByEvaluation(k, i, s);
  }

  ghost predicate DistinctIndices(index: seq<nat>, n: nat) {
    && (forall i :: 0 <= i < |index| ==> index[i] < n)
    && (forall i, j :: 0 <= i < j < |index| ==> index[i] != index[j])
  }

  ghost function SelectedRows(k: nat, index: seq<nat>): (r: Matrix)
    requires k >= 1
    ensures IsMatrix(r, |index|, k)
  {
    seq(|index|, i requires 0 <= i < |index| => EncRow(k, index[i]))
  }

  /** Source symbols whose encodings at k distinct indices are 0 are 0. */
  lemma OnlyZeroEncodesToZero(k: nat, index: seq<nat>, x: Vector)
    requires 1 <= k <= GF_SIZE + 1 && |x| == |index| == k && DistinctIndices(index, GF_SIZE + 1)
    requires Apply(SelectedRows(k, index), x) == Zeros(k)
    ensures x == Zeros(k)
  {
    hide EncRow, Dot, TopInverse, Eval;
    var a := Apply(TopInverse(k), x);
    forall i | 0 <= i < k ensures Eval(a, Point(index[i])) == 0 {
      EncodesByEvaluation(k, index[i], x);
      assert Apply(SelectedRows(k, index), x)[i] == 0;
    }
    PolynomialZero(k, index, a);
    forall j | 0 <= j < k ensures x[j] == 0 {
      Interpolates(k, x, j);
      EvalZeros(k, Point(j));
    }
  }

  /** Any k distinct rows of the encoding matrix are invertible. */
  lemma AnyRowsInvertible(k: nat, index: seq<nat>)
    requires 1 <= k <= GF_SIZE + 1 && |index| == k && DistinctIndices(index, GF_SIZE + 1)
    ensures !Singular(SelectedRows(k, index), k)
  {
    hide Apply, SelectedRows;
    forall x: Vector | |x| == k && Apply(SelectedRows(k, index), x) == Zeros(k) ensures x == Zeros(k) {
      OnlyZeroEncodesToZero(k, index, x);
    }
  }

  lemma PolynomialZero(k: nat, index: seq<nat>, a: Vector)
    requires |a| == |index| == k && DistinctIndices(index, GF_SIZE + 1)
    requires forall i :: 0 <= i < k ==> Eval(a, Point(index[i])) == 0
    ensures a == Zeros(k)
  {
    hide Eval, Point;
    var p := seq(k, i requires 0 <= i < k => Point(index[i]));
    forall i, j | 0 <= i < j < k ensures p[i] != p[j] {
      if index[i] < index[j] {
        PointsDiffer(index[i], index[j]);
      } else {
        PointsDiffer(index[j], index[i]);
      }
    }
    ManyRoots(a, p);
  }

  lemma {:induction false} EvalZeros(n: nat, z: gf)
    ensures Eval(Zeros(n), z) == 0
  {
    if n > 0 {
      assert Zeros(n)[1..] == Zeros(n - 1);
      EvalZeros(n - 1, z);
      MulZeros(z);
      AddLaws(0, 0, 0);
    }
  }

  // ----- packets

  /** The packet with the given index: every symbol position is encoded by itself. */
  ghost function EncPacket(k: nat, src: Matrix, w: nat, index: nat): (r: Vector)
    requires k >= 1 && IsMatrix(src, k, w)
    ensures |r| == w
  {
    Combine(EncRow(k, index), src, w)
  }

  lemma EncPacketAt(k: nat, src: Matrix, w: nat, index: nat, j: nat)
    requires k >= 1 && IsMatrix(src, k, w) && j < w
    ensures EncPacket(k, src, w, index)[j] == Dot(EncRow(k, index), Column(src, w, j), k)
  {}

  /** The same for packets: position j of every packet is encoded by its own polynomial. */
  lemma EncodesPackets(k: nat, src: Matrix, w: nat, i: nat, j: nat, a: Vector)
    requires 1 <= k <= GF_SIZE + 1 && IsMatrix(src, k, w) && i <= GF_SIZE && j < w && |a| == k
    requires src[0][j] == Eval(a, 0) && forall l :: 1 <= l < k ==> src[l][j] == Eval(a, Pow(l - 1))
    ensures EncPacket(k, src, w, i)[j] == Eval(a, if i == 0 then 0 else Pow(i - 1))
  {
    hide Eval, EncRow, Dot;
    EncPacketAt(k, src, w, i, j);
    EncodesPolynomial(k, a, Column(src, w, j), i);
  }

  /** A source packet is its own encoding. */
  lemma SourcePacket(k: nat, src: Matrix, w: nat, i: nat)
    requires 1 <= k <= GF_SIZE + 1 && IsMatrix(src, k, w) && i < k
    ensures EncPacket(k, src, w, i) == src[i]
  {
    hide EncRow, Dot;
    Systematic(k, i);
    forall j | 0 <= j < w ensures EncPacket(k, src, w, i)[j] == src[i][j] {
      EncPacketAt(k, src, w, i, j);
      DotUnit(k, i, Column(src, w, j));
    }
  }

  /** k packets with distinct indices determine the source. */
  lemma PacketsDetermineSource(k: nat, w: nat, a: Matrix, b: Matrix, index: seq<nat>)
    requires 1 <= k <= GF_SIZE + 1 && IsMatrix(a, k, w) && IsMatrix(b, k, w)
    requires |index| == k && DistinctIndices(index, GF_SIZE + 1)
    requires forall i :: 0 <= i < k ==> EncPacket(k, a, w, index[i]) == EncPacket(k, b, w, index[i])
    ensures a == b
  {
    hide EncRow, EncPacket, Dot;
    AnyRowsInvertible(k, index);
    forall j | 0 <= j < w ensures Column(a, w, j) == Column(b, w, j) {
      forall i | 0 <= i < k
        ensures Dot(EncRow(k, index[i]), Column(a, w, j), k) == Dot(EncRow(k, index[i]), Column(b, w, j), k)
      {
        EncPacketAt(k, a, w, index[i], j);
        EncPacketAt(k, b, w, index[i], j);
      }
      KernelFree(SelectedRows(k, index), k, Column(a, w, j), Column(b, w, j));
    }
    forall i | 0 <= i < k ensures a[i] == b[i] {
      forall j | 0 <= j < w ensures a[i][j] == b[i][j] {
        assert Column(a, w, j)[i] == Column(b, w, j)[i];
      }
    }
  }

  lemma DifferenceDot(r: Vector, a: Vector, b: Vector, k: nat)
    requires |r| == |a| == |b| == k && Dot(r, a, k) == Dot(r, b, k)
    ensures Dot(r, AddMul(a, b, 1), k) == 0
  {
    hide Add, Mul, Dot;
    DotComm(r, AddMul(a, b, 1), k);
    DotAddMul(a, b, 1, r, k);
    DotComm(r, a, k);
    DotComm(r, b, k);
    MulOne(Dot(b, r, k));
    AddLaws(Dot(a, r, k), 0, 0);
  }

  lemma NoDifference(a: Vector, b: Vector)
    requires |a| == |b| && AddMul(a, b, 1) == Zeros(|a|)
    ensures a == b
  {
    hide Add, Mul;
    forall i | 0 <= i < |a| ensures a[i] == b[i] {
      assert AddMul(a, b, 1)[i] == 0;
      MulOne(b[i]);
      AddCancel(a[i], b[i]);
    }
  }

  lemma KernelFree(m: Matrix, k: nat, a: Vector, b: Vector)
    requires IsMatrix(m, k, k) && !Singular(m, k) && |a| == |b| == k
    requires forall i :: 0 <= i < k ==> Dot(m[i], a, k) == Dot(m[i], b, k)
    ensures a == b
  {
    hide Dot, AddMul;
    var d := AddMul(a, b, 1);
    forall i | 0 <= i < k ensures Apply(m, d)[i] == 0 {
      DifferenceDot(m[i], a, b, k);
    }
    assert Apply(m, d) == Zeros(k);
    NoDifference(a, b);
  }
}
