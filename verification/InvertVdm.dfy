/** invert_vdm: in-place inversion of a Vandermonde matrix by synthetic division. */
module InvertVdm {
  import opened Field
  import opened FieldLaws
  import opened Linear
  import opened Tables
  import opened Kernels
  import opened GaussJordan
  import opened InvertMat
  import opened Polynomials
  import opened Vandermonde

  ghost predicate HoldsMaster(c: Vector, p: Vector, i: nat)
    requires 1 <= i <= |p| == |c|
  {
    && c[|p| - i + 1..] + [1] == CodeMaster(p, i)
    && c[|p| - i] == (if i == 1 then p[0] else 0)
    && forall j :: 0 <= j < |p| - i ==> c[j] == 0
  }

  /** One stage of the coefficient loop: multiply by x + p[i], except for the constant. */
  ghost function Stage(c: Vector, x: gf, i: nat, j: nat): (r: Vector)
    requires i <= |c| && j <= |c|
    ensures |r| == |c|
  {
    seq(|c|, l requires 0 <= l < |c| =>
      if |c| - i <= l < j then Add(c[l], Mul(x, if l + 1 < |c| then c[l + 1] else 1)) else c[l])
  }

  lemma MasterAt(c: Vector, p: Vector, i: nat, j: nat)
    requires 1 <= i <= |p| == |c| && HoldsMaster(c, p, i) && j < i
    ensures CodeMaster(p, i)[j] == if j == i - 1 then 1 else c[|p| - i + 1 + j]
  {
    hide CodeMaster;
    assert CodeMaster(p, i)[j] == (c[|p| - i + 1..] + [1])[j];
  }

  lemma StageAt(c: Vector, x: gf, i: nat, l: nat)
    requires i <= |c| && |c| - i <= l < |c|
    ensures Stage(c, x, i, |c|)[l] == Add(c[l], Mul(x, if l + 1 < |c| then c[l + 1] else 1))
  {}

  lemma StageEntry(c: Vector, p: Vector, i: nat, j: nat)
    requires 1 <= i < |p| == |c| && HoldsMaster(c, p, i) && j < i
    ensures Stage(c, p[i], i, |c|)[|p| - i + j] == CodeMaster(p, i + 1)[j]
  {
    MasterAt(c, p, i, j);
    if j > 0 {
      MasterAt(c, p, i, j - 1);
    }
    StageAt(c, p[i], i, |p| - i + j);
    CodeMasterAt(p, i, j);
    hide Add, Mul, Stage, CodeMaster;
  }

  lemma CodeMasterAt(p: Vector, i: nat, j: nat)
    requires 1 <= i < |p| && j < i
    ensures CodeMaster(p, i + 1)[j] ==
            Add(if j > 0 then CodeMaster(p, i)[j - 1] else if i == 1 then p[0] else 0, Mul(p[i], CodeMaster(p, i)[j]))
  {
    hide Add, Mul;
    if i == 1 {
      MulOne(p[1]);
    } else {
      AddLaws(0, Mul(p[i], CodeMaster(p, i)[0]), 0);
    }
  }

  lemma StageMaster(c: Vector, p: Vector, i: nat)
    requires 1 <= i < |p| == |c| && HoldsMaster(c, p, i)
    ensures HoldsMaster(Stage(c, p[i], i, |c|), p, i + 1)
  {
    hide Add, Mul, MulRoot;
    var k, d := |p|, Stage(c, p[i], i, |c|);
    var tail := d[k - i..];
    forall j | 0 <= j < i ensures tail[j] == CodeMaster(p, i + 1)[j] {
      StageEntry(c, p, i, j);
    }
    CodeMasterLast(p, i + 1);
    hide CodeMaster, Stage;
    assert tail + [1] == CodeMaster(p, i + 1);
  }

  lemma {:induction false} CodeMasterLast(p: Vector, i: nat)
    requires 1 <= i <= |p|
    ensures CodeMaster(p, i)[i - 1] == 1
  {
    hide MulRoot;
    if i > 2 {
      CodeMasterLast(p, i - 1);
      MulRootTop(CodeMaster(p, i - 1), p[i - 1]);
    }
  }

  lemma StageNext(c: Vector, x: gf, i: nat, j: nat)
    requires i <= |c| && |c| - i <= j < |c|
    ensures Stage(c, x, i, j)[j] == c[j] && (j + 1 < |c| ==> Stage(c, x, i, j)[j + 1] == c[j + 1])
    ensures Stage(c, x, i, j + 1) ==
            Stage(c, x, i, j)[j := Add(c[j], Mul(x, if j + 1 < |c| then c[j + 1] else 1))]
  {
    hide Add, Mul;
  }

  lemma StageStart(c: Vector, x: gf, i: nat)
    requires i <= |c|
    ensures Stage(c, x, i, |c| - i) == c
  {}

  /** One stage of the coefficient loop. */
  method MasterStage(t: GfTables, p: array<gf>, c: array<gf>, k: nat, i: nat)
    requires t.Valid() && p != c && p.Length == c.Length == k && 1 <= i < k
    modifies c
    ensures c[..] == Stage(old(c[..]), p[i], i, k)
  {
    hide Add, Mul, GfTables.Valid, Stage;
    ghost var was := c[..];
    var x := p[i];
    StageStart(was, x, i);
    for j := k - i to k - 1
      invariant c[..] == Stage(was, x, i, j)
    {
      StageNext(was, x, i, j);
      assert c[j] == c[..][j] && c[j + 1] == c[..][j + 1];
      AddIsXor(c[j], GfMul(t, x, c[j + 1]));
      c[j] := Xor(c[j], GfMul(t, x, c[j + 1]));
    }
    StageNext(was, x, i, k - 1);
    assert c[k - 1] == c[..][k - 1];
    MulOne(x);
    AddIsXor(c[k - 1], x);
    c[k - 1] := Xor(c[k - 1], x);
  }

  /** The coefficients of the master polynomial. */
  method MasterCoefficients(t: GfTables, p: array<gf>, c: array<gf>, k: nat)
    requires t.Valid() && p != c && p.Length == c.Length == k >= 2
    requires forall i :: 0 <= i < k ==> c[i] == 0
    modifies c
    ensures HoldsMaster(c[..], p[..], k)
  {
    hide GfTables.Valid, CodeMaster, Stage;
    c[k - 1] := p[0];
    MasterFirst(p[..]);
    assert c[k..] == [];
    for i := 1 to k
      invariant HoldsMaster(c[..], p[..], i)
    {
      StageMaster(c[..], p[..], i);
      MasterStage(t, p, c, k, i);
    }
  }

  lemma MasterFirst(p: Vector)
    requires p != []
    ensures CodeMaster(p, 1) == [1]
  {}

  lemma SynthDivNext(h: Vector, xx: gf, i: nat)
    requires i + 1 < |h|
    ensures var q := SynthDiv(h, xx);
            q[i] == Add(h[i], Mul(xx, q[i + 1])) && Eval(q[i..], xx) == Add(q[i], Mul(xx, Eval(q[i + 1..], xx)))
  {
    hide Add, Mul, SynthDiv;
    var q := SynthDiv(h, xx);
    SynthDivAt(h, xx, i);
    SynthDivAt(h, xx, i + 1);
    assert h[i..][1..] == h[i + 1..] && q[i..][1..] == q[i + 1..];
  }

  lemma SynthDivLast(h: Vector, xx: gf)
    requires h != [] && h[|h| - 1] == 1
    ensures var q := SynthDiv(h, xx); q[|h| - 1] == 1 && Eval(q[|h| - 1..], xx) == 1
  {
    hide SynthDiv;
    SynthDivAt(h, xx, |h| - 1);
    EvalSingle(h[|h| - 1..], xx);
    EvalSingle(SynthDiv(h, xx)[|h| - 1..], xx);
  }

  /** Synthetic division by x - xx and the Horner value t of the quotient at xx. */
  method DivideMaster(tb: GfTables, c: array<gf>, b: array<gf>, k: nat, xx: gf, ghost h: Vector) returns (t: gf)
    requires tb.Valid() && c != b && c.Length == b.Length == k >= 2
    requires h == c[1..] + [1]
    modifies b
    ensures b[..] == SynthDiv(h, xx) && t == Eval(SynthDiv(h, xx), xx)
  {
    hide Add, Mul, GfTables.Valid, SynthDiv, Eval;
    ghost var q := SynthDiv(h, xx);
    t := 1;
    b[k - 1] := 1;
    SynthDivLast(h, xx);
    var i := k - 2;
    while i >= 0
      invariant -1 <= i <= k - 2
      invariant b[i + 1..] == q[i + 1..]
      invariant t == Eval(q[i + 1..], xx)
    {
      assert b[i + 1] == b[i + 1..][0] == q[i + 1];
      SynthDivNext(h, xx, i);
      AddIsXor(c[i + 1], GfMul(tb, xx, b[i + 1]));
      b[i] := Xor(c[i + 1], GfMul(tb, xx, b[i + 1]));
      AddIsXor(GfMul(tb, xx, t), b[i]);
      AddLaws(GfMul(tb, xx, t), b[i], 0);
      t := Xor(GfMul(tb, xx, t), b[i]);
      assert b[i..] == [b[i]] + b[i + 1..] && q[i..] == [q[i]] + q[i + 1..];
      i := i - 1;
    }
    WholeSlice(q);
    WholeSlice(b[..]);
    assert b[..][0..] == b[0..];
  }

  lemma WholeSlice(q: Vector)
    ensures q[0..] == q
  {}

  /** Columns of the result that are stored already. */
  ghost predicate Stored(m: Matrix, h: Vector, p: Vector, n: nat)
    requires |h| == |p| && n <= |p| && IsMatrix(m, |p|, |p|)
  {
    forall i, j :: 0 <= i < |p| && 0 <= j < n ==> m[i][j] == FromColumns(h, p)[i][j]
  }

  method StoreColumn(tb: GfTables, src: array<gf>, b: array<gf>, k: nat, row: nat, t: gf)
    requires tb.Valid() && src != b && b.Length == k && row < k && At(k, k) <= src.Length
    modifies src
    ensures forall i :: At(k, k) <= i < src.Length ==> src[i] == old(src[i])
    ensures var m: Matrix := Rows(old(src[..]), 0, k, k);
            forall i :: 0 <= i < k ==> Rows(src[..], 0, k, k)[i] == m[i][row := Mul(Inv(t), b[i])]
  {
    hide At, Rows, Mul, Inv;
    ghost var m: Matrix := Rows(src[..], 0, k, k);
    for col := 0 to k
      invariant forall i :: 0 <= i < col ==> Rows(src[..], 0, k, k)[i] == m[i][row := Mul(Inv(t), b[i])]
      invariant forall i :: col <= i < k ==> Rows(src[..], 0, k, k)[i] == m[i]
      invariant forall i :: At(k, k) <= i < src.Length ==> src[i] == old(src[i])
    {
      ghost var before := src[..];
      RowsAt(before, 0, k, k, col);
      src[At(col, k) + row] := GfMul(tb, tb.inverse[t], b[col]);
      RowsUpdate(before, src[..], k, k, col);
      assert src[At(col, k)..At(col, k) + k] == before[At(col, k)..At(col, k) + k][row := Mul(Inv(t), b[col])];
    }
  }

  lemma StoredNext(m: Matrix, m': Matrix, h: Vector, p: Vector, n: nat)
    requires |h| == |p| && n < |p| && IsMatrix(m, |p|, |p|) && IsMatrix(m', |p|, |p|)
    requires Stored(m, h, p, n)
    requires var q := SynthDiv(h, p[n]);
             forall i :: 0 <= i < |p| ==> m'[i] == m[i][n := Mul(Inv(Eval(q, p[n])), q[i])]
    ensures Stored(m', h, p, n + 1)
  {
    hide Mul, Inv, SynthDiv, Eval;
  }

  /** The points are the second column of the matrix. */
  method LoadPoints(src: array<gf>, k: nat, p: array<gf>, c: array<gf>)
    requires k >= 2 && At(k, k) <= src.Length && p.Length == c.Length == k && p != c && p != src && c != src
    modifies p, c
    ensures p[..] == Column(Rows(src[..], 0, k, k), k, 1)
    ensures forall i :: 0 <= i < k ==> c[i] == 0
  {
    hide At, Rows;
    ghost var points := Column(Rows(src[..], 0, k, k), k, 1);
    var j := 1;
    AtNext(0, k);
    for i := 0 to k
      invariant j == At(i, k) + 1
      invariant forall l :: 0 <= l < i ==> p[l] == points[l]
      invariant forall l :: 0 <= l < i ==> c[l] == 0
    {
      RowsAt(src[..], 0, k, k, i);
      AtNext(i, k);
      c[i] := 0;
      p[i] := src[j];
      j := j + k;
    }
  }

  method StoreColumns(tb: GfTables, src: array<gf>, k: nat, p: array<gf>, c: array<gf>, ghost h: Vector)
    requires tb.Valid() && k >= 2 && At(k, k) <= src.Length && p.Length == c.Length == k && p != src && c != src
    requires h == c[1..] + [1]
    modifies src
    ensures forall i :: At(k, k) <= i < src.Length ==> src[i] == old(src[i])
    ensures Rows(src[..], 0, k, k) == FromColumns(h, p[..])
  {
    hide At, Rows, Mul, Inv, GfTables.Valid, FromColumns, SynthDiv, Eval, Stored;
    var b := new gf[k];
    StoredNone(Rows(src[..], 0, k, k), h, p[..]);
    for row := 0 to k
      invariant Stored(Rows(src[..], 0, k, k), h, p[..], row)
      invariant forall i :: At(k, k) <= i < src.Length ==> src[i] == old(src[i])
    {
      ghost var m := Rows(src[..], 0, k, k);
      var t := DivideMaster(tb, c, b, k, p[row], h);
      StoreColumn(tb, src, b, k, row, t);
      StoredNext(m, Rows(src[..], 0, k, k), h, p[..], row);
    }
    StoredAll(Rows(src[..], 0, k, k), h, p[..]);
  }

  lemma StoredNone(m: Matrix, h: Vector, p: Vector)
    requires |h| == |p| && IsMatrix(m, |p|, |p|)
    ensures Stored(m, h, p, 0)
  {}

  /** invert_vdm. Only the first k * k entries are touched. */
  method InvertVdm(tb: GfTables, src: array<gf>, k: nat)
    requires tb.Valid() && k >= 1 && At(k, k) <= src.Length
    modifies src
    ensures forall i :: At(k, k) <= i < src.Length ==> src[i] == old(src[i])
    ensures k == 1 ==> src[..] == old(src[..])
    ensures k >= 2 ==>
              var p := Column(Rows(old(src[..]), 0, k, k), k, 1);
              Rows(src[..], 0, k, k) == FromColumns(CodeMaster(p, k), p)
  {
    if k == 1 {
      return;
    }
    hide At, Rows, CodeMaster, FromColumns, GfTables.Valid;
    var c, p := new gf[k], new gf[k];
    LoadPoints(src, k, p, c);
    MasterCoefficients(tb, p, c, k);
    assert c[1..] + [1] == CodeMaster(p[..], k);
    StoreColumns(tb, src, k, p, c, CodeMaster(p[..], k));
  }

  lemma StoredAll(m: Matrix, h: Vector, p: Vector)
    requires |h| == |p| && IsMatrix(m, |p|, |p|) && Stored(m, h, p, |p|)
    ensures m == FromColumns(h, p)
  {
    forall i | 0 <= i < |p| ensures m[i] == FromColumns(h, p)[i] {}
  }
}
