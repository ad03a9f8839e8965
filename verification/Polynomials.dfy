/** Polynomials over GF(2^16), lowest coefficient first: evaluation, synthetic
    division, and the bound on the number of roots. */
module Polynomials {
  import opened Field
  import opened FieldLaws
  import opened Linear

  function Power(z: gf, i: nat): gf {
    if i == 0 then 1 else Mul(Power(z, i - 1), z)
  }

  /** The row (1, z, z^2, ...) of a Vandermonde matrix. */
  function PowerRow(z: gf, n: nat): (r: Vector)
    ensures |r| == n
  {
    seq(n, i requires 0 <= i < n => Power(z, i))
  }

  function Eval(a: Vector, z: gf): gf {
    if a == [] then 0 else Add(a[0], Mul(z, Eval(a[1..], z)))
  }

  /** Synthetic division: entry i is the value at x of the coefficients from i on. */
  function SynthDiv(a: Vector, x: gf): (q: Vector)
    ensures |q| == |a|
  {
    if a == [] then [] else [Eval(a, x)] + SynthDiv(a[1..], x)
  }

  lemma {:induction false} SynthDivAt(a: Vector, x: gf, i: nat)
    requires i < |a|
    ensures SynthDiv(a, x)[i] == Eval(a[i..], x)
  {
    if i > 0 {
      SynthDivAt(a[1..], x, i - 1);
      assert a[1..][i - 1..] == a[i..];
    } else {
      assert a[0..] == a;
    }
  }

  /** a(z) - a(x) = (z - x) * q(z) for the quotient q of a by z - x. */
  lemma {:induction false} Division(a: Vector, x: gf, z: gf)
    requires a != []
    ensures Add(Eval(a, z), Eval(a, x)) == Mul(Add(z, x), Eval(SynthDiv(a[1..], x), z))
  {
    hide Add, Mul;
    var r := a[1..];
    var u, v := Eval(r, z), Eval(r, x);
    AddCommonHead(a[0], Mul(z, u), Mul(x, v));
    if r == [] {
      MulZeros(z);
      MulZeros(x);
      MulZeros(Add(z, x));
      AddLaws(0, 0, 0);
    } else {
      Division(r, x, z);
      var q := Eval(SynthDiv(r[1..], x), z);
      assert SynthDiv(r, x) == [v] + SynthDiv(r[1..], x);
      assert Eval(SynthDiv(r, x), z) == Add(v, Mul(z, q)) by {
        assert SynthDiv(r, x)[1..] == SynthDiv(r[1..], x);
      }
      DivisionAlgebra(z, x, u, v, q);
    }
  }

  lemma AddCommonHead(a: gf, b: gf, c: gf)
    ensures Add(Add(a, b), Add(a, c)) == Add(b, c)
  {
    hide Add;
    AddSwap(a, b, a, c);
    AddLaws(a, a, a);
    AddLaws(Add(b, c), 0, 0);
  }

  lemma DivisionAlgebra(z: gf, x: gf, u: gf, v: gf, q: gf)
    requires Add(u, v) == Mul(Add(z, x), q)
    ensures Add(Mul(z, u), Mul(x, v)) == Mul(Add(z, x), Add(v, Mul(z, q)))
  {
    hide Add, Mul;
    var s := Add(z, x);
    // z*u + x*v = z*(u + v) + (z + x)*v
    MulAdd(u, v, z);
    MulAdd(z, x, v);
    AddInsert(Mul(z, u), Mul(z, v), Mul(x, v));
    // z*(s*q) = s*(z*q)
    MulAssoc(z, s, q);
    MulComm(z, s);
    MulAssoc(s, z, q);
    MulAdd(v, Mul(z, q), s);
    AddLaws(Mul(s, v), Mul(s, Mul(z, q)), 0);
  }

  // ----- roots

  ghost predicate DistinctPoints(p: Vector) {
    forall i, j :: 0 <= i < j < |p| ==> p[i] != p[j]
  }

  /** A polynomial with as many roots as coefficients is 0. */
  lemma {:induction false} ManyRoots(a: Vector, p: Vector)
    requires DistinctPoints(p) && |p| >= |a|
    requires forall i :: 0 <= i < |p| ==> Eval(a, p[i]) == 0
    ensures a == Zeros(|a|)
    decreases |a|
  {
    if a != [] {
      hide Add, Mul, Eval;
      var r, q := p[0], SynthDiv(a[1..], p[0]);
      forall i | 0 <= i < |p[1..]| ensures Eval(q, p[1..][i]) == 0 {
        var z := p[1..][i];
        Division(a, r, z);
        AddLaws(0, 0, 0);
        AddCancel(z, r);
        MulNonzero(Add(z, r), Eval(q, z));
      }
      ManyRoots(q, p[1..]);
      ZeroQuotient(a, r);
    }
  }

  lemma ZeroQuotient(a: Vector, r: gf)
    requires a != [] && Eval(a, r) == 0 && SynthDiv(a[1..], r) == Zeros(|a| - 1)
    ensures a == Zeros(|a|)
  {
    hide Add, Mul;
    forall i | 0 <= i < |a| ensures a[i] == 0 {
      SuffixZero(a, r, i);
      SuffixZero(a, r, i + 1);
      assert a[i..][1..] == a[i + 1..];
      MulZeros(r);
      AddLaws(a[i], 0, 0);
    }
  }

  lemma SuffixZero(a: Vector, r: gf, i: nat)
    requires a != [] && Eval(a, r) == 0 && SynthDiv(a[1..], r) == Zeros(|a| - 1) && i <= |a|
    ensures Eval(a[i..], r) == 0
  {
    if i == 0 {
      assert a[0..] == a;
    } else if i < |a| {
      SynthDivAt(a[1..], r, i - 1);
      assert a[1..][i - 1..] == a[i..];
    }
  }

  // ----- evaluation as a product with a row of powers

  lemma {:induction false} EvalAppend(a: Vector, c: gf, z: gf)
    ensures Eval(a + [c], z) == Add(Eval(a, z), Mul(Power(z, |a|), c))
  {
    hide Add, Mul;
    if a == [] {
      assert a + [c] == [c] && [c][1..] == [];
      MulZeros(z);
      MulOne(c);
      AddLaws(c, 0, 0);
    } else {
      assert (a + [c])[1..] == a[1..] + [c];
      EvalAppend(a[1..], c, z);
      var e, w := Eval(a[1..], z), Mul(Power(z, |a| - 1), c);
      MulAdd(e, w, z);
      AddLaws(a[0], Mul(z, e), Mul(z, w));
      MulAssoc(z, Power(z, |a| - 1), c);
      MulComm(z, Power(z, |a| - 1));
    }
  }

  lemma {:induction false} EvalDot(a: Vector, z: gf, n: nat)
    requires |a| <= n
    ensures Dot(PowerRow(z, n), a, |a|) == Eval(a, z)
  {
    hide Add, Mul, Power;
    if a != [] {
      var b := a[..|a| - 1];
      EvalDot(b, z, n);
      DotEqual(PowerRow(z, n), a, PowerRow(z, n), b, |b|);
      EvalAppend(b, a[|a| - 1], z);
      assert b + [a[|a| - 1]] == a;
    }
  }

  // ----- products with x + p

  /** (x + p) * a. */
  function MulRoot(a: Vector, p: gf): (r: Vector)
    ensures |r| == |a| + 1
  {
    AddMul([0] + a, a + [0], p)
  }

  lemma {:induction false} EvalAddMul(a: Vector, b: Vector, c: gf, z: gf)
    requires |a| == |b|
    ensures Eval(AddMul(a, b, c), z) == Add(Eval(a, z), Mul(c, Eval(b, z)))
  {
    hide Add, Mul;
    if a == [] {
      MulZeros(c);
      AddLaws(0, 0, 0);
    } else {
      EvalAddMul(a[1..], b[1..], c, z);
      assert AddMul(a, b, c)[1..] == AddMul(a[1..], b[1..], c);
      var u, v := Eval(a[1..], z), Eval(b[1..], z);
      MulAdd(u, Mul(c, v), z);
      MulAdd(b[0], Mul(z, v), c);
      MulAssoc(z, c, v);
      MulComm(z, c);
      MulAssoc(c, z, v);
      AddSwap(a[0], Mul(c, b[0]), Mul(z, u), Mul(c, Mul(z, v)));
    }
  }

  lemma EvalMulRoot(a: Vector, p: gf, z: gf)
    ensures Eval(MulRoot(a, p), z) == Mul(Add(z, p), Eval(a, z))
  {
    hide Add, Mul, Power;
    EvalAddMul([0] + a, a + [0], p, z);
    EvalAppend(a, 0, z);
    MulZeros(Power(z, |a|));
    AddLaws(Eval(a, z), 0, 0);
    assert ([0] + a)[1..] == a;
    AddLaws(Mul(z, Eval(a, z)), 0, 0);
    MulAdd(z, p, Eval(a, z));
  }
}
