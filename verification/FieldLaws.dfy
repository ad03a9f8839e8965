/** The non-zero elements are exactly the powers of alpha, and therefore Add and
    Mul form a field. */
module FieldLaws {
  import opened Field
  import opened Primitive

  // ----- n distinct numbers between 1 and n are all of them

  ghost function Range(n: nat): (r: set<nat>)
    ensures forall v :: v in r <==> 1 <= v <= n
  {
    if n == 0 then {} else Range(n - 1) + {n}
  }

  lemma {:induction false} RangeSize(n: nat)
    ensures |Range(n)| == n
  {
    if n > 0 {
      RangeSize(n - 1);
    }
  }

  ghost predicate Distinct(s: seq<nat>) {
    forall i, j :: 0 <= i < j < |s| ==> s[i] != s[j]
  }

  ghost function Elements(s: seq<nat>): (r: set<nat>)
    ensures forall v :: v in r <==> v in s
  {
    if s == [] then {} else Elements(s[..|s| - 1]) + {s[|s| - 1]}
  }

  lemma {:induction false} DistinctSize(s: seq<nat>)
    requires Distinct(s)
    ensures |Elements(s)| == |s|
  {
    if s != [] {
      DistinctSize(s[..|s| - 1]);
    }
  }

  lemma Pigeonhole(s: seq<nat>, v: nat)
    requires Distinct(s) && (forall i :: 0 <= i < |s| ==> 1 <= s[i] <= |s|)
    requires 1 <= v <= |s|
    ensures v in s
  {
    RangeSize(|s|);
    DistinctSize(s);
    var missing := Range(|s|) - Elements(s);
    assert Elements(s) <= Range(|s|);
    assert |missing| == |Range(|s|)| - |Elements(s)|;
    assert v in Range(|s|);
    assert v !in missing;
  }

  // ----- logarithms

  /** Every non-zero element is a power of alpha. */
  lemma LogExists(x: gf)
    requires x != 0
    ensures exists i: nat :: i < GF_SIZE && Pow(i) == x
  {
    hide Pow;
    var s := seq(GF_SIZE, (i: nat) => Pow(i) as nat);
    forall i, j | 0 <= i < j < |s| ensures s[i] != s[j] {
      PowDistinct(i, j);
    }
    forall i | 0 <= i < |s| ensures 1 <= s[i] <= |s| {
      PowNonzero(i);
    }
    Pigeonhole(s, x);
    var i :| 0 <= i < |s| && s[i] == x;
  }

  ghost function Log(x: gf): (i: nat)
    requires x != 0
    ensures i < GF_SIZE && Pow(i) == x
  {
    LogExists(x);
    var i: nat :| i < GF_SIZE && Pow(i) == x;
    i
  }

  lemma LogUnique(x: gf, i: nat)
    requires i < GF_SIZE && Pow(i) == x
    ensures x != 0 && Log(x) == i
  {
    PowNonzero(i);
    hide Pow;
    if Log(x) < i {
      PowDistinct(Log(x), i);
    } else if i < Log(x) {
      PowDistinct(i, Log(x));
    }
  }

  // ----- the multiplicative laws

  lemma MulZeros(a: gf)
    ensures Mul(a, 0) == 0 && Mul(0, a) == 0
  {
    MulComm(a, 0);
  }

  lemma {:induction false} MulZeroLeft(b: gf)
    ensures Mul(0, b) == 0
    decreases b
  {
    if b != 0 {
      XtimeZero();
      AddLaws(0, 0, 0);
      MulZeroLeft(b / 2);
    }
  }

  lemma MulPowers(a: gf, b: gf)
    requires a != 0 && b != 0
    ensures Mul(a, b) == Pow(Log(a) + Log(b)) && Mul(a, b) != 0
  {
    PowAdd(Log(a), Log(b));
    PowNonzero(Log(a) + Log(b));
  }

  lemma MulComm(a: gf, b: gf)
    ensures Mul(a, b) == Mul(b, a)
  {
    if a == 0 {
      MulZeroLeft(b);
      MulZero(b);
    } else if b == 0 {
      MulZeroLeft(a);
      MulZero(a);
    } else {
      hide Mul, Pow;
      MulPowers(a, b);
      MulPowers(b, a);
    }
  }

  lemma MulAssoc(a: gf, b: gf, c: gf)
    ensures Mul(Mul(a, b), c) == Mul(a, Mul(b, c))
  {
    hide Mul, Pow;
    MulZeros(a);
    MulZeros(b);
    MulZeros(c);
    MulZeros(Mul(a, b));
    MulZeros(Mul(b, c));
    if a != 0 && b != 0 && c != 0 {
      PowAssoc(Log(a), Log(b), Log(c));
    }
  }

  lemma PowAssoc(i: nat, j: nat, k: nat)
    ensures Mul(Mul(Pow(i), Pow(j)), Pow(k)) == Mul(Pow(i), Mul(Pow(j), Pow(k)))
  {
    hide Mul, Pow;
    PowAdd(i, j);
    PowAdd(i + j, k);
    PowAdd(j, k);
    PowAdd(i, j + k);
  }

  lemma MulOne(a: gf)
    ensures Mul(a, 1) == a && Mul(1, a) == a
  {
    hide Mul;
    MulOneLeft(a);
    MulComm(a, 1);
  }

  lemma MulAdd(a: gf, b: gf, c: gf)
    ensures Mul(Add(a, b), c) == Add(Mul(a, c), Mul(b, c))
    ensures Mul(c, Add(a, b)) == Add(Mul(c, a), Mul(c, b))
  {
    hide Mul, Add;
    MulAddLeft(a, b, c);
    MulComm(Add(a, b), c);
    MulComm(a, c);
    MulComm(b, c);
  }

  /** The entry of fec.c's inverse table for a; 0 has no inverse and maps to 0. */
  ghost function Inv(a: gf): gf {
    if a == 0 then 0 else Pow(GF_SIZE - Log(a))
  }

  lemma MulInv(a: gf)
    requires a != 0
    ensures Mul(Inv(a), a) == 1 && Mul(a, Inv(a)) == 1 && Inv(a) != 0
  {
    hide Mul, Pow;
    var i := Log(a);
    PowAdd(GF_SIZE - i, i);
    PowAdd(i, GF_SIZE - i);
    PowOrder();
    PowNonzero(GF_SIZE - i);
  }

  lemma MulNonzero(a: gf, b: gf)
    ensures Mul(a, b) == 0 <==> a == 0 || b == 0
  {
    hide Mul;
    if a != 0 && b != 0 {
      MulPowers(a, b);
    }
    MulZeros(a);
    MulZeros(b);
  }
}
