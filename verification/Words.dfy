/** Products of 16-bit machine words, which the solver evaluates on constants,
    agree with Mul. Primitive computes large powers of alpha with them. */
module Words {
  import opened Field

  predicate Odd(v: bv16) { v & 1 == 1 }

  function Half(v: bv16): bv16 { v >> 1 }

  function Plus(v: bv16, w: bv16): bv16 { v ^ w }

  /** The number a word stands for. */
  function Val(v: bv16): nat
    decreases v
  {
    if v == 0 then 0 else (if Odd(v) then 1 else 0) + 2 * Val(Half(v))
  }

  function XtimeWord(a: bv16): bv16 {
    (a << 1) ^ (if a & 0x8000 == 0 then 0 else 0x100B)
  }

  function Term(c: bool, a: bv16): bv16 { if c then a else 0 }

  /** a times the low two bits of b, and a times x^2. */
  function Mul2(a: bv16, b: bv16): bv16 {
    Plus(Term(b & 1 == 1, a), Term(b & 2 == 2, XtimeWord(a)))
  }

  function X2(a: bv16): bv16 { XtimeWord(XtimeWord(a)) }

  function Drop2(b: bv16): bv16 { b >> 2 }

  function Mul4(a: bv16, b: bv16): bv16 {
    Plus(Mul2(a, b), Mul2(X2(a), Drop2(b)))
  }

  function X4(a: bv16): bv16 { X2(X2(a)) }

  function Drop4(b: bv16): bv16 { Drop2(Drop2(b)) }

  function Mul8(a: bv16, b: bv16): bv16 {
    Plus(Mul4(a, b), Mul4(X4(a), Drop4(b)))
  }

  function X8(a: bv16): bv16 { X4(X4(a)) }

  function Drop8(b: bv16): bv16 { Drop4(Drop4(b)) }

  /** The product of two words, as four-bit pieces of b. */
  function MulWord(a: bv16, b: bv16): bv16 {
    Plus(Mul8(a, b), Mul8(X8(a), Drop8(b)))
  }

  lemma WordXorHalf(v: bv16, w: bv16)
    ensures Half(Plus(v, w)) == Plus(Half(v), Half(w))
    ensures Odd(Plus(v, w)) <==> (Odd(v) != Odd(w))
  {
    assert (v ^ w) & 1 == (v & 1) ^ (w & 1);
  }

  lemma SameBits(v: bv16, w: bv16)
    requires Half(v) == Half(w) && Odd(v) == Odd(w)
    ensures v == w
  {}

  lemma ValUnfold(v: bv16)
    ensures Val(v) == (if Odd(v) then 1 else 0) + 2 * Val(Half(v))
  {}

  lemma {:induction false} ValXor(v: bv16, w: bv16)
    ensures Val(Plus(v, w)) == Xor(Val(v), Val(w))
    decreases Val(v) + Val(w)
  {
    hide Xor, Half, Odd, Plus;
    if Val(v) + Val(w) == 0 {
      ZeroXor(v, w);
    } else {
      ValUnfold(v);
      ValUnfold(w);
      hide Val;
      ValXor(Half(v), Half(w));
      ValXorStep(v, w);
    }
  }

  lemma ZeroXor(v: bv16, w: bv16)
    requires Val(v) == 0 && Val(w) == 0
    ensures Val(Plus(v, w)) == Xor(0, 0)
  {
    ValZero(v);
    ValZero(w);
  }

  lemma ValXorStep(v: bv16, w: bv16)
    requires Val(Plus(Half(v), Half(w))) == Xor(Val(Half(v)), Val(Half(w)))
    ensures Val(Plus(v, w)) == Xor(Val(v), Val(w))
  {
    hide Val, Xor, Half, Odd, Plus;
    ValUnfold(v);
    ValUnfold(w);
    ValUnfold(Plus(v, w));
    WordXorHalf(v, w);
    XorStep(Val(v), Val(w), Val(Half(v)), Val(Half(w)), if Odd(v) then 1 else 0, if Odd(w) then 1 else 0);
  }

  lemma {:induction false} ValInjective(v: bv16, w: bv16)
    requires Val(v) == Val(w)
    ensures v == w
    decreases Val(v)
  {
    ValUnfold(v);
    ValUnfold(w);
    if Val(v) == 0 {
      ValZero(v);
      ValZero(w);
    } else {
      hide Val, Half, Odd;
      ValInjective(Half(v), Half(w));
      SameBits(v, w);
    }
  }

  lemma {:induction false} ValZero(v: bv16)
    requires Val(v) == 0
    ensures v == 0
    decreases v
  {
    if v != 0 {
      ValZero(Half(v));
      SameBits(v, 0);
    }
  }

  function Mask(v: bv16, m: bv16): bv16 { v & m }

  /** Clearing bits makes a number smaller. */
  lemma {:induction false} ValMask(v: bv16, m: bv16)
    ensures Val(Mask(v, m)) <= Val(m)
    decreases Val(m)
  {
    hide Half, Odd, Mask;
    if Val(m) == 0 {
      ZeroMask(v, m);
    } else {
      ValUnfold(m);
      hide Val;
      ValMask(Half(v), Half(m));
      ValUnfold(Mask(v, m));
      MaskHalf(v, m);
    }
  }

  lemma ZeroMask(v: bv16, m: bv16)
    requires Val(m) == 0
    ensures Val(Mask(v, m)) == 0
  {
    ValZero(m);
  }

  lemma MaskHalf(v: bv16, m: bv16)
    ensures Half(Mask(v, m)) == Mask(Half(v), Half(m))
    ensures Odd(Mask(v, m)) ==> Odd(m)
  {
    assert (v & m) & 1 == (v & 1) & (m & 1);
  }

  lemma LowWord(a: bv16)
    requires a & 0x8000 == 0
    ensures Mask(a, 0x7FFF) == a && XtimeWord(a) == a << 1
    ensures Half(a << 1) == a && !Odd(a << 1)
  {}

  lemma HighWord(a: bv16, b: bv16)
    requires a & 0x8000 != 0 && b == a & 0x7FFF
    ensures a == Plus(b, 0x8000) && b & 0x8000 == 0
    ensures XtimeWord(a) == Plus(b << 1, 0x100B)
  {
    TopSet(a);
    assert a << 1 == (a & 0x7FFF) << 1;
  }

  lemma TopSet(a: bv16)
    requires a & 0x8000 != 0
    ensures a == (a & 0x7FFF) ^ 0x8000
  {}

  /** Multiplication by x on words is Xtime on their values. */
  lemma ValXtime(a: bv16)
    ensures Val(a) < 0x10000 && Val(XtimeWord(a)) == Xtime(Val(a))
  {
    if a & 0x8000 == 0 {
      ValXtimeLow(a);
    } else {
      ValXtimeHigh(a, a & 0x7FFF);
    }
  }

  lemma ValXtimeLow(a: bv16)
    requires a & 0x8000 == 0
    ensures Val(a) < 0x8000 && Val(a << 1) == 2 * Val(a)
    ensures Val(XtimeWord(a)) == 2 * Val(a)
  {
    hide Val, XtimeWord, Half, Odd, Mask;
    ValConstants();
    ValMask(a, 0x7FFF);
    LowWord(a);
    ValUnfold(a << 1);
  }

  lemma ValXtimeHigh(a: bv16, b: bv16)
    requires a & 0x8000 != 0 && b == a & 0x7FFF
    ensures Val(a) < 0x10000 && Val(XtimeWord(a)) == Xtime(Val(a))
  {
    hide Val, XtimeWord, Xtime, Plus, Xor;
    HighWord(a, b);
    ValXtimeLow(b);
    ValXor(b, 0x8000);
    ValXor(b << 1, 0x100B);
    ValConstants();
    ReduceTop(Val(b));
  }

  lemma ReduceTop(u: nat)
    requires u < 0x8000
    ensures 0x8000 <= Xor(u, 0x8000) < 0x10000
    ensures Xtime(Xor(u, 0x8000)) == Xor(2 * u, 0x100B)
  {
    var d := Xor(u, 0x8000);
    XorTop15(u, 0x8000);
    XorStep(2 * u, 0x10000, u, 0x8000, 0, 0);
    XorConstant();
    hide Xor;
    XorRegroup(2 * u, 0x100B, 0x10000);
    assert Xtime(d) == Xor(2 * d, 0x1100B);
  }

  lemma XorTop15(a: nat, b: nat)
    requires a < 0x10000 && b < 0x10000
    ensures Xor(a, b) < 0x10000
    ensures Xor(a, b) < 0x8000 <==> (a < 0x8000 <==> b < 0x8000)
  {
    assert Exp2(8) == 256 && Exp2(12) == 4096;
    XorTop(a, b, 15);
  }

  lemma XorConstant()
    ensures Xor(0x100B, 0x10000) == 0x1100B
  {
    XorStep(0x100B, 0x10000, 0x805, 0x8000, 1, 0);
    XorStep(0x805, 0x8000, 0x402, 0x4000, 1, 0);
    XorStep(0x402, 0x4000, 0x201, 0x2000, 0, 0);
    XorStep(0x201, 0x2000, 0x100, 0x1000, 1, 0);
    XorStep(0x100, 0x1000, 0x80, 0x800, 0, 0);
    XorStep(0x80, 0x800, 0x40, 0x400, 0, 0);
    XorStep(0x40, 0x400, 0x20, 0x200, 0, 0);
    XorStep(0x20, 0x200, 0x10, 0x100, 0, 0);
    XorStep(0x10, 0x100, 8, 0x80, 0, 0);
    XorStep(8, 0x80, 4, 0x40, 0, 0);
    XorStep(4, 0x40, 2, 0x20, 0, 0);
    XorStep(2, 0x20, 1, 0x10, 0, 0);
    XorStep(1, 0x10, 0, 8, 1, 0);
    XorZero(8);
  }

  lemma ValConstants()
    ensures Val(1) == 1 && Val(2) == 2 && Val(0x100B) == 0x100B && Val(0x8000) == 0x8000
    ensures Val(0x7FFF) == 0x7FFF && Val(0xFFFF) == 0xFFFF
  {
    var power, mask := 0x8000, 0xFFFF;
  }

  /** One step of Mul, seen on words. */
  lemma MulHalf(a: bv16, b: bv16)
    ensures Val(a) < 0x10000 && Val(b) < 0x10000 && Val(Half(b)) < 0x10000 && Val(XtimeWord(a)) < 0x10000
    ensures Mul(Val(a), Val(b)) == Xor(Val(Term(Odd(b), a)), Mul(Val(XtimeWord(a)), Val(Half(b))))
  {
    ValXtime(a);
    ValXtime(b);
    ValXtime(Half(b));
    ValXtime(XtimeWord(a));
    ValUnfold(b);
    hide XtimeWord, Mul, Xtime, Odd, Half;
    MulStep(Val(a), Val(b), Val(Half(b)), if Odd(b) then 1 else 0);
    AddIsXor(if Odd(b) then Val(a) else 0, Mul(Val(XtimeWord(a)), Val(Half(b))));
  }

  lemma TwoBits(a: bv16, b: bv16)
    ensures Half(Half(b)) == Drop2(b)
    ensures Mul2(a, b) == Plus(Term(Odd(b), a), Term(Odd(Half(b)), XtimeWord(a)))
  {
    assert Odd(Half(b)) <==> b & 2 == 2;
  }

  predicate Fits(a: bv16) { Val(a) < 0x10000 }

  /** m is the part of the product that b's low bits contribute; a1 and b1 stand for the rest. */
  ghost predicate Splits(a: bv16, b: bv16, m: bv16, a1: bv16, b1: bv16) {
    && Fits(a) && Fits(b) && Fits(a1) && Fits(b1)
    && Mul(Val(a), Val(b)) == Xor(Val(m), Mul(Val(a1), Val(b1)))
  }

  lemma SplitTwice(a: bv16, b: bv16, m: bv16, a1: bv16, b1: bv16, m1: bv16, a2: bv16, b2: bv16)
    requires Splits(a, b, m, a1, b1) && Splits(a1, b1, m1, a2, b2)
    ensures Splits(a, b, Plus(m, m1), a2, b2)
  {
    hide Mul, Val, Plus, Xor;
    ValXor(m, m1);
    XorAssoc(Val(m), Val(m1), Mul(Val(a2), Val(b2)));
  }

  lemma SplitTwo(a: bv16, b: bv16)
    ensures Splits(a, b, Mul2(a, b), X2(a), Drop2(b))
  {
    MulHalf(a, b);
    MulHalf(XtimeWord(a), Half(b));
    TwoBits(a, b);
    hide Mul, Val, XtimeWord, Half, Odd, Plus, Xor, Term, Mul2, Drop2;
    SplitTwice(a, b, Term(Odd(b), a), XtimeWord(a), Half(b), Term(Odd(Half(b)), XtimeWord(a)), X2(a), Drop2(b));
  }

  lemma SplitFour(a: bv16, b: bv16)
    ensures Splits(a, b, Mul4(a, b), X4(a), Drop4(b))
  {
    hide Splits, Plus, Mul2, X2, Drop2;
    SplitTwo(a, b);
    SplitTwo(X2(a), Drop2(b));
    SplitTwice(a, b, Mul2(a, b), X2(a), Drop2(b), Mul2(X2(a), Drop2(b)), X4(a), Drop4(b));
  }

  lemma SplitEight(a: bv16, b: bv16)
    ensures Splits(a, b, Mul8(a, b), X8(a), Drop8(b))
  {
    hide Splits, Plus, Mul4, X4, Drop4;
    SplitFour(a, b);
    SplitFour(X4(a), Drop4(b));
    SplitTwice(a, b, Mul4(a, b), X4(a), Drop4(b), Mul4(X4(a), Drop4(b)), X8(a), Drop8(b));
  }

  lemma DropAll(b: bv16)
    ensures Drop8(Drop8(b)) == 0 && Val(0) == 0
  {}

  /** The word product computes Mul. */
  lemma ValMul(a: bv16, b: bv16)
    ensures Fits(a) && Fits(b)
    ensures Val(MulWord(a, b)) == Mul(Val(a), Val(b))
  {
    DropAll(b);
    hide Val, Plus, Xor, Mul8, X8, Drop8, Mul;
    SplitEight(a, b);
    SplitEight(X8(a), Drop8(b));
    SplitTwice(a, b, Mul8(a, b), X8(a), Drop8(b), Mul8(X8(a), Drop8(b)), X8(X8(a)), 0);
    MulZero(Val(X8(X8(a))));
    XorZero(Val(MulWord(a, b)));
  }

  lemma Times(i: nat, j: nat, a: bv16, b: bv16, c: bv16)
    requires MulWord(a, b) == c
    requires Pow(i) == Val(a) && Pow(j) == Val(b)
    ensures Pow(i + j) == Val(c)
  {
    hide MulWord, Mul, Val, Pow;
    ValMul(a, b);
    PowAdd(i, j);
  }
}
