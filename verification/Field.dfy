/** GF(2^16): an element is a 16-bit number whose bit i is the coefficient of x^i,
    addition is exclusive or, and products are reduced modulo the polynomial
    x^16 + x^12 + x^3 + x + 1 that allPp holds for GF_BITS = 16. `Mul` is the
    reference product; the lookups of fec.c are proved equal to it in Tables. */
module Field {

  // The number of non-zero elements, 2^16 - 1.
  const GF_SIZE: nat := 65535

  type gf = x: int | 0 <= x < 65536

  /** Bitwise exclusive or. */
  function Xor(a: nat, b: nat): nat {
    if a == 0 && b == 0 then 0 else (a + b) % 2 + 2 * Xor(a / 2, b / 2)
  }

  /** Sum of two elements. */
  function Add(a: gf, b: gf): gf {
    XorTop16(a, b);
    Xor(a, b)
  }

  /** Multiplication by x: shift, and subtract the polynomial when x^16 appears. */
  function Xtime(a: gf): gf {
    Reduce(2 * a)
  }

  /** Subtract the polynomial from d when d has the term x^16. */
  function Reduce(d: nat): gf
    requires d < 0x20000
  {
    XorTop16(d, 0x1100B);
    if d < 0x10000 then d else Xor(d, 0x1100B)
  }

  /** Product modulo the polynomial: add a * x^i for every bit i of b. */
  function Mul(a: gf, b: gf): gf
    decreases b
  {
    if b == 0 then 0 else Add(if b % 2 == 1 then a else 0, Mul(Xtime(a), b / 2))
  }

  /** alpha^i, where alpha = x. */
  function Pow(i: nat): gf {
    if i == 0 then 1 else Xtime(Pow(i - 1))
  }

  // ----- exclusive or

  function Exp2(n: nat): nat {
    if n == 0 then 1 else 2 * Exp2(n - 1)
  }

  /** The top bit of an exclusive or, and its range. */
  lemma {:induction false} XorTop(a: nat, b: nat, n: nat)
    requires a < 2 * Exp2(n) && b < 2 * Exp2(n)
    ensures Xor(a, b) < 2 * Exp2(n)
    ensures Xor(a, b) < Exp2(n) <==> (a < Exp2(n) <==> b < Exp2(n))
  {
    XorStep(a, b, a / 2, b / 2, a % 2, b % 2);
    if n > 0 {
      hide Xor;
      XorTop(a / 2, b / 2, n - 1);
    }
  }

  lemma XorTop16(a: nat, b: nat)
    requires a < 0x20000 && b < 0x20000
    ensures Xor(a, b) < 0x20000
    ensures Xor(a, b) < 0x10000 <==> (a < 0x10000 <==> b < 0x10000)
  {
    assert Exp2(8) == 256 && Exp2(12) == 4096;
    XorTop(a, b, 16);
  }

  lemma {:induction false} XorComm(a: nat, b: nat)
    ensures Xor(a, b) == Xor(b, a)
  {
    if a != 0 || b != 0 {
      XorComm(a / 2, b / 2);
    }
  }

  /** One bit at a time: a = 2 * c + p and b = 2 * d + q. */
  lemma XorStep(a: nat, b: nat, c: nat, d: nat, p: nat, q: nat)
    requires a == 2 * c + p && b == 2 * d + q && p < 2 && q < 2
    ensures Xor(a, b) == 2 * Xor(c, d) + (if p == q then 0 else 1)
  {
    assert c == a / 2 && d == b / 2;
    assert (a + b) % 2 == if p == q then 0 else 1;
  }

  lemma {:induction false} XorAssoc(a: nat, b: nat, c: nat)
    ensures Xor(Xor(a, b), c) == Xor(a, Xor(b, c))
    decreases a + b + c
  {
    if a != 0 || b != 0 || c != 0 {
      hide Xor;
      var a', b', c', p, q, r := a / 2, b / 2, c / 2, a % 2, b % 2, c % 2;
      XorStep(a, b, a', b', p, q);
      XorStep(b, c, b', c', q, r);
      XorStep(Xor(a, b), c, Xor(a', b'), c', if p == q then 0 else 1, r);
      XorStep(a, Xor(b, c), a', Xor(b', c'), p, if q == r then 0 else 1);
      XorAssoc(a', b', c');
    }
  }

  lemma {:induction false} XorZero(a: nat)
    ensures Xor(0, a) == a && Xor(a, 0) == a
  {
    if a != 0 {
      XorZero(a / 2);
    }
  }

  lemma {:induction false} XorSelf(a: nat)
    ensures Xor(a, a) == 0
  {
    if a != 0 {
      XorSelf(a / 2);
    }
  }

  // ----- the additive group

  lemma AddLaws(a: gf, b: gf, c: gf)
    ensures Add(a, b) == Add(b, a)
    ensures Add(Add(a, b), c) == Add(a, Add(b, c))
    ensures Add(a, 0) == a && Add(0, a) == a && Add(a, a) == 0
  {
    XorComm(a, b);
    XorAssoc(a, b, c);
    XorZero(a);
    XorSelf(a);
  }

  lemma AddSwap(a: gf, b: gf, c: gf, d: gf)
    ensures Add(Add(a, b), Add(c, d)) == Add(Add(a, c), Add(b, d))
  {
    hide Add;
    AddLaws(a, b, Add(c, d));
    AddLaws(b, c, d);
    AddLaws(c, b, d);
    AddLaws(a, c, Add(b, d));
  }

  lemma AddCancel(a: gf, b: gf)
    ensures Add(a, Add(a, b)) == b && Add(Add(b, a), a) == b
    ensures Add(a, b) == 0 <==> a == b
  {
    hide Add;
    AddLaws(a, a, b);
    AddLaws(b, a, a);
    AddLaws(a, b, b);
  }

  // ----- multiplication by x is linear and one-to-one

  lemma XorRegroup(u: nat, v: nat, p: nat)
    ensures Xor(Xor(u, p), v) == Xor(Xor(u, v), p) == Xor(u, Xor(v, p))
    ensures Xor(Xor(u, p), Xor(v, p)) == Xor(u, v)
  {
    hide Xor;
    XorComm(v, p);
    XorAssoc(u, p, v);
    XorAssoc(u, v, p);
    XorAssoc(u, p, Xor(p, v));
    XorAssoc(p, p, v);
    XorSelf(p);
    XorZero(v);
  }

  lemma ReduceXor(u: nat, v: nat)
    requires u < 0x20000 && v < 0x20000
    ensures Xor(u, v) < 0x20000
    ensures Reduce(Xor(u, v)) == Xor(Reduce(u), Reduce(v))
  {
    hide Xor;
    XorTop16(u, v);
    XorRegroup(u, v, 0x1100B);
  }

  lemma XtimeAdd(a: gf, b: gf)
    ensures Xtime(Add(a, b)) == Add(Xtime(a), Xtime(b))
  {
    hide Xor, Reduce;
    XorStep(2 * a, 2 * b, a, b, 0, 0);
    ReduceXor(2 * a, 2 * b);
  }

  lemma XorInjective(a: nat, b: nat, p: nat)
    requires Xor(a, p) == Xor(b, p)
    ensures a == b
  {
    hide Xor;
    XorAssoc(a, p, p);
    XorAssoc(b, p, p);
    XorSelf(p);
    XorZero(a);
    XorZero(b);
  }

  /** Reduction makes an even number odd, so it can be told from a plain shift. */
  lemma ReduceOdd(a: gf)
    ensures Xor(2 * a, 0x1100B) % 2 == 1
  {
    hide Xor;
    XorStep(2 * a, 0x1100B, a, 0x8805, 0, 1);
    OddNumber(Xor(a, 0x8805));
  }

  lemma OddNumber(n: nat)
    ensures (2 * n + 1) % 2 == 1
  {}

  lemma XtimeInjective(a: gf, b: gf)
    requires Xtime(a) == Xtime(b)
    ensures a == b
  {
    hide Xor;
    ReduceOdd(a);
    ReduceOdd(b);
    if a >= 0x8000 && b >= 0x8000 {
      XorInjective(2 * a, 2 * b, 0x1100B);
    }
  }

  lemma {:induction false} PowNonzero(i: nat)
    ensures Pow(i) != 0
  {
    if i > 0 {
      PowNonzero(i - 1);
      if Pow(i) == 0 {
        XtimeInjective(Pow(i - 1), 0);
      }
    }
  }

  // ----- the product is linear and multiplies powers of alpha

  lemma {:induction false} MulAddLeft(a: gf, b: gf, c: gf)
    ensures Mul(Add(a, b), c) == Add(Mul(a, c), Mul(b, c))
    decreases c
  {
    hide Add, Xtime;
    AddLaws(0, 0, 0);
    if c != 0 {
      var a', b' := Mul(Xtime(a), c / 2), Mul(Xtime(b), c / 2);
      MulAddLeft(Xtime(a), Xtime(b), c / 2);
      XtimeAdd(a, b);
      AddSwap(a, a', b, b');
      AddSwap(0, a', 0, b');
    }
  }

  lemma {:induction false} MulXtimeLeft(a: gf, b: gf)
    ensures Mul(Xtime(a), b) == Xtime(Mul(a, b))
    decreases b
  {
    XtimeZero();
    hide Add, Xtime;
    if b != 0 {
      MulXtimeLeft(Xtime(a), b / 2);
      XtimeAdd(if b % 2 == 1 then a else 0, Mul(Xtime(a), b / 2));
    }
  }

  lemma XtimeZero()
    ensures Xtime(0) == 0
  {}

  /** a shifted left by n bits. */
  function Shl(a: nat, n: nat): nat
    decreases n
  {
    if n == 0 then a else Shl(2 * a, n - 1)
  }

  lemma {:induction false} ShlXor(a: nat, b: nat, n: nat)
    ensures Shl(Xor(a, b), n) == Xor(Shl(a, n), Shl(b, n))
    decreases n
  {
    if n > 0 {
      XorStep(2 * a, 2 * b, a, b, 0, 0);
      hide Xor;
      ShlXor(2 * a, 2 * b, n - 1);
    }
  }

  lemma {:induction false} ShlMonotone(a: nat, b: nat, n: nat)
    requires a <= b
    ensures a <= Shl(a, n) <= Shl(b, n) && Shl(0, n) == 0
    decreases n
  {
    if n > 0 {
      ShlMonotone(2 * a, 2 * b, n - 1);
    }
  }

  lemma MulStep(a: gf, b: gf, h: gf, r: nat)
    requires b == 2 * h + r && r < 2
    ensures Mul(a, b) == Add(if r == 1 then a else 0, Mul(Xtime(a), h))
  {
    AddLaws(0, 0, 0);
    assert h == b / 2 && r == b % 2;
  }

  lemma AddIsXor(a: gf, b: gf)
    ensures Add(a, b) == Xor(a, b)
  {}

  lemma MulZero(a: gf)
    ensures Mul(a, 0) == 0
  {}

  lemma XtimeSmall(a: gf)
    requires a < 0x8000
    ensures Xtime(a) == 2 * a
  {}

  lemma ShlJoin(n: nat, b: nat, h: nat, r: nat)
    requires b == 2 * h + r && r < 2
    ensures Shl(b, n) == Xor(Shl(r, n), Shl(2 * h, n)) && Shl(2 * h, n) <= Shl(b, n)
    ensures Shl(0, n) == 0
  {
    XorStep(r, 2 * h, 0, h, r, 0);
    XorZero(h);
    hide Xor;
    ShlXor(r, 2 * h, n);
    ShlMonotone(2 * h, b, n);
  }

  /** x^n times b is b shifted as long as no reduction happens. */
  lemma {:induction false} MulShift(n: nat, b: gf)
    requires Shl(1, n) < 65536 && Shl(b, n) < 65536
    ensures Mul(Shl(1, n), b) == Shl(b, n)
    decreases b, 0
  {
    var s, h, r := Shl(1, n), b / 2, b % 2;
    MulStep(s, b, h, r);
    ShlJoin(n, b, h, r);
    hide Xor, Xtime, Mul;
    if h == 0 {
      MulZero(Xtime(s));
      AddLaws(s, s, s);
    } else {
      MulShiftHalf(n, h);
      AddIsXor(if r == 1 then s else 0, Shl(2 * h, n));
    }
  }

  lemma MulShiftHalf(n: nat, h: gf)
    requires 0 < h && Shl(2 * h, n) < 65536
    ensures Shl(1, n) < 65536 && Mul(Xtime(Shl(1, n)), h) == Shl(2 * h, n)
    decreases h, 1
  {
    hide Mul, Xtime, Xor;
    ShlTwice(1, n);
    ShlMonotone(2, 2 * h, n);
    XtimeSmall(Shl(1, n));
    MulShift(n + 1, h);
  }

  lemma {:induction false} ShlTwice(a: nat, n: nat)
    ensures Shl(2 * a, n) == 2 * Shl(a, n)
    decreases n
  {
    if n > 0 {
      ShlTwice(2 * a, n - 1);
    }
  }

  lemma MulOneLeft(b: gf)
    ensures Mul(1, b) == b
  {
    MulShift(0, b);
  }

  /** alpha^i * alpha^j = alpha^(i+j). */
  lemma {:induction false} PowAdd(i: nat, j: nat)
    ensures Mul(Pow(i), Pow(j)) == Pow(i + j)
  {
    if i == 0 {
      MulOneLeft(Pow(j));
    } else {
      PowAdd(i - 1, j);
      MulXtimeLeft(Pow(i - 1), Pow(j));
    }
  }
}
