/** alpha = x generates all 65535 non-zero elements: x^16 + x^12 + x^3 + x + 1 is
    primitive. The order of alpha divides 65535 = 3 * 5 * 17 * 257, and the
    powers with exponents 65535/3, 65535/5, 65535/17 and 65535/257 are not 1.
    Those powers are computed by repeated multiplication of 16-bit words. */
module Primitive {
  import opened Field
  import opened Words

  /** alpha^(2^k) by repeated squaring. */
  lemma SmallSquares()
    ensures Pow(1) == Val(0x2) && Pow(2) == Val(0x4) && Pow(4) == Val(0x10) && Pow(8) == Val(0x100) && Pow(16) == Val(0x100B)
    ensures Pow(32) == Val(0x1BFE) && Pow(64) == Val(0x5C24) && Pow(128) == Val(0xE647) && Pow(256) == Val(0xB2F)
  {
    ValConstants();
    assert Pow(1) == 2;
    hide Pow, Val;
    Times(1, 1, 0x2, 0x2, 0x4);
    Times(2, 2, 0x4, 0x4, 0x10);
    Times(4, 4, 0x10, 0x10, 0x100);
    Times(8, 8, 0x100, 0x100, 0x100B);
    Times(16, 16, 0x100B, 0x100B, 0x1BFE);
    Times(32, 32, 0x1BFE, 0x1BFE, 0x5C24);
    Times(64, 64, 0x5C24, 0x5C24, 0xE647);
    Times(128, 128, 0xE647, 0xE647, 0xB2F);
  }

  lemma Squares()
    ensures Pow(1) == Val(0x2) && Pow(2) == Val(0x4) && Pow(4) == Val(0x10) && Pow(8) == Val(0x100) && Pow(16) == Val(0x100B)
    ensures Pow(32) == Val(0x1BFE) && Pow(64) == Val(0x5C24) && Pow(128) == Val(0xE647) && Pow(256) == Val(0xB2F)
    ensures Pow(512) == Val(0x169E) && Pow(1024) == Val(0xA78) && Pow(2048) == Val(0x1780) && Pow(4096) == Val(0x1B27)
    ensures Pow(8192) == Val(0xD65) && Pow(16384) == Val(0x564D) && Pow(32768) == Val(0xF0C6) && Pow(65536) == Val(0x2)
  {
    hide Pow, Val;
    SmallSquares();
    Times(256, 256, 0xB2F, 0xB2F, 0x169E);
    Times(512, 512, 0x169E, 0x169E, 0xA78);
    Times(1024, 1024, 0xA78, 0xA78, 0x1780);
    Times(2048, 2048, 0x1780, 0x1780, 0x1B27);
    Times(4096, 4096, 0x1B27, 0x1B27, 0xD65);
    Times(8192, 8192, 0xD65, 0xD65, 0x564D);
    Times(16384, 16384, 0x564D, 0x564D, 0xF0C6);
    Times(32768, 32768, 0xF0C6, 0xF0C6, 0x2);
  }

  lemma Power21845()
    ensures Pow(21845) == Val(0x15E)
  {
    Squares();
    hide Pow, Val;
    Times(1, 4, 0x2, 0x10, 0x20);
    Times(16, 64, 0x100B, 0x5C24, 0xF72F);
    Times(80, 5, 0xF72F, 0x20, 0x1539);
    Times(256, 1024, 0xB2F, 0xA78, 0xE130);
    Times(1280, 4096, 0xE130, 0x1B27, 0xDD0F);
    Times(5376, 16384, 0xDD0F, 0x564D, 0xB266);
    Times(21760, 85, 0xB266, 0x1539, 0x15E);
  }

  lemma Power13107()
    ensures Pow(13107) == Val(0x1CE8)
  {
    Squares();
    hide Pow, Val;
    Times(1, 2, 0x2, 0x4, 0x8);
    Times(16, 32, 0x100B, 0x1BFE, 0x4C35);
    Times(48, 3, 0x4C35, 0x8, 0x41BE);
    Times(256, 512, 0xB2F, 0x169E, 0x14D);
    Times(768, 4096, 0x14D, 0x1B27, 0x8087);
    Times(4864, 8192, 0x8087, 0xD65, 0xBD18);
    Times(13056, 51, 0xBD18, 0x41BE, 0x1CE8);
  }

  lemma Power3855()
    ensures Pow(3855) == Val(0x4D78)
  {
    Squares();
    hide Pow, Val;
    Times(1, 2, 0x2, 0x4, 0x8);
    Times(3, 4, 0x8, 0x10, 0x80);
    Times(7, 8, 0x80, 0x100, 0x8000);
    Times(256, 512, 0xB2F, 0x169E, 0x14D);
    Times(768, 1024, 0x14D, 0xA78, 0x1600);
    Times(1792, 2048, 0x1600, 0x1780, 0x8BE8);
    Times(3840, 15, 0x8BE8, 0x8000, 0x4D78);
  }

  // ----- the order of alpha

  lemma PowOrder()
    ensures Pow(65535) == 1
  {
    Squares();
    ValConstants();
    hide Val, Xtime;
    assert Pow(65536) == Xtime(Pow(65535));
    XtimeOne();
    XtimeInjective(Pow(65535), 1);
  }

  lemma XtimeOne()
    ensures Xtime(1) == 2
  {}

  /** None of the four maximal proper divisors of 65535 is a period. */
  lemma NotPeriods()
    ensures Pow(255) != 1 && Pow(3855) != 1 && Pow(13107) != 1 && Pow(21845) != 1
  {
    Squares();
    Power3855();
    Power13107();
    Power21845();
    ValConstants();
    DifferentWords();
    hide Val, Xtime;
    XtimeOne();
    assert Pow(256) == Xtime(Pow(255));
  }

  lemma DifferentWords()
    ensures Val(0xB2F) != Val(2)
    ensures Val(0x4D78) != Val(1) && Val(0x1CE8) != Val(1) && Val(0x15E) != Val(1)
  {
    if Val(0xB2F) == Val(2) { ValInjective(0xB2F, 2); }
    if Val(0x4D78) == Val(1) { ValInjective(0x4D78, 1); }
    if Val(0x1CE8) == Val(1) { ValInjective(0x1CE8, 1); }
    if Val(0x15E) == Val(1) { ValInjective(0x15E, 1); }
  }

  lemma {:induction false} PowMultiple(d: nat, q: nat)
    requires Pow(d) == 1
    ensures Pow(q * d) == 1
  {
    hide Pow, Mul;
    if q == 0 {
      PowZero();
    } else {
      PowMultiple(d, q - 1);
      PowAdd(d, (q - 1) * d);
      assert d + (q - 1) * d == q * d;
      MulOneLeft(1);
    }
  }

  lemma PowZero()
    ensures Pow(0) == 1
  {}

  lemma PowShift(d: nat, i: nat)
    requires Pow(d) == 1
    ensures Pow(d + i) == Pow(i)
  {
    hide Pow, Mul;
    PowAdd(d, i);
    MulOneLeft(Pow(i));
  }

  /** Two periods have their greatest common divisor as a period. */
  lemma {:induction false} CommonPeriod(a: nat, b: nat) returns (g: nat, s: nat, t: nat)
    requires a > 0 && Pow(a) == 1 && Pow(b) == 1
    ensures g > 0 && Pow(g) == 1 && a == s * g && b == t * g
    decreases b
  {
    hide Pow;
    if b == 0 {
      g, s, t := a, 1, 0;
    } else {
      var q, r := a / b, a % b;
      PowMultiple(b, q);
      PowShift(q * b, r);
      var t';
      g, t, t' := CommonPeriod(b, r);
      s := q * t + t';
      assert a == q * (t * g) + t' * g == s * g;
    }
  }

  lemma {:induction false} Bezout(a: nat, b: nat) returns (d: nat, u: int, v: int, s: nat, t: nat)
    requires a > 0
    ensures d > 0 && u * a + v * b == d && a == s * d && b == t * d
    decreases b
  {
    if b == 0 {
      d, u, v, s, t := a, 1, 0, 1, 0;
    } else {
      var q, r := a / b, a % b;
      var u', v', t';
      d, u', v', t, t' := Bezout(b, r);
      u, v, s := v', u' - v' * q, q * t + t';
      assert a == q * (t * d) + t' * d == s * d;
      assert u * a + v * b == v' * (a - q * b) + u' * b;
    }
  }

  predicate Prime(p: nat) { p == 3 || p == 5 || p == 17 || p == 257 }

  lemma SmallDivisor(p: nat, d: nat, t: nat)
    requires Prime(p) && p == t * d
    ensures 1 < d <= 16 ==> d == p
  {
    if 1 < d <= 16 {
      assert (t * d) % d == 0;
    }
  }

  lemma LargeProduct(t: nat, d: nat)
    ensures t > 16 && d > 16 ==> t * d >= 289
  {}

  lemma PrimeDivisor(p: nat, d: nat, t: nat)
    requires Prime(p) && p == t * d
    ensures d == 1 || d == p
  {
    SmallDivisor(p, d, t);
    SmallDivisor(p, t, d);
    LargeProduct(t, d);
  }

  /** Euclid's lemma for the four prime factors of 65535. */
  lemma Euclid(p: nat, s: nat, g: nat, m: nat) returns (h: nat)
    requires Prime(p) && s > 0 && s * g == p * m
    ensures s == p * h || g == p * h
  {
    var d, u, v, s', t := Bezout(s, p);
    PrimeDivisor(p, d, t);
    if d == p {
      h := s';
    } else {
      h := u * m + v * g;
      Distribute(p, s, g, m, u, v);
    }
  }

  lemma Distribute(p: int, s: int, g: int, m: int, u: int, v: int)
    requires s * g == p * m
    ensures (u * s + v * p) * g == p * (u * m + v * g)
  {
    assert (u * s + v * p) * g == u * (s * g) + v * p * g;
    assert p * (u * m + v * g) == u * (p * m) + v * p * g;
  }

  /** A proper divisor of 65535 divides 65535 / p for a prime factor p. */
  lemma ProperDivisor(s: nat, g: nat) returns (q: nat)
    requires s * g == 65535 && s > 1
    ensures q * g == 255 || q * g == 3855 || q * g == 13107 || q * g == 21845
  {
    var h := Euclid(3, s, g, 21845);
    if s == 3 * h {
      return h;
    }
    var g1 := h;
    h := Euclid(5, s, g1, 4369);
    if s == 5 * h {
      return h;
    }
    var g2 := h;
    h := Euclid(17, s, g2, 257);
    if s == 17 * h {
      return h;
    }
    var g3 := h;
    PrimeDivisor(257, s, g3);
    q := 1;
  }

  /** alpha has order 65535. */
  lemma NoSmallPeriod(e: nat)
    requires 0 < e < GF_SIZE
    ensures Pow(e) != 1
  {
    NotPeriods();
    PowOrder();
    if Pow(e) == 1 {
      PeriodDivides(e);
    }
  }

  lemma PeriodDivides(e: nat)
    requires 0 < e < GF_SIZE && Pow(e) == 1 && Pow(GF_SIZE) == 1
    ensures Pow(255) == 1 || Pow(3855) == 1 || Pow(13107) == 1 || Pow(21845) == 1
  {
    hide Pow;
    var g, s, t := CommonPeriod(GF_SIZE, e);
    var q := ProperDivisor(s, g);
    PowMultiple(g, q);
  }

  /** The powers alpha^0 .. alpha^65534 are pairwise distinct. */
  lemma PowDistinct(i: nat, j: nat)
    requires i < j < GF_SIZE
    ensures Pow(i) != Pow(j)
  {
    if Pow(i) == Pow(j) {
      SameGap(i, 0, j - i);
      NoSmallPeriod(j - i);
    }
  }

  lemma {:induction false} SameGap(i: nat, a: nat, b: nat)
    requires Pow(i + a) == Pow(i + b)
    ensures Pow(a) == Pow(b)
  {
    if i > 0 {
      XtimeInjective(Pow(i - 1 + a), Pow(i - 1 + b));
      SameGap(i - 1, a, b);
    }
  }
}
