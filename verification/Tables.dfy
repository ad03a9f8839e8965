/** The lookup tables of fec.c and the loops that use them: modnn, generate_gf,
    gf_mul, the unrolled addmul1 and matmul. */
module Tables {
  import opened Field
  import Words
  import opened Primitive
  import opened FieldLaws
  import opened Linear

  const GF_BITS: nat := 16
  const UNROLL: nat := 16

  // allPp[GF_BITS]: character i is the coefficient of x^i.
  const PP := "11010000000010001"

  /** The static arrays of fec.c once init_fec has filled them in. */
  datatype GfTables = GfTables(exp: seq<gf>, log: seq<nat>, inverse: seq<gf>) {
    ghost predicate Valid() {
      && |exp| == 2 * GF_SIZE && |log| == GF_SIZE + 1 && |inverse| == GF_SIZE + 1
      && (forall i :: 0 <= i < 2 * GF_SIZE ==> exp[i] == Pow(i))
      && log[0] == GF_SIZE
      && (forall x: gf :: x != 0 ==> log[x] == Log(x))
      && (forall x: gf :: inverse[x] == Inv(x))
    }
  }

  /** x mod (2^16 - 1) without a division. */
  method Modnn(x0: nat) returns (x: nat)
    ensures x == x0 % GF_SIZE
  {
    x := x0;
    while x >= GF_SIZE
      invariant x % GF_SIZE == x0 % GF_SIZE
      decreases x
    {
      x := x - GF_SIZE;
      ghost var y := x;
      x := x / 65536 + x % 65536;
      assert y == x + GF_SIZE * (y / 65536);
    }
  }

  function GfMul(t: GfTables, x: gf, y: gf): (r: gf)
    requires t.Valid()
    ensures r == Mul(x, y)
  {
    MulNonzero(x, y);
    if x == 0 || y == 0 then 0 else
      MulPowers(x, y);
      t.exp[t.log[x] + t.log[y]]
  }

  // ----- generate_gf

  /** Exclusive or of the terms below x^i of the polynomial. */
  ghost function PolyTerms(i: nat): nat
    requires i <= 16
  {
    if i == 0 then 0 else Xor(PolyTerms(i - 1), if PP[i - 1] == '1' then Exp2(i - 1) else 0)
  }

  lemma {:induction false} Exp2Monotone(i: nat, j: nat)
    requires i <= j
    ensures 0 < Exp2(i) <= Exp2(j)
  {
    if i < j {
      Exp2Monotone(i, j - 1);
    } else if i > 0 {
      Exp2Monotone(i - 1, i - 1);
    }
  }

  lemma Exp2Values()
    ensures Exp2(0) == 1 && Exp2(1) == 2 && Exp2(3) == 8 && Exp2(12) == 4096 && Exp2(14) == 0x4000
    ensures Exp2(15) == 0x8000 && Exp2(16) == 0x10000
  {
    assert Exp2(8) == 256 && Exp2(12) == 4096;
  }

  lemma {:induction false} PowExp2(i: nat)
    requires i < 16
    ensures Pow(i) == Exp2(i) && 0 < Exp2(i) <= 0x8000
  {
    Exp2Values();
    Exp2Monotone(i, 15);
    if i > 0 {
      PowExp2(i - 1);
      Exp2Monotone(i - 1, 14);
    }
  }

  /** A number below 2^n and 2^n have no common bit. */
  lemma {:induction false} XorDisjoint(a: nat, n: nat)
    requires a < Exp2(n)
    ensures Xor(a, Exp2(n)) == a + Exp2(n)
  {
    if n == 0 {
      XorZero(1);
    } else {
      XorStep(a, Exp2(n), a / 2, Exp2(n - 1), a % 2, 0);
      hide Xor;
      XorDisjoint(a / 2, n - 1);
    }
  }

  lemma PolyStep(i: nat)
    requires i < 16
    ensures PP[i] == '0' ==> PolyTerms(i + 1) == PolyTerms(i)
    ensures PP[i] == '1' && PolyTerms(i) < Exp2(i) ==> PolyTerms(i + 1) == PolyTerms(i) + Exp2(i)
  {
    XorZero(PolyTerms(i));
    if PolyTerms(i) < Exp2(i) {
      XorDisjoint(PolyTerms(i), i);
    }
  }

  lemma PolyLow()
    ensures PolyTerms(8) == 11
  {
    hide Exp2, PolyTerms;
    Exp2Values();
    PolyStart();
    PolyStep(0);
    PolyStep(1);
    PolyStep(2);
    PolyStep(3);
    PolyStep(4);
    PolyStep(5);
    PolyStep(6);
    PolyStep(7);
  }

  lemma PolyHigh()
    ensures PolyTerms(16) == 0x100B
  {
    hide Exp2, PolyTerms;
    Exp2Values();
    PolyLow();
    PolyStep(8);
    PolyStep(9);
    PolyStep(10);
    PolyStep(11);
    PolyStep(12);
    PolyStep(13);
    PolyStep(14);
    PolyStep(15);
  }

  /** The polynomial string denotes the 0x100B that x^16 reduces to. */
  lemma PolyValue()
    ensures PolyTerms(16) == 0x100B == Pow(16)
  {
    hide Exp2, PolyTerms, Xtime;
    Exp2Values();
    PowExp2(15);
    ReduceTop16();
    PolyHigh();
    PowNext(15);
  }

  lemma PolyStart()
    ensures PolyTerms(0) == 0
  {}

  lemma ReduceTop16()
    ensures Xtime(0x8000) == 0x100B
  {
    Words.XorConstant();
    XorRegroup(0, 0x100B, 0x10000);
    XorZero(0x10000);
    XorZero(0x100B);
    XorComm(0x100B, 0x10000);
    XorAssoc(0x10000, 0x10000, 0x100B);
    XorSelf(0x10000);
  }

  /** The shift-register step of generate_gf multiplies by x. */
  lemma ShiftRegister(a: gf)
    requires a >= 0x8000
    ensures Xor(a, 0x8000) < 0x8000
    ensures Xor(0x100B, 2 * Xor(a, 0x8000)) == Xtime(a)
  {
    Words.XorTop15(a, 0x8000);
    Words.XorConstant();
    XorStep(2 * a, 0x10000, a, 0x8000, 0, 0);
    hide Xor;
    XorComm(0x100B, Xor(2 * a, 0x10000));
    XorAssoc(2 * a, 0x10000, 0x100B);
    XorComm(0x10000, 0x100B);
  }

  method GenerateGf() returns (t: GfTables)
    ensures t.Valid()
  {
    var gfExp := new gf[2 * GF_SIZE];
    var gfLog := new nat[GF_SIZE + 1];
    var inverse := new gf[GF_SIZE + 1];
    PowerTables(gfExp, gfLog);
    gfLog[0] := GF_SIZE;
    ExtendExp(gfExp);
    InverseTable(gfExp, gfLog, inverse);
    t := GfTables(gfExp[..], gfLog[..], inverse[..]);
  }

  lemma NewPower(i: nat)
    requires i < GF_SIZE
    ensures forall j :: 0 <= j < i ==> Pow(j) != Pow(i)
  {
    forall j | 0 <= j < i ensures Pow(j) != Pow(i) {
      PowDistinct(j, i);
    }
  }

  lemma PowBit(i: nat)
    requires i < 16
    ensures Pow(i) == Exp2(i)
    ensures i < 15 ==> 2 * Pow(i) % 65536 == Pow(i + 1)
  {
    PowExp2(i);
    if i < 15 {
      PowExp2(i + 1);
    }
  }

  /** The powers below n are in the tables. */
  ghost predicate Filled(gfExp: array<gf>, gfLog: array<nat>, n: nat)
    reads gfExp, gfLog
  {
    && gfExp.Length == 2 * GF_SIZE && gfLog.Length == GF_SIZE + 1 && n <= GF_SIZE
    && (forall j :: 0 <= j < n ==> gfExp[j] == Pow(j))
    && (forall j :: 0 <= j < n ==> gfLog[Pow(j)] == j)
  }

  /** The first loop: x^i for i below 16, and x^16 from the polynomial. */
  method LowPowers(gfExp: array<gf>, gfLog: array<nat>)
    requires gfExp.Length == 2 * GF_SIZE && gfLog.Length == GF_SIZE + 1
    modifies gfExp, gfLog
    ensures Filled(gfExp, gfLog, GF_BITS) && gfExp[GF_BITS] == PolyTerms(GF_BITS)
  {
    hide Pow, Xtime, Xor, Exp2, PolyTerms;
    var mask: gf := 1;
    gfExp[GF_BITS] := 0;
    var i := 0;
    PowZero();
    PolyStart();
    while i < GF_BITS
      invariant 0 <= i <= GF_BITS
      invariant i < GF_BITS ==> mask == Pow(i)
      invariant gfExp[GF_BITS] == PolyTerms(i)
      invariant Filled(gfExp, gfLog, i)
    {
      PolyNext(i);
      NewPower(i);
      PowBit(i);
      AddIsXor(gfExp[GF_BITS], mask);
      gfExp[i] := mask;
      gfLog[gfExp[i]] := i;
      if PP[i] == '1' {
        gfExp[GF_BITS] := Add(gfExp[GF_BITS], mask);
      }
      mask := 2 * mask % 65536;
      i := i + 1;
    }
  }

  lemma PolyNext(i: nat)
    requires i < 16
    ensures PolyTerms(i + 1) == if PP[i] == '1' then Xor(PolyTerms(i), Exp2(i)) else PolyTerms(i)
  {
    XorZero(PolyTerms(i));
  }

  /** The second loop: shift register steps for x^17 and above. */
  method HighPowers(gfExp: array<gf>, gfLog: array<nat>)
    requires Filled(gfExp, gfLog, GF_BITS + 1) && Pow(GF_BITS) == 0x100B
    modifies gfExp, gfLog
    ensures Filled(gfExp, gfLog, GF_SIZE)
  {
    hide Pow, Xtime, Xor;
    var mask := 32768;
    var i := GF_BITS + 1;
    while i < GF_SIZE
      invariant GF_BITS + 1 <= i <= GF_SIZE
      invariant Filled(gfExp, gfLog, i)
    {
      PowNext(i - 1);
      NewPower(i);
      if gfExp[i - 1] >= mask {
        ShiftRegister(gfExp[i - 1]);
        gfExp[i] := Xor(gfExp[GF_BITS], 2 * Xor(gfExp[i - 1], mask));
      } else {
        XtimeSmall(gfExp[i - 1]);
        gfExp[i] := 2 * gfExp[i - 1];
      }
      gfLog[gfExp[i]] := i;
      i := i + 1;
    }
  }

  /** gf_exp[i] and gf_log for i < GF_SIZE. */
  method PowerTables(gfExp: array<gf>, gfLog: array<nat>)
    requires gfExp.Length == 2 * GF_SIZE && gfLog.Length == GF_SIZE + 1
    modifies gfExp, gfLog
    ensures forall i :: 0 <= i < GF_SIZE ==> gfExp[i] == Pow(i)
    ensures forall x: gf :: x != 0 ==> gfLog[x] == Log(x)
  {
    hide Pow, PolyTerms;
    LowPowers(gfExp, gfLog);
    PolyValue();
    NewPower(GF_BITS);
    gfLog[gfExp[GF_BITS]] := GF_BITS;
    HighPowers(gfExp, gfLog);
    forall x: gf | x != 0 ensures gfLog[x] == Log(x) {
      assert gfLog[Pow(Log(x))] == Log(x);
    }
  }

  lemma PowNext(i: nat)
    ensures Pow(i + 1) == Xtime(Pow(i))
  {}

  /** The second half of gf_exp, so that sums of two logarithms need no reduction. */
  method ExtendExp(gfExp: array<gf>)
    requires gfExp.Length == 2 * GF_SIZE
    requires forall i :: 0 <= i < GF_SIZE ==> gfExp[i] == Pow(i)
    modifies gfExp
    ensures forall i :: 0 <= i < 2 * GF_SIZE ==> gfExp[i] == Pow(i)
  {
    PowOrder();
    hide Pow;
    for i := 0 to GF_SIZE
      invariant forall j :: 0 <= j < GF_SIZE + i ==> gfExp[j] == Pow(j)
    {
      PowShift(GF_SIZE, i);
      gfExp[i + GF_SIZE] := gfExp[i];
    }
  }

  method InverseTable(gfExp: array<gf>, gfLog: array<nat>, inverse: array<gf>)
    requires gfExp.Length == 2 * GF_SIZE && gfLog.Length == inverse.Length == GF_SIZE + 1
    requires gfExp != inverse
    requires forall i :: 0 <= i < 2 * GF_SIZE ==> gfExp[i] == Pow(i)
    requires forall x: gf :: x != 0 ==> gfLog[x] == Log(x)
    modifies inverse
    ensures forall x: gf :: inverse[x] == Inv(x)
  {
    inverse[0] := 0;
    inverse[1] := 1;
    InvOne();
    for i := 2 to GF_SIZE + 1
      invariant forall x: gf :: x < i ==> inverse[x] == Inv(x)
    {
      inverse[i] := gfExp[GF_SIZE - gfLog[i]];
    }
  }

  lemma InvOne()
    ensures Inv(1) == 1
  {
    LogUnique(1, 0);
    PowOrder();
  }
}
