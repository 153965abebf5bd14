/**
 Division by a constant through a multiplication, as the decimal functions of libbf.c use it.
 */
module FastDiv {
  import opened Limbs
  import opened MpBase
  import opened Udiv
  import opened BfBits
  import Congruence
  import FftDigits

  const BF_DEC_BASE := 1_000_000_000
  const LIMB_DIGITS := 9

  /** divdq_base: the quotient and the remainder by 10^9, for a high limb below 2^29. */
  method DivdqBase(a1: limb, a0: limb) returns (q: limb, r: limb)
    requires a1 < 0x2000_0000
    ensures a1 * B + a0 == q * BF_DEC_BASE + r && r < BF_DEC_BASE
  {
    var t0 := Wrap(a1 * 8 + a0 / 0x2000_0000);
    var t := t0 as int * 2305843009;
    Estimate(a1, a0, t0, t / B);
    q := t / B;
    r := Wrap(a0 as int - q * BF_DEC_BASE);
    if BF_DEC_BASE <= r {
      q := q + 1;
      r := r - BF_DEC_BASE;
    }
  }

  /** The first quotient is right or one too small. */
  lemma Estimate(a1: limb, a0: limb, t0: limb, q: int)
    requires a1 < 0x2000_0000 && t0 == Wrap(a1 * 8 + a0 / 0x2000_0000) && q == t0 * 2305843009 / B
    ensures 0 <= q < B - 1 && 0 <= a1 * B + a0 - q * BF_DEC_BASE < 2 * BF_DEC_BASE
    ensures Wrap(a0 as int - q * BF_DEC_BASE) == a1 * B + a0 - q * BF_DEC_BASE
  {
    var a := a1 * B + a0 as int;
    var low := a0 % 0x2000_0000;
    assert a0 == a0 / 0x2000_0000 * 0x2000_0000 + low && 0 <= low < 0x2000_0000;
    assert t0 == a1 * 8 + a0 / 0x2000_0000;
    assert a == t0 * 0x2000_0000 + low;
    var rest := t0 * 2305843009 - q * B;
    assert 0 <= rest < B;
    var x := a - q * BF_DEC_BASE;
    assert x * B == t0 * 0x2000_0000 * B + low * B - (t0 * 2305843009 - rest) * BF_DEC_BASE;
    assert 0 <= x < 2 * BF_DEC_BASE;
    assert a0 as int - q * BF_DEC_BASE == -(a1 as int) * B + x;
    WrapPart(-(a1 as int), x);
  }

  /** FastDivData */
  datatype FastDivData = FastDivData(m1: limb, shift1: nat, shift2: nat)

  /** B + m1 is the smallest number whose product with d is above B * 2^l. */
  ghost predicate Divides(s: FastDivData, d: limb) {
    d != 0 &&
    var l := CeilLog2(d);
    s.shift1 == (if l == 0 then 0 else 1) && s.shift2 == (if l == 0 then 0 else l - 1)
    && 1 <= (B + s.m1) * d - B * Pow2(l) <= d
  }

  /** fast_udiv_init */
  function FastUdivInit(d: limb): (s: FastDivData)
    requires d != 0
    ensures Divides(s, d)
  {
    var l := CeilLog2(d);
    MultiplierFits(d, l);
    FastDivData((Pow2(l) - d) * B / d + 1, if l > 1 then 1 else l, if l == 0 then 0 else l - 1)
  }

  lemma MultiplierFits(d: limb, l: nat)
    requires d != 0 && l == CeilLog2(d)
    ensures d <= Pow2(l) && var m1 := (Pow2(l) - d) * B / d + 1;
      0 <= m1 < B && 1 <= (B + m1) * d - B * Pow2(l) <= d
  {
    hide Pow2, CeilLog2;
    TopBit(d, l);
    var p := Pow2(l);
    var q := (p - d) * B / d;
    DivMod((p - d) * B, d);
    Dist(p, d, B);
    Dist(B, q + 1, d);
    if l == 0 { assert (p - d) * B == 0; }
    if B - 1 <= q {
      MulLe(B - 1, q, d);
    }
  }

  lemma TopBit(d: limb, l: nat)
    requires d != 0 && l == CeilLog2(d)
    ensures d <= Pow2(l) <= B && (if l == 0 then d == 1 == Pow2(l) else Pow2(l) <= 2 * d - 2)
  {
    hide CeilLog2;
    Pow2One();
    Pow2Limb();
    Pow2Add(l, LIMB_BITS - l);
    MulLe(1, Pow2(LIMB_BITS - l), Pow2(l));
  }

  /** fast_udiv is the quotient, for every limb. */
  method FastUdiv(a: limb, s: FastDivData, ghost d: limb) returns (q: limb)
    requires Divides(s, d)
    ensures q == a / d
  {
    FastQuotient(a, s, d);
    var t1 := High(s.m1 as int * a as int);
    var t0 := (a - t1) / Pow2(s.shift1);
    q := (t1 + t0) / Pow2(s.shift2);
  }

  lemma FastQuotient(a: limb, s: FastDivData, d: limb)
    requires Divides(s, d)
    ensures var t1 := High(s.m1 as int * a as int);
      (t1 + (a - t1) / Pow2(s.shift1)) / Pow2(s.shift2) == a / d && 0 <= a / d < B
  {
    hide Pow2, CeilLog2, Divides, High;
    HighPart(a, s, d);
    var t1 := High(s.m1 as int * a as int);
    Shifts(a, t1, s.shift1, s.shift2, CeilLog2(d));
    QuotientIs(a, t1, s.m1, d, Pow2(CeilLog2(d)));
    QuotientFits(a, d);
  }

  lemma QuotientFits(a: limb, d: limb)
    requires d != 0
    ensures 0 <= a / d < B
  {
  }

  lemma HighPart(a: limb, s: FastDivData, d: limb)
    requires Divides(s, d)
    ensures var l, t1 := CeilLog2(d), High(s.m1 as int * a as int);
      && 0 <= t1 <= a && (l == 0 ==> t1 == 0) && t1 == s.m1 as int * a as int / B
      && s.shift1 == (if l == 0 then 0 else 1) && s.shift2 == (if l == 0 then 0 else l - 1)
      && 0 < d <= Pow2(l) <= B && 1 <= (B + s.m1) * d - B * Pow2(l) <= d
  {
    hide Pow2, CeilLog2;
    TopBit(d, CeilLog2(d));
    var t := s.m1 as int * a as int;
    MulLe(0, a, s.m1);
    DivMod(t, B);
    MulLe(s.m1, B - 1, a);
    LtMul(t / B, a as int + 1, B);
  }

  lemma Shifts(a: limb, t1: limb, shift1: nat, shift2: nat, l: nat)
    requires t1 <= a && shift1 == (if l == 0 then 0 else 1) && shift2 == (if l == 0 then 0 else l - 1)
    requires l == 0 ==> t1 == 0
    ensures var t0 := (a - t1) / Pow2(shift1);
      0 <= t0 && t1 + t0 <= a && (t1 + t0) / Pow2(shift2) == (a + t1) / Pow2(l)
  {
    hide Pow2;
    Pow2One();
    if l != 0 {
      Pow2Add(1, l - 1);
      FftDigits.DivByProduct(a + t1, 2, Pow2(l - 1));
      Half(a, t1);
    }
  }

  lemma Half(a: int, t: int)
    requires 0 <= t <= a
    ensures t + (a - t) / 2 == (a + t) / 2 <= a
  {
  }

  lemma QuotientIs(a: limb, t1: limb, m1: limb, d: limb, p: int)
    requires d <= p <= B && 1 <= (B + m1) * d - B * p <= d && 0 < d && t1 == m1 as int * a as int / B
    ensures (a + t1) / p == a / d
  {
    var m, q, e := B + m1, a / d, (B + m1) * d - B * p;
    DivMod(a, d);
    Dist(q, 1, d);
    Scaled(a, m, d, p, e);
    LowerBound(a, q, m, d, p, e);
    UpperBound(a, q, m, d, p, e);
    Product(a, m1, t1);
    Sandwich(a + t1, a * m, q, p);
  }

  lemma Product(a: limb, m1: limb, t1: limb)
    requires t1 == m1 as int * a as int / B
    ensures (a + t1) * B <= a * (B + m1) < (a + t1 + 1) * B
  {
    MulLe(0, a, m1);
    DivMod(m1 as int * a as int, B);
    Dist(B, m1, a);
  }

  lemma Sandwich(x: int, y: int, q: int, p: int)
    requires 0 < p && x * B <= y < (x + 1) * B && q * p * B <= y < (q + 1) * p * B
    ensures x / p == q
  {
    LtMul(q * p, x + 1, B);
    LtMul(x, (q + 1) * p, B);
    Dist(q, 1, p);
    Congruence.Rem(x, q, x - q * p, p);
  }

  lemma Scaled(a: int, m: int, d: int, p: int, e: int)
    requires e == m * d - B * p
    ensures a * m * d == a * (B * p) + a * e
  {
    DistL(a, m * d, B * p);
    Assoc(a, m, d);
  }

  lemma LowerBound(a: limb, q: int, m: int, d: limb, p: int, e: int)
    requires 0 < d && 0 <= p && 0 <= e && q * d <= a && a * m * d == a * (B * p) + a * e
    ensures q * p * B <= a * m
  {
    MulLe(0, a, e);
    MulLe(q * d, a, B * p);
    Regroup(q, d, p);
    LeMul(q * p * B, a * m, d);
  }

  lemma UpperBound(a: limb, q: int, m: int, d: limb, p: int, e: int)
    requires 0 < d && 0 < p && 0 <= e <= p && a < (q + 1) * d && a * m * d == a * (B * p) + a * e
    ensures a * m < (q + 1) * p * B
  {
    MulLe(e, p, a);
    MulLe(a, B - 1, p);
    MulLe(a as int + 1, (q + 1) * d, B * p);
    Dist(a, 1, B * p);
    Regroup(q + 1, d, p);
    LtMul(a * m, (q + 1) * p * B, d);
  }

  lemma Regroup(q: int, d: int, p: int)
    ensures q * d * (B * p) == q * p * B * d
  {
  }

  /** The table of the powers of ten holds what fast_udiv_init computes. */
  const MP_POW_DIV: seq<FastDivData> := [
    FastDivData(0x00000001, 0, 0), FastDivData(0x9999999a, 1, 3), FastDivData(0x47ae147b, 1, 6),
    FastDivData(0x0624dd30, 1, 9), FastDivData(0xa36e2eb2, 1, 13), FastDivData(0x4f8b588f, 1, 16),
    FastDivData(0x0c6f7a0c, 1, 19), FastDivData(0xad7f29ac, 1, 23), FastDivData(0x5798ee24, 1, 26),
    FastDivData(0x12e0be83, 1, 29)
  ]

  const MP_POW_DEC: seq<limb> := [1, 10, 100, 1000, 10000, 100000, 1000000, 10000000, 100000000, 1000000000]

  lemma TableDivides(i: nat)
    requires i <= LIMB_DIGITS
    ensures MP_POW_DEC[i] != 0 && FastUdivInit(MP_POW_DEC[i]) == MP_POW_DIV[i]
  {
    hide Pow2, CeilLog2;
    PowersOf2();
    CeilLog2Is(MP_POW_DEC[i], [0, 4, 7, 10, 14, 17, 20, 24, 27, 30][i]);
  }

  lemma PowersOf2()
    ensures Pow2(0) == 1 && Pow2(3) == 8 && Pow2(4) == 16 && Pow2(6) == 64 && Pow2(7) == 128 && Pow2(9) == 512 && Pow2(10) == 1024
    ensures Pow2(13) == 0x2000 && Pow2(14) == 0x4000 && Pow2(16) == 0x1_0000 && Pow2(17) == 0x2_0000
    ensures Pow2(19) == 0x8_0000 && Pow2(20) == 0x10_0000 && Pow2(23) == 0x80_0000 && Pow2(24) == 0x100_0000
    ensures Pow2(26) == 0x400_0000 && Pow2(27) == 0x800_0000 && Pow2(29) == 0x2000_0000 && Pow2(30) == 0x4000_0000
  {
    hide Pow2;
    Pow2One();
    Pow2Add(1, 1);
    Pow2Add(2, 1);
    Pow2Add(3, 1);
    Pow2Add(3, 3);
    Pow2Add(3, 4);
    Pow2Add(3, 6);
    Pow2Add(3, 7);
    Pow2Add(6, 7);
    Pow2Add(7, 7);
    Pow2Add(6, 10);
    Pow2Add(7, 10);
    Pow2Add(9, 10);
    Pow2Add(10, 10);
    Pow2Add(10, 13);
    Pow2Add(10, 14);
    Pow2Add(10, 16);
    Pow2Add(10, 17);
    Pow2Add(10, 19);
    Pow2Add(10, 20);
  }
}
