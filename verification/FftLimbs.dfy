/**
 From limbs to the digits of a transform and back (limb_to_ntt, put_bits and
 ntt_to_limb in libbf.c).
 */
module FftLimbs {
  import opened Limbs
  import opened MpBase
  import opened Congruence
  import opened Udiv
  import opened Dft
  import opened Rounding
  import opened BfBits
  import opened NttArith
  import opened NttPass
  import opened NttState
  import opened FftDigits

  const MAX_DPL := 2 * LIMB_BITS + 2 * MOD_LOG2_MIN - MOD_LOG2_MAX
  const FAST_DPL := LIMB_BITS + MOD_LOG2_MIN
  const HALF_BITS := LIMB_BITS - MOD_LOG2_MAX + MOD_LOG2_MIN

  /** `a` masked with the `shift` low bits, or with all bits for a shift of zero. */
  function MaskBits(a: limb, shift: nat): (r: limb)
    requires shift < LIMB_BITS
    ensures r <= a
  {
    if shift == 0 then a else DivMod(a, Pow2(shift)); a % Pow2(shift)
  }

  lemma Pow2Values()
    ensures Pow2(HALF_BITS) == HALF && Pow2(1) == 2 && Pow2(FAST_DPL) == P_MIN * B && Pow2(LIMB_BITS) == B
    ensures Pow2(MOD_LOG2_MIN) == P_MIN
  {
    hide Pow2;
    Pow2One();
    Pow2Limb();
    Pow2Add(HALF_BITS, 1);
    Pow2Add(30, 1);
    Pow2Add(MOD_LOG2_MIN, 1);
    Pow2Add(MOD_LOG2_MIN, LIMB_BITS);
  }

  /** The low bits of y, from a whole number of limbs and the bits of the next limb. */
  lemma LowSplit(y: nat, a: nat, b: nat)
    ensures Pow2(a + b) == Pow2(a) * Pow2(b) && y % Pow2(a + b) == y % Pow2(a) + Pow2(a) * (y / Pow2(a) % Pow2(b))
  {
    hide Pow2;
    Pow2Add(a, b);
    DivTwice(y, Pow2(a), Pow2(b));
  }

  /** Masking a limb of y. */
  lemma MaskedLimb(y: nat, bits: nat)
    requires 1 <= bits <= LIMB_BITS
    ensures MaskBits(y % B, bits % LIMB_BITS) == y % Pow2(bits)
  {
    hide Pow2, MaskBits;
    if bits == LIMB_BITS {
      Pow2Limb();
      AllBits(y % B);
    } else {
      SomeBits(y % B, bits);
      LimbPow2(bits);
      ModOfMod(y, Pow2(bits), Pow2(LIMB_BITS - bits), B);
    }
  }

  lemma AllBits(a: limb)
    ensures MaskBits(a, 0) == a
  {
  }

  lemma SomeBits(a: limb, bits: nat)
    requires 1 <= bits < LIMB_BITS
    ensures MaskBits(a, bits % LIMB_BITS) == a % Pow2(bits)
  {
    hide Pow2;
    assert bits % LIMB_BITS == bits;
  }

  lemma ModOfMod(y: nat, p: nat, q: nat, c: nat)
    requires 0 < p && 0 < q && c == p * q
    ensures 0 < c && y % c % p == y % p
  {
    DivTwice(y, p, q);
    DivModAny(y, p);
    var z := y / p % q;
    QuotientIs(y % c, p, z, y % p);
  }

  /** Digit number pos / dpl, split in two where it has more than 61 bits. */
  method ReadDigit(t: seq<limb>, pos: nat, dpl: nat) returns (a: int, a0: limb)
    requires 1 <= dpl <= MAX_DPL
    ensures 0 <= a < P_MIN * B
    ensures var d := V(t, 0, |t|) / Pow2(pos) % Pow2(dpl);
      if dpl <= FAST_DPL then a == d else a0 < HALF && a * HALF + a0 == d
  {
    hide V, Pow2, GetBits, MaskBits;
    DigitOf(t, pos, dpl);
    var shift := dpl % LIMB_BITS;
    a0 := GetBits(t, pos);
    if dpl <= LIMB_BITS {
      a0 := MaskBits(a0, shift);
      a := a0;
    } else {
      var a1: limb := GetBits(t, pos + LIMB_BITS);
      if dpl <= FAST_DPL {
        a := a0 + MaskBits(a1, shift) * B;
      } else {
        var a2: limb := 0;
        if 2 * LIMB_BITS < dpl {
          a2 := MaskBits(GetBits(t, pos + LIMB_BITS * 2), shift);
        } else {
          a1 := MaskBits(a1, shift);
        }
        a := a0 / HALF + a1 * 2 + a2 * (2 * B);
        a0 := a0 % HALF;
      }
    }
  }

  /** The low dpl bits of three limbs. */
  function LowDigit(g0: limb, g1: limb, g2: limb, dpl: nat): int
    requires 1 <= dpl <= MAX_DPL
  {
    if dpl <= LIMB_BITS then MaskBits(g0, dpl % LIMB_BITS)
    else if dpl <= 2 * LIMB_BITS then g0 + MaskBits(g1, dpl % LIMB_BITS) * B
    else g0 + g1 * B + MaskBits(g2, dpl % LIMB_BITS) * (B * B)
  }

  /** A digit from the limbs it lies in. */
  lemma DigitOf(t: seq<limb>, pos: nat, dpl: nat)
    requires 1 <= dpl <= MAX_DPL
    ensures 0 <= V(t, 0, |t|) / Pow2(pos) % Pow2(dpl) < if dpl <= FAST_DPL then P_MIN * B else P_MIN * B * HALF
    ensures V(t, 0, |t|) / Pow2(pos) % Pow2(dpl) ==
      LowDigit(GetBits(t, pos), GetBits(t, pos + LIMB_BITS), GetBits(t, pos + LIMB_BITS * 2), dpl)
  {
    hide V, Pow2, GetBits, LowDigit;
    BitsAt(t, pos, 0);
    var y := V(t, 0, |t|) / Pow2(pos);
    DigitFits(y, dpl);
    LimbsAt(t, pos, y);
    DigitFrom(y, dpl);
  }

  lemma DigitFrom(y: nat, dpl: nat)
    requires 1 <= dpl <= MAX_DPL
    ensures y % Pow2(dpl) == LowDigit(y % B, y / B % B, y / (B * B) % B, dpl)
  {
    hide Pow2, MaskBits, LowDigit;
    if dpl <= LIMB_BITS {
      MaskedLimb(y, dpl);
      LowDigitIs(y % B, y / B % B, y / (B * B) % B, dpl, dpl);
    } else if dpl <= 2 * LIMB_BITS {
      TwoLimbs(y, dpl - LIMB_BITS);
      LowDigitIs(y % B, y / B % B, y / (B * B) % B, dpl, dpl - LIMB_BITS);
    } else {
      ThreeLimbs(y, dpl - 2 * LIMB_BITS);
      LowDigitIs(y % B, y / B % B, y / (B * B) % B, dpl, dpl - 2 * LIMB_BITS);
    }
  }

  /** The digit by the number of bits of its last limb. */
  lemma LowDigitIs(g0: limb, g1: limb, g2: limb, dpl: nat, bits: nat)
    requires 1 <= dpl <= MAX_DPL && 1 <= bits <= LIMB_BITS
    ensures dpl == bits ==> LowDigit(g0, g1, g2, dpl) == MaskBits(g0, bits % LIMB_BITS)
    ensures dpl == LIMB_BITS + bits ==> LowDigit(g0, g1, g2, dpl) == g0 as int + MaskBits(g1, bits % LIMB_BITS) * B
    ensures dpl == 2 * LIMB_BITS + bits ==>
      LowDigit(g0, g1, g2, dpl) == g0 as int + g1 as int * B + MaskBits(g2, bits % LIMB_BITS) * (B * B)
  {
    hide MaskBits;
  }

  lemma LimbsAt(t: seq<limb>, pos: nat, y: nat)
    requires y == V(t, 0, |t|) / Pow2(pos)
    ensures GetBits(t, pos) == y % B && GetBits(t, pos + LIMB_BITS) == y / B % B
    ensures GetBits(t, pos + LIMB_BITS * 2) == y / (B * B) % B
  {
    hide V, Pow2, GetBits, BP;
    BitsAt(t, pos, 0);
    BitsAt(t, pos, 1);
    BitsAt(t, pos, 2);
    BPSmall();
    QuotientIs(y, 1, y, 0);
  }

  /** Limb k of the number that starts at bit pos. */
  lemma BitsAt(t: seq<limb>, pos: nat, k: nat)
    ensures 0 <= V(t, 0, |t|) / Pow2(pos)
    ensures GetBits(t, pos + LIMB_BITS * k) == V(t, 0, |t|) / Pow2(pos) / BP(k) % B
  {
    hide V, Pow2, GetBits, BP;
    GetBitsIs(t, pos + LIMB_BITS * k);
    Pow2Add(pos, LIMB_BITS * k);
    BitsOfLimbs(k);
    DivTwice(V(t, 0, |t|), Pow2(pos), BP(k));
    DivMod(V(t, 0, |t|), Pow2(pos));
  }

  lemma TwoLimbs(y: nat, bits: nat)
    requires 1 <= bits <= LIMB_BITS
    ensures y % Pow2(LIMB_BITS + bits) == y % B + MaskBits(y / B % B, bits % LIMB_BITS) * B
  {
    hide Pow2, MaskBits;
    DivMod(y, B);
    Pow2Limb();
    MaskedLimb(y / B, bits);
    LowSplit(y, LIMB_BITS, bits);
  }

  lemma ThreeLimbs(y: nat, bits: nat)
    requires 1 <= bits <= LIMB_BITS
    ensures y % Pow2(2 * LIMB_BITS + bits) == y % B + (y / B % B) * B + MaskBits(y / (B * B) % B, bits % LIMB_BITS) * (B * B)
  {
    hide Pow2, MaskBits;
    DivMod(y, B);
    Pow2Limb();
    Pow2Add(LIMB_BITS, LIMB_BITS);
    DivTwice(y, B, B);
    DivMod(y / B, B);
    MaskedLimb(y / B / B, bits);
    LowSplit(y, 2 * LIMB_BITS, bits);
  }

  lemma DigitFits(y: nat, dpl: nat)
    requires 1 <= dpl <= MAX_DPL
    ensures 0 <= y % Pow2(dpl) < if dpl <= FAST_DPL then P_MIN * B else P_MIN * B * HALF
  {
    hide Pow2;
    Pow2Values();
    if dpl <= FAST_DPL {
      Pow2Add(dpl, FAST_DPL - dpl);
      MulLe(1, Pow2(FAST_DPL - dpl), Pow2(dpl));
    } else {
      Pow2Add(FAST_DPL, HALF_BITS);
      Pow2Add(dpl, FAST_DPL + HALF_BITS - dpl);
      MulLe(1, Pow2(FAST_DPL + HALF_BITS - dpl), Pow2(dpl));
    }
    DivModAny(y, Pow2(dpl));
  }

  /** The digits of a number modulo one of the moduli, with zeros above. */
  method LimbToNtt(s: NttModulus, fftLen: nat, taba: array<limb>, ao: nat, aLen: nat, dpl: nat) returns (tabr: array<limb>)
    requires s.Static() && 1 <= dpl <= MAX_DPL && ao + aLen <= taba.Length
    ensures fresh(tabr) && tabr.Length == fftLen && EntriesBelow(tabr[..], s.m)
    ensures forall i :: 0 <= i < fftLen ==> tabr[i] == Digit(V(taba[..], ao, aLen), Pow2(dpl), i) % s.m
  {
    hide V, Pow2, GetBits, Digit;
    var m, mInv := s.m, s.div;
    var t := taba[ao..ao + aLen];
    ghost var v := V(taba[..], ao, aLen);
    assert V(t, 0, |t|) == v by { assert taba[..][ao..ao + aLen] == t[0..aLen]; VSame(taba[..], ao, t, 0, aLen); }
    tabr := new limb[fftLen](_ => 0);
    var digits := (aLen * LIMB_BITS + dpl - 1) / dpl;
    CeilDigits(v, aLen, dpl, digits, t);
    var n := if fftLen < digits then fftLen else digits;
    for i := 0 to n
      invariant forall e :: 0 <= e < i ==> tabr[e] < m && tabr[e] == Digit(v, Pow2(dpl), e) % m
      invariant forall e :: i <= e < fftLen ==> tabr[e] == 0
    {
      MulLe(0, i, dpl);
      var a, a0 := ReadDigit(t, i * dpl, dpl);
      DigitPlace(v, dpl, i);
      var r := ModFast(a, m, mInv);
      if FAST_DPL < dpl {
        JoinHalves(a, r, a0, m);
        r := ModFast(r * HALF + a0, m, mInv);
      }
      tabr[i] := r;
    }
    forall i | 0 <= i < fftLen ensures tabr[i] < m && tabr[i] == Digit(v, Pow2(dpl), i) % m {
      if n <= i { ZeroDigit(v, Pow2(dpl), n, i, m); }
    }
  }

  lemma ZeroDigit(v: nat, x: nat, n: nat, i: nat, m: int)
    requires 1 < x && v < Pow(x, n) && n <= i && 0 < m
    ensures Digit(v, x, i) % m == 0
  {
    hide Pow;
    PowGrows(x, n, i);
    QuotientIs(v, Pow(x, i), 0, v);
    Rem(0, 0, 0, x);
    Rem(0, 0, 0, m);
  }

  lemma {:induction false} Pow2IsPow(dpl: nat, i: nat)
    ensures 0 <= i * dpl && Pow(Pow2(dpl), i) == Pow2(i * dpl)
  {
    if i == 0 {
    } else {
      Pow2IsPow(dpl, i - 1);
      Dist(i, 1, dpl);
      MulLe(0, i - 1, dpl);
      Pow2Add(dpl, (i - 1) * dpl);
    }
  }

  lemma DigitPlace(v: nat, dpl: nat, i: nat)
    ensures 0 <= i * dpl && Digit(v, Pow2(dpl), i) == v / Pow2(i * dpl) % Pow2(dpl)
  {
    hide Pow, Pow2;
    Pow2IsPow(dpl, i);
  }

  /** ceil(32 n / dpl) digits hold n limbs. */
  lemma CeilDigits(v: nat, n: nat, dpl: nat, digits: int, t: seq<limb>)
    requires 1 <= dpl && digits == (n * LIMB_BITS + dpl - 1) / dpl && |t| == n && v == V(t, 0, n)
    ensures 0 <= digits && 1 < Pow2(dpl) && v < Pow(Pow2(dpl), digits)
  {
    hide Pow2, Pow, V, BP;
    VBound(t, 0, n);
    BitsOfLimbs(n);
    DivMod(n * LIMB_BITS + dpl - 1, dpl);
    Pow2IsPow(dpl, digits);
    Pow2Up(n * LIMB_BITS, digits * dpl);
    Pow2One();
    Pow2Up(1, dpl);
  }

  /** Reducing the upper part first. */
  lemma JoinHalves(a: int, r: limb, a0: limb, m: limb)
    requires Modulus(m) && a0 < HALF && r == a % m
    ensures 0 <= r * HALF + a0 < P_MIN * B && (r * HALF + a0) % m == (a * HALF + a0) % m
  {
    CongMod(a, m);
    CongSelf(HALF, m);
    CongMul(r, a, HALF, HALF, m);
    CongSelf(a0, m);
    CongAdd(r * HALF, a * HALF, a0, a0, m);
    MulLe(r + 1, P_MAX, HALF);
  }
}
