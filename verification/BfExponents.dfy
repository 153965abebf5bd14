/**
 The range of exponents, by the number of exponent bits alone: the largest and the smallest numbers that a
 rounded result can be, when it overflows, and where its last bit is.  Binary64 is the instance with 11
 exponent bits and 53 bits of precision.
 */
module BfExponents {
  import opened Limbs
  import opened Udiv
  import opened Rounding
  import opened BfBits
  import opened BfFloat
  import opened BfSquareRoot
  import opened BfRange

  // ---------------------------------------------------------------- x * 2^e <= y * 2^f

  ghost predicate AtMost(x: nat, e: int, y: nat, f: int) {
    if e <= f then x <= y * Pow2(f - e) else x * Pow2(e - f) <= y
  }

  /** On a finer scale. */
  lemma AtMostOn(x: nat, e: int, y: nat, f: int, b: int)
    requires b <= e && b <= f
    ensures AtMost(x, e, y, f) <==> x * Pow2(e - b) <= y * Pow2(f - b)
  {
    hide Pow2;
    if e <= f {
      Pow2Add(f - e, e - b);
      Assoc(y, Pow2(f - e), Pow2(e - b));
      Scaled(x, y * Pow2(f - e), Pow2(e - b));
    } else {
      Pow2Add(e - f, f - b);
      Assoc(x, Pow2(e - f), Pow2(f - b));
      Scaled(x * Pow2(e - f), y, Pow2(f - b));
    }
  }

  lemma Scaled(x: int, y: int, c: nat)
    requires 0 < c
    ensures x <= y <==> x * c <= y * c
  {
    if x <= y { MulLe(x, y, c); } else { MulLt(y, x, c); }
  }

  lemma AtMostTrans(x: nat, e: int, y: nat, f: int, z: nat, g: int)
    requires AtMost(x, e, y, f) && AtMost(y, f, z, g)
    ensures AtMost(x, e, z, g)
  {
    hide Pow2, AtMost;
    var b := if e <= f && e <= g then e else if f <= g then f else g;
    AtMostOn(x, e, y, f, b);
    AtMostOn(y, f, z, g, b);
    AtMostOn(x, e, z, g, b);
  }

  lemma AtMostSame(x: nat, y: nat, e: int)
    ensures AtMost(x, e, y, e) <==> x <= y
  {
    Pow2One();
  }

  /** Powers of two are compared by their exponents. */
  lemma AtMostPowers(a: nat, e: int, b: nat, f: int)
    ensures AtMost(Pow2(a), e, Pow2(b), f) <==> e + a <= f + b
  {
    hide Pow2, AtMost;
    var c := if e <= f then e else f;
    AtMostOn(Pow2(a), e, Pow2(b), f, c);
    Pow2Add(a, e - c);
    Pow2Add(b, f - c);
    PowersOrdered(a + (e - c), b + (f - c));
  }

  lemma PowersOrdered(a: nat, b: nat)
    ensures Pow2(a) <= Pow2(b) <==> a <= b
  {
    hide Pow2;
    if a <= b { Pow2Up(a, b); } else { PowersGrow(b, a); }
  }

  /** The same number on two scales. */
  lemma AtMostMoved(x: nat, e: int, j: nat, y: nat, f: int)
    ensures AtMost(x * Pow2(j), e, y, f) <==> AtMost(x, e + j, y, f)
    ensures AtMost(y, f, x * Pow2(j), e) <==> AtMost(y, f, x, e + j)
  {
    hide Pow2, AtMost;
    var b := if e <= f then e else f;
    AtMostOn(x * Pow2(j), e, y, f, b);
    AtMostOn(x, e + j, y, f, b);
    AtMostOn(y, f, x * Pow2(j), e, b);
    AtMostOn(y, f, x, e + j, b);
    Pow2Add(j, e - b);
    Assoc(x, Pow2(j), Pow2(e - b));
  }

  lemma HeldAtMost(r: Bf, x: nat, low: int, y: nat, f: int)
    requires r.Holds(x, low)
    ensures AtMost(r.Mant(), r.LowExp(), y, f) <==> AtMost(x, low, y, f)
    ensures AtMost(y, f, r.Mant(), r.LowExp()) <==> AtMost(y, f, x, low)
  {
    hide Pow2, AtMost, V;
    AtMostMoved(r.Mant(), low, r.LowExp() - low, y, f);
  }

  // ---------------------------------------------------------------- rounded values

  /** x * 2^low is a rounded value of a number with w bits above 2^low, of which the lowest t are cut off. */
  ghost predicate Rounded(x: int, w: nat, t: nat, low: int, prec: nat, flags: Flags)
    requires 1 <= flags.expBits
  {
    && w - t == EffectivePrec(low + w, prec, flags)
    && exists c: nat :: x == c * Pow2(t) && if w <= t then c <= 1 else Pow2(w - t) <= 2 * c <= 2 * Pow2(w - t)
  }

  lemma CorrectIsRounded(neg: bool, n: nat, d: nat, e: int, prec: nat, flags: Flags, k: nat, w: nat, t: nat)
    requires 1 <= flags.expBits && UnitOf(n, d, e, prec, flags, k, w, t)
    ensures 0 < d * Pow2(t) && Rounded(RoundedValue(neg, n, d, flags, k, t), w, t, e - k, prec, flags)
  {
    hide Pow2, Round, EffectivePrec;
    var c := Round(flags.mode, neg, n * Pow2(k), d * Pow2(t));
    if w <= t {
      Pow2Up(w, t);
      MulLe(Pow2(w), Pow2(t), d);
      RoundBetween(flags.mode, neg, n * Pow2(k), d * Pow2(t), 0, 1);
    } else {
      var h := Pow2(w - t - 1);
      TwoHalves(w, t);
      HalfWidths(h, d, Pow2(t), Pow2(w));
      RoundBetween(flags.mode, neg, n * Pow2(k), d * Pow2(t), h, 2 * h);
    }
  }

  lemma TwoHalves(w: nat, t: nat)
    requires t < w
    ensures Pow2(w) == 2 * Pow2(w - t - 1) * Pow2(t) && Pow2(w - t) == 2 * Pow2(w - t - 1)
  {
    hide Pow2;
    Pow2Add(w - t, t);
    Pow2Add(1, w - t - 1);
    Pow2One();
  }

  lemma RoundBetween(mode: RndMode, neg: bool, p: nat, unit: nat, lo: nat, hi: nat)
    requires 0 < unit && lo * unit <= p < hi * unit
    ensures lo <= Round(mode, neg, p, unit) <= hi
  {
    hide Round;
    RoundIsCorrect(mode, neg, p, unit);
    NearInteger(Round(mode, neg, p, unit), unit, p, lo, hi);
  }

  lemma HalfWidths(h: nat, d: nat, t: nat, w: nat)
    requires w == 2 * h * t
    ensures w * d == 2 * (h * (d * t)) && 2 * h * (d * t) == w * d
  {
    Assoc(2 * h, t, d);
    Assoc(2, h, d * t);
  }

  /** A rounded number lies between the multiples that the number lies between. */
  lemma NearInteger(c: int, unit: nat, p: nat, lo: nat, hi: nat)
    requires 0 < unit && Distance(c * unit, p) < unit && lo * unit <= p < hi * unit
    ensures lo <= c <= hi
  {
    Dist(lo, 1, unit);
    Dist(hi, 1, unit);
    if c < lo { MulLe(c, lo - 1, unit); }
    if hi < c { MulLe(hi + 1, c, unit); }
  }

  lemma RootIsRounded(n: nat, e: int, prec: nat, flags: Flags, k: nat, w: nat, t: nat, x: int)
    requires 1 <= flags.expBits && RootUnit(n, e, prec, flags, k, w, t) && IsRootRounded(flags.mode, n * Pow2(k), Pow2(t), x)
    ensures Rounded(x * Pow2(t), w, t, e, prec, flags)
  {
    hide Pow2, EffectivePrec, IsRootRounded;
    if w <= t {
      Pow2Up(w, t);
      RootBetween(flags.mode, n * Pow2(k), Pow2(t), x, Pow2(w), 0, 1);
    } else {
      var h := Pow2(w - t - 1);
      TwoHalves(w, t);
      Assoc(2, h, Pow2(t));
      RootBetween(flags.mode, n * Pow2(k), Pow2(t), x, Pow2(w), h, 2 * h);
    }
  }

  lemma Picked(mode: RndMode, m: int, f: Frac)
    ensures m <= Pick(mode, false, m, f) <= m + 1
  {
  }

  lemma RootBetween(mode: RndMode, a: nat, u: nat, x: int, w: nat, lo: nat, hi: nat)
    requires 0 < u && IsRootRounded(mode, a, u, x) && w * w <= 4 * a < 4 * (w * w)
    requires w <= hi * u && 2 * (lo * u) <= w
    ensures lo <= x <= hi
  {
    hide RootFrac, Pick;
    var m: nat :| m * u * (m * u) <= a < (m + 1) * u * ((m + 1) * u) && x == Pick(mode, false, m, RootFrac(a, m, u));
    Picked(mode, m, RootFrac(a, m, u));
    MulLe(0, m, u);
    MulLe(0, m + 1, u);
    RootBelowWidth(a, m * u, w);
    RootAboveHalf(a, (m + 1) * u, w);
    LtMul(m, hi, u);
    LtMul(lo, m + 1, u);
  }

  lemma RootBelowWidth(a: nat, x: nat, w: nat)
    requires x * x <= a < w * w
    ensures x < w
  {
    if w <= x {
      MulLe(w, x, w);
      MulLe(w, x, x);
    }
  }

  lemma RootAboveHalf(a: nat, y: nat, w: nat)
    requires a < y * y && w * w <= 4 * a
    ensures w < 2 * y
  {
    Assoc(2 * y, 2, y);
    Assoc(2, y, 2 * y);
    if 2 * y <= w {
      MulLe(2 * y, w, w);
      MulLe(2 * y, w, 2 * y);
    }
  }

  // ---------------------------------------------------------------- the range

  /** What ResultIs says of a finite result: the rounded value itself, or the largest number. */
  lemma FiniteResult(r: Bf, neg: bool, x: int, w: nat, bits: int, low: int, inexact: bool, prec: nat, flags: Flags, st: Status)
    requires 1 <= flags.expBits && r.ResultIs(neg, x, w, bits, low, inexact, prec, flags, st) && r.Finite()
    ensures var top := Pow2(flags.expBits - 1);
      || (r.Holds(x, low) && (0 < bits ==> RoundedExpn(x, w, low) <= top && (flags.subnormal || 3 - top <= RoundedExpn(x, w, low))))
      || (prec <= LIMB_BITS * r.tab.Length && r.expn == top && r.Mant() == BP(r.tab.Length) - Pow2(LIMB_BITS * r.tab.Length - prec))
  {
    hide Pow2, V, BP;
  }

  lemma PrecByRange(expn: int, prec: nat, flags: Flags)
    requires 1 <= flags.expBits && !flags.radPnt
    ensures var least := 3 - Pow2(flags.expBits - 1);
      EffectivePrec(expn, prec, flags) == if flags.subnormal && expn < least then prec - (least - expn) else prec
  {
    hide Pow2;
  }

  lemma TopIs(flags: Flags)
    requires 2 <= flags.expBits
    ensures 2 <= Pow2(flags.expBits - 1)
  {
    hide Pow2;
    Pow2Up(1, flags.expBits - 1);
    Pow2Add(0, 1);
    Pow2One();
  }

  lemma OnesBelow(bits: nat, prec: nat, f: int, g: int)
    requires bits <= prec && f + bits <= g + prec
    ensures AtMost(Pow2(bits) - 1, f, Pow2(prec) - 1, g)
  {
    hide Pow2, AtMost;
    var j := prec - bits;
    Pow2Add(bits, j);
    Dist(Pow2(bits), 1, Pow2(j));
    AtMostSame((Pow2(bits) - 1) * Pow2(j), Pow2(prec) - 1, f - j);
    AtMostMoved(Pow2(bits) - 1, f - j, j, Pow2(prec) - 1, f - j);
    Higher(Pow2(prec) - 1, f - j, g);
    AtMostTrans(Pow2(bits) - 1, f, Pow2(prec) - 1, f - j, Pow2(prec) - 1, g);
  }

  lemma Higher(x: nat, e: int, f: int)
    requires e <= f
    ensures AtMost(x, e, x, f)
  {
    hide Pow2;
    MulLe(1, Pow2(f - e), x);
  }

  /** A power of two below 2^top is not above the number with `prec` ones below 2^top. */
  lemma PowerBelow(a: nat, e: int, prec: nat, top: int)
    requires 1 <= prec && e + a <= top - 1
    ensures AtMost(Pow2(a), e, Pow2(prec) - 1, top - prec)
  {
    hide Pow2, AtMost;
    AtMostPowers(a, e, prec - 1, top - prec);
    Pow2Add(1, prec - 1);
    Pow2One();
    AtMostSame(Pow2(prec - 1), Pow2(prec) - 1, top - prec);
    AtMostTrans(Pow2(a), e, Pow2(prec - 1), top - prec, Pow2(prec) - 1, top - prec);
  }

  /** The rounded value is not above the largest number, if its exponent is in range. */
  lemma RoundedBelow(x: nat, w: nat, t: nat, low: int, prec: nat, flags: Flags)
    requires 2 <= flags.expBits && 1 <= prec && !flags.radPnt && Rounded(x, w, t, low, prec, flags)
    requires t < w ==> RoundedExpn(x, w, low) <= Pow2(flags.expBits - 1)
    ensures AtMost(x, low, Pow2(prec) - 1, Pow2(flags.expBits - 1) - prec)
  {
    hide Pow2, AtMost, EffectivePrec;
    var top, goal := Pow2(flags.expBits - 1), Pow2(prec) - 1;
    TopIs(flags);
    PrecByRange(low + w, prec, flags);
    var c: nat :| x == c * Pow2(t) && if w <= t then c <= 1 else Pow2(w - t) <= 2 * c <= 2 * Pow2(w - t);
    if w <= t {
      MulLe(c, 1, Pow2(t));
      AtMostSame(x, Pow2(t), low);
      PowerBelow(t, low, prec, top);
      AtMostTrans(x, low, Pow2(t), low, goal, top - prec);
    } else if c == Pow2(w - t) {
      Pow2Add(w - t, t);
      PowerBelow(w, low, prec, top);
    } else {
      NotThePower(c, w, t);
      AtMostSame(c, Pow2(w - t) - 1, low + t);
      OnesBelow(w - t, prec, low + t, top - prec);
      AtMostTrans(c, low + t, Pow2(w - t) - 1, low + t, goal, top - prec);
      AtMostMoved(c, low, t, goal, top - prec);
    }
  }

  lemma NotThePower(c: nat, w: nat, t: nat)
    requires t <= w && c < Pow2(w - t)
    ensures c * Pow2(t) < Pow2(w)
  {
    hide Pow2;
    Pow2Add(w - t, t);
    MulLt(c, Pow2(w - t), Pow2(t));
  }

  /** A finite result is at most the number with `prec` ones below 2^(2^(expBits - 1)). */
  lemma LargestResult(r: Bf, neg: bool, x: nat, w: nat, t: nat, low: int, inexact: bool, prec: nat, flags: Flags, st: Status)
    requires 2 <= flags.expBits && 1 <= prec && !flags.radPnt && Rounded(x, w, t, low, prec, flags)
    requires r.ResultIs(neg, x, w, w - t, low, inexact, prec, flags, st) && r.Finite()
    ensures AtMost(r.Mant(), r.LowExp(), Pow2(prec) - 1, Pow2(flags.expBits - 1) - prec)
  {
    hide Pow2, AtMost, EffectivePrec, V, BP, Bf.ResultIs, Rounded, RoundedExpn;
    var top := Pow2(flags.expBits - 1);
    FiniteResult(r, neg, x, w, w - t, low, inexact, prec, flags, st);
    if r.Holds(x, low) && (t < w ==> RoundedExpn(x, w, low) <= top) {
      RoundedBelow(x, w, t, low, prec, flags);
      HeldAtMost(r, x, low, Pow2(prec) - 1, top - prec);
    } else {
      var bits: nat := LIMB_BITS * r.tab.Length;
      BitsOfLimbs(r.tab.Length);
      Pow2Add(prec, bits - prec);
      Dist(Pow2(prec), 1, Pow2(bits - prec));
      AtMostMoved(Pow2(prec) - 1, r.LowExp(), bits - prec, Pow2(prec) - 1, top - prec);
      AtMostSame(Pow2(prec) - 1, Pow2(prec) - 1, top - prec);
    }
  }

  /** The exponent of a rounded value is too large exactly if the value reaches 2^(2^(expBits - 1)). */
  lemma ReachesTop(x: nat, w: nat, t: nat, low: int, prec: nat, flags: Flags)
    requires 1 <= flags.expBits && Rounded(x, w, t, low, prec, flags) && t < w
    ensures Pow2(flags.expBits - 1) < RoundedExpn(x, w, low) <==> AtMost(1, Pow2(flags.expBits - 1), x, low)
  {
    hide Pow2, AtMost, EffectivePrec, Rounded;
    var top := Pow2(flags.expBits - 1);
    InBinade(x, w, t, low, prec, flags);
    Pow2One();
    if x == Pow2(w) {
      AtMostPowers(0, top, w, low);
    } else if low + w <= top {
      AtMostPowers(w, low, 0, top);
      if AtMost(1, top, x, low) {
        AtMostTrans(Pow2(w), low, 1, top, x, low);
        AtMostSame(Pow2(w), x, low);
      }
    } else {
      AtMostPowers(0, top, w - 1, low);
      AtMostSame(Pow2(w - 1), x, low);
      AtMostTrans(1, top, Pow2(w - 1), low, x, low);
    }
  }

  lemma InBinade(x: nat, w: nat, t: nat, low: int, prec: nat, flags: Flags)
    requires 1 <= flags.expBits && Rounded(x, w, t, low, prec, flags) && t < w
    ensures Pow2(w - 1) <= x <= Pow2(w)
  {
    hide Pow2, EffectivePrec;
    var c: nat :| x == c * Pow2(t) && Pow2(w - t) <= 2 * c <= 2 * Pow2(w - t);
    TwoHalves(w, t);
    Pow2Add(w - t - 1, t);
    Pow2Add(w - t, t);
    MulLe(Pow2(w - t - 1), c, Pow2(t));
    MulLe(c, Pow2(w - t), Pow2(t));
  }

  /**
   A finite result is not smaller than 2^(2 - 2^(expBits - 1)), or, with subnormal numbers, than the last
   bit of those.
   */
  lemma SmallestResult(r: Bf, neg: bool, x: nat, w: nat, t: nat, low: int, inexact: bool, prec: nat, flags: Flags, st: Status)
    requires 2 <= flags.expBits && 1 <= prec && !flags.radPnt && Rounded(x, w, t, low, prec, flags)
    requires r.ResultIs(neg, x, w, w - t, low, inexact, prec, flags, st) && r.Finite()
    ensures AtMost(1, 3 - Pow2(flags.expBits - 1) - (if flags.subnormal then prec else 1), r.Mant(), r.LowExp())
  {
    hide Pow2, AtMost, EffectivePrec, V, BP, Bf.ResultIs, Rounded, RoundedExpn;
    var top := Pow2(flags.expBits - 1);
    var least: int := 3 - top - if flags.subnormal then prec else 1;
    FiniteResult(r, neg, x, w, w - t, low, inexact, prec, flags, st);
    if r.Holds(x, low) && (t < w ==> flags.subnormal || 3 - top <= RoundedExpn(x, w, low)) {
      HeldNotZero(r, x, low);
      RoundedAbove(x, w, t, low, prec, flags, least);
      HeldAtMost(r, x, low, 1, least);
    } else {
      OnesAbove(r, prec, top, flags);
      AtMostPowers(0, least, prec - 1, top - prec);
      Pow2One();
      TopIs(flags);
      AtMostTrans(1, least, Pow2(prec - 1), top - prec, r.Mant(), r.LowExp());
    }
  }

  lemma HeldNotZero(r: Bf, x: nat, low: int)
    requires r.Holds(x, low)
    ensures 0 < x
  {
    hide Pow2, V, BP;
    TopBound(r.tab[..], 0, r.tab.Length);
    MulLe(1, r.Mant(), Pow2(r.LowExp() - low));
  }

  lemma OnesAbove(r: Bf, prec: nat, top: nat, flags: Flags)
    requires 1 <= prec <= LIMB_BITS * r.tab.Length && r.expn == top && r.Mant() == BP(r.tab.Length) - Pow2(LIMB_BITS * r.tab.Length - prec)
    ensures AtMost(Pow2(prec - 1), top - prec, r.Mant(), r.LowExp())
  {
    hide Pow2, AtMost, V, BP;
    var bits: nat := LIMB_BITS * r.tab.Length;
    BitsOfLimbs(r.tab.Length);
    Pow2Add(prec, bits - prec);
    Pow2Add(1, prec - 1);
    Pow2One();
    Dist(Pow2(prec), 1, Pow2(bits - prec));
    MulLe(Pow2(prec - 1), Pow2(prec) - 1, Pow2(bits - prec));
    AtMostSame(Pow2(prec - 1) * Pow2(bits - prec), r.Mant(), r.LowExp());
    AtMostMoved(Pow2(prec - 1), r.LowExp(), bits - prec, r.Mant(), r.LowExp());
  }

  lemma RoundedAbove(x: nat, w: nat, t: nat, low: int, prec: nat, flags: Flags, least: int)
    requires 2 <= flags.expBits && 1 <= prec && !flags.radPnt && Rounded(x, w, t, low, prec, flags) && 0 < x
    requires t < w ==> flags.subnormal || 3 - Pow2(flags.expBits - 1) <= RoundedExpn(x, w, low)
    requires least == 3 - Pow2(flags.expBits - 1) - if flags.subnormal then prec else 1
    ensures AtMost(1, least, x, low)
  {
    hide Pow2, AtMost, EffectivePrec;
    PrecByRange(low + w, prec, flags);
    Pow2One();
    var c: nat :| x == c * Pow2(t) && if w <= t then c <= 1 else Pow2(w - t) <= 2 * c <= 2 * Pow2(w - t);
    if w <= t {
      AtMostPowers(0, least, t, low);
    } else if x == Pow2(w) {
      AtMostPowers(0, least, w, low);
    } else {
      InBinade(x, w, t, low, prec, flags);
      AtMostPowers(0, least, w - 1, low);
      AtMostSame(Pow2(w - 1), x, low);
      AtMostTrans(1, least, Pow2(w - 1), low, x, low);
    }
  }

  // ---------------------------------------------------------------- sums, quotients and roots

  /** Every finite result lies between the smallest and the largest number. */
  ghost predicate InRange(r: Bf, prec: nat, expBits: nat, subnormal: bool)
    requires 1 <= prec && 1 <= expBits
    reads r, r.tab
  {
    && AtMost(1, 3 - Pow2(expBits - 1) - (if subnormal then prec else 1), r.Mant(), r.LowExp())
    && AtMost(r.Mant(), r.LowExp(), Pow2(prec) - 1, Pow2(expBits - 1) - prec)
  }

  lemma ResultInRange(r: Bf, neg: bool, n: nat, d: nat, e: int, prec: nat, flags: Flags, st: Status)
    requires 2 <= flags.expBits && 1 <= prec && !flags.radPnt && r.CorrectResult(neg, n, d, e, prec, flags, st) && r.Finite()
    ensures InRange(r, prec, flags.expBits, flags.subnormal)
  {
    hide Pow2, Round, AtMost, Rounded, Bf.ResultIs, UnitOf, Bf.Finite;
    var k: nat, w: nat, t: nat :| r.CorrectAt(neg, n, d, e, prec, flags, st, k, w, t);
    CorrectIsRounded(neg, n, d, e, prec, flags, k, w, t);
    var x := RoundedValue(neg, n, d, flags, k, t);
    RoundedNotNegative(x, w, t, e - k, prec, flags);
    LargestResult(r, neg, x, w, t, e - k, FracAt(n * Pow2(k), d * Pow2(t)) != Exact, prec, flags, st);
    SmallestResult(r, neg, x, w, t, e - k, FracAt(n * Pow2(k), d * Pow2(t)) != Exact, prec, flags, st);
  }

  lemma RoundedNotNegative(x: int, w: nat, t: nat, low: int, prec: nat, flags: Flags)
    requires 1 <= flags.expBits && Rounded(x, w, t, low, prec, flags)
    ensures 0 <= x
  {
    hide Pow2, EffectivePrec;
    var c: nat :| x == c * Pow2(t) && if w <= t then c <= 1 else Pow2(w - t) <= 2 * c <= 2 * Pow2(w - t);
    MulLe(0, c, Pow2(t));
  }

  lemma RootResultInRange(r: Bf, n: nat, e2: int, prec: nat, flags: Flags, st: Status)
    requires 2 <= flags.expBits && 1 <= prec && !flags.radPnt && CorrectRoot(r, n, e2, prec, flags, st) && r.Finite()
    ensures InRange(r, prec, flags.expBits, flags.subnormal)
  {
    hide Pow2, AtMost, Rounded, Bf.ResultIs, RootUnit, IsRootRounded, Bf.Finite;
    var k: nat, w: nat, t: nat, x: int :| RootAt(r, n, e2, prec, flags, st, k, w, t, x);
    var low := (e2 - k) / 2;
    RootIsRounded(n, low, prec, flags, k, w, t, x);
    RoundedNotNegative(x * Pow2(t), w, t, low, prec, flags);
    LargestResult(r, false, x * Pow2(t), w, t, low, n * Pow2(k) != x * Pow2(t) * (x * Pow2(t)), prec, flags, st);
    SmallestResult(r, false, x * Pow2(t), w, t, low, n * Pow2(k) != x * Pow2(t) * (x * Pow2(t)), prec, flags, st);
  }

  /** Where bits are kept, overflow happens exactly if the rounded exact value reaches 2^(2^(expBits - 1)). */
  lemma OverflowExactly(r: Bf, neg: bool, n: nat, d: nat, e: int, prec: nat, flags: Flags, st: Status, k: nat, w: nat, t: nat)
    requires 1 <= flags.expBits && r.CorrectResult(neg, n, d, e, prec, flags, st) && UnitOf(n, d, e, prec, flags, k, w, t) && t < w
    ensures var x := RoundedValue(neg, n, d, flags, k, t);
      0 <= x && (st.overflow <==> AtMost(1, Pow2(flags.expBits - 1), x, e - k))
  {
    hide Pow2, Round, AtMost, Rounded, UnitOf, Bf.CorrectResult, Bf.RoundedTo;
    CorrectIsRounded(neg, n, d, e, prec, flags, k, w, t);
    var x := RoundedValue(neg, n, d, flags, k, t);
    RoundedNotNegative(x, w, t, e - k, prec, flags);
    OutcomeByExponent(r, neg, n, d, e, prec, flags, st, k, w, t);
    ReachesTop(x, w, t, e - k, prec, flags);
  }

  /**
   On overflow: infinity for the nearest modes and away from zero, and for a directed mode on its side;
   otherwise the largest number.
   */
  lemma OverflowSide(r: Bf, neg: bool, n: nat, d: nat, e: int, prec: nat, flags: Flags, st: Status)
    requires 1 <= flags.expBits && 1 <= prec < PREC_INF && r.CorrectResult(neg, n, d, e, prec, flags, st) && st.overflow
    requires flags.mode != RNDF
    ensures r.sign == neg && st.inexact
    ensures if flags.mode == RNDZ || flags.mode == (if neg then RNDU else RNDD) then r.Finite() else r.IsInf()
    ensures r.Finite() ==> r.Mant() == BP(r.tab.Length) - Pow2(LIMB_BITS * r.tab.Length - prec) && r.expn == Pow2(flags.expBits - 1)
  {
    hide Pow2, Round, FracAt, UnitOf, V, BP, EffectivePrec;
    var k: nat, w: nat, t: nat :| r.CorrectAt(neg, n, d, e, prec, flags, st, k, w, t);
  }

  /**
   The last bit that is kept: `prec` bits below the first, or below the least exponent of subnormal numbers;
   with BF_FLAG_RADPNT_PREC, `prec` bits behind the point.
   */
  lemma LastBit(n: nat, d: nat, e: int, prec: nat, flags: Flags, k: nat, w: nat, t: nat)
    requires 1 <= flags.expBits && UnitOf(n, d, e, prec, flags, k, w, t)
    ensures var expn, least := e - k + w, 3 - Pow2(flags.expBits - 1);
      e - k + t == if flags.radPnt then (if prec == PREC_INF then expn - prec else 0 - prec)
        else (if flags.subnormal && expn < least then least else expn) - prec
  {
    hide Pow2;
  }

  // ---------------------------------------------------------------- binary64

  lemma Ten()
    ensures Pow2(10) == 1024
  {
    hide Pow2;
    Pow2Small();
    Pow2Add(8, 2);
    Pow2Add(1, 1);
    Pow2One();
  }

  /** The largest number is 2^1024 - 2^971, the smallest 2^-1022, and 2^-1074 with subnormal numbers. */
  lemma Binary64Range(r: Bf, neg: bool, n: nat, d: nat, e: int, flags: Flags, st: Status)
    requires flags.expBits == 11 && !flags.radPnt && r.CorrectResult(neg, n, d, e, 53, flags, st) && r.Finite()
    ensures AtMost(r.Mant(), r.LowExp(), 0x1f_ffff_ffff_ffff, 971)
    ensures AtMost(1, if flags.subnormal then -1074 else -1022, r.Mant(), r.LowExp())
  {
    hide Pow2, AtMost, Bf.CorrectResult, Bf.Finite;
    ResultInRange(r, neg, n, d, e, 53, flags, st);
    Ten();
    Pow2Small();
    Pow2Add(16, 16);
    Pow2Add(8, 8);
    Pow2Add(32, 16);
    Pow2Add(48, 5);
    Pow2Add(2, 2);
    Pow2Add(4, 1);
    Pow2Add(1, 1);
    Pow2One();
  }

  /** 2^1023 + 2^1023 overflows. */
  lemma Binary64Overflow(r: Bf, subnormal: bool, st: Status)
    requires r.CorrectResult(false, 1, 1, 1024, 53, Flags(RNDN, 11, subnormal, false), st)
    ensures r.IsInf() && !r.sign && st == OK.(overflow := true, inexact := true)
  {
    hide Pow2, Round, FracAt, Bf.Holds;
    Ten();
    var flags := Flags(RNDN, 11, subnormal, false);
    var k: nat, w: nat, t: nat :| r.CorrectAt(false, 1, 1, 1024, 53, flags, st, k, w, t);
    Pow2Add(1, k);
    Pow2One();
    PowersOrdered(w, k + 1);
    PowersOrdered(w, k);
    assert w == k + 1;
    PrecByRange(1024 - k + w, 53, flags);
    assert flags.EMax() == 1024 && w - t == 53;
    assert 1024 < RoundedExpn(Round(RNDN, false, 1 * Pow2(k), 1 * Pow2(t)) * Pow2(t), w, 1024 - k);
  }
}
