/**
 bf_sqrt: the integer square root of enough bits, with a sticky bit for everything that was cut off,
 makes the rounded square root correct.
 */
module BfSquareRoot {
  import opened Limbs
  import opened MpBase
  import opened Udiv
  import opened MpDivBase
  import opened MpDiv
  import opened Sqrt
  import opened Rounding
  import opened BfBits
  import opened BfFloat
  import opened BfDivide

  /** The root of n * 2^k has w bits, and t of them are below the unit. */
  ghost predicate RootUnit(n: nat, e: int, prec: nat, flags: Flags, k: nat, w: nat, t: nat)
    requires 1 <= flags.expBits
  {
    && Pow2(w) * Pow2(w) <= 4 * (n * Pow2(k)) < 4 * (Pow2(w) * Pow2(w))
    && w - t == EffectivePrec(e + w, prec, flags)
  }

  /** What the square root of n * 2^e2 leaves. */
  ghost predicate CorrectRoot(r: Bf, n: nat, e2: int, prec: nat, flags: Flags, st: Status)
    requires 1 <= flags.expBits
    reads r, r.tab
  {
    exists k: nat, w: nat, t: nat, x: int :: RootAt(r, n, e2, prec, flags, st, k, w, t, x)
  }

  /**
   The root of n * 2^k has w bits before the point, of which the lowest t are rounded; x is the rounded
   root in units of 2^t.
   */
  ghost predicate RootAt(r: Bf, n: nat, e2: int, prec: nat, flags: Flags, st: Status, k: nat, w: nat, t: nat, x: int)
    requires 1 <= flags.expBits
    reads r, r.tab
  {
    && (e2 - k) % 2 == 0 && RootUnit(n, (e2 - k) / 2, prec, flags, k, w, t)
    && IsRootRounded(flags.mode, n * Pow2(k), Pow2(t), x)
    && r.ResultIs(false, x * Pow2(t), w, w - t, (e2 - k) / 2, n * Pow2(k) != x * Pow2(t) * (x * Pow2(t)), prec, flags, st)
  }

  /** The result when the operand is not a positive finite number. */
  ghost predicate SpecialRoot(r: Bf, a: Bf, st: Status)
    reads r, a, a.tab, r.tab
  {
    if a.IsNan() then r.IsNan() && st == OK
    else if a.IsZero() then r.IsZero() && r.sign == a.sign && st == OK
    else if a.sign then r.IsNan() && st == OK.(invalidOp := true)
    else a.IsInf() && r.IsInf() && !r.sign && st == OK
  }

  /** bf_sqrt */
  method BfSqrt(r: Bf, a: Bf, prec: nat, flags: Flags) returns (st: Status)
    requires Regular(a) && r != a
    requires 1 <= prec && 1 <= flags.expBits && !flags.radPnt && flags.mode != RNDF
    modifies r
    ensures unchanged(a)
    ensures if old(a.Finite() && !a.sign) then CorrectRoot(r, a.Mant(), a.LowExp(), prec, flags, st) else SpecialRoot(r, a, st)
  {
    hide V, BP, Pow2, CorrectRoot;
    st := OK;
    if a.tab.Length == 0 {
      if a.expn == EXP_NAN {
        r.BfSetNan();
      } else if a.expn == EXP_INF && a.sign {
        r.BfSetNan();
        st := OK.(invalidOp := true);
      } else {
        r.sign, r.expn, r.tab := a.sign, a.expn, new limb[0];
      }
    } else if a.sign {
      r.BfSetNan();
      st := OK.(invalidOp := true);
    } else {
      st := SqrtFinite(r, a, prec, flags);
    }
  }

  /** How the mantissa was scaled: P / c is the number whose integer square root is taken. */
  lemma RootScale(p: nat, c: nat, s: nat, a: nat)
    requires 0 < c && a == p / c && s * s <= a < (s + 1) * (s + 1)
    ensures s * c * (s * c) <= p * c < (s + 1) * c * ((s + 1) * c)
    ensures p * c == s * c * (s * c) <==> p % c == 0 && a == s * s
  {
    ScaledSquare(s, c);
    ScaledSquare(s + 1, c);
    ScaledBounds(p, c, s * s, (s + 1) * (s + 1), a);
  }

  lemma ScaledSquare(s: int, c: int)
    ensures s * c * (s * c) == s * s * c * c
  {
    Assoc(s * c, s, c);
    assert s * c * s == s * s * c;
  }

  lemma ScaledBounds(p: nat, c: nat, q: nat, q1: nat, a: nat)
    requires 0 < c && a == p / c && q <= a < q1
    ensures q * c * c <= p * c < q1 * c * c && (p * c == q * c * c <==> p % c == 0 && a == q)
  {
    DivMod(p, c);
    MulLe(q, a, c);
    MulLe(a + 1, q1, c);
    Dist(a, 1, c);
    MulLe(q * c, p, c);
    MulLt(p, q1 * c, c);
    if q * c < p { MulLt(q * c, p, c); }
    if a != q { MulLe(q + 1, a, c); Dist(q, 1, c); }
  }

  /** The square root of a positive finite number. */
  method SqrtFinite(r: Bf, a: Bf, prec: nat, flags: Flags) returns (st: Status)
    requires a.Finite() && r != a && 1 <= prec && 1 <= flags.expBits && !flags.radPnt && flags.mode != RNDF
    modifies r
    ensures CorrectRoot(r, a.Mant(), a.LowExp(), prec, flags, st)
  {
    hide V, BP, Pow2, CorrectRoot, Bf.RoundOutcome, Bf.Finite, Jam, Round;
    // scale the mantissa so that its root has all the bits and two more
    var n := (2 * (prec + 2) + 2 * LIMB_BITS - 1) / (2 * LIMB_BITS);
    ghost var p, c, s;
    r.tab, p, c, s := RootLimbs(a, n);
    r.sign := false;
    r.expn := (a.expn + 1) / 2;
    ghost var m := V(r.tab[..], 0, n);
    TopBound(r.tab[..], 0, n);
    st := r.BfRound(prec, flags, n, OK);
    RootOutcome(r, a, n, p, c, s, m, prec, flags, st);
  }

  /** How much the mantissa is extended with zero limbs, or cut. */
  function Extend(n: nat, la: nat): nat { if la < 2 * n then 2 * n - la else 0 }

  function Cut(n: nat, la: nat): nat { if 2 * n < la then la - 2 * n else 0 }

  function Doubled(odd: bool): nat { if odd then 2 else 1 }

  /** The top limbs of the mantissa, as an integer of 2 * n limbs. */
  method ExtendLimbs(a: Bf, n: nat) returns (a1: array<limb>)
    requires a.Finite() && 1 <= n
    ensures fresh(a1) && a1.Length == 2 * n && HALF <= a1[2 * n - 1]
    ensures V(a1[..], 0, 2 * n) == a.Mant() * BP(Extend(n, a.tab.Length)) / BP(Cut(n, a.tab.Length))
  {
    hide V, BP, Extend, Cut;
    var la := a.tab.Length;
    var n1 := if 2 * n < la then 2 * n else la;
    a1 := new limb[2 * n];
    ZeroLimbs(a1, 0, 2 * n - n1);
    ghost var z := a1[..];
    CopyLimbs(a1, 2 * n - n1, a.tab, la - n1, n1);
    Shifted(z, a1[..], 2 * n - n1, n1);
    CopiedTop(a1[..], 2 * n - n1, a.tab[..], la - n1, n1);
    TopLimbs(a.tab[..], n, n1);
  }

  lemma CopiedTop(s: seq<limb>, o: nat, t: seq<limb>, q: nat, n: nat)
    requires 1 <= n && o + n <= |s| && q + n <= |t| && s[o..o + n] == t[q..q + n]
    ensures s[o + n - 1] == t[q + n - 1]
  {
    assert s[o..o + n][n - 1] == t[q..q + n][n - 1];
  }

  /** The mantissa as an integer of 2 * n limbs, halved when the exponent is odd. */
  method RadicandLimbs(a: Bf, n: nat) returns (a1: array<limb>, res: limb)
    requires a.Finite() && 1 <= n
    ensures fresh(a1) && a1.Length == 2 * n && QUARTER <= a1[2 * n - 1]
    ensures var p, g, odd := a.Mant() * BP(Extend(n, a.tab.Length)), BP(Cut(n, a.tab.Length)), a.expn % 2 != 0;
      V(a1[..], 0, 2 * n) == p / g / Doubled(odd) && (if odd then res == p / g % 2 else res == 0)
  {
    hide V, BP, Extend, Cut;
    a1 := ExtendLimbs(a, n);
    ghost var s := a1[..];
    if a.expn % 2 != 0 {
      TopBound(s, 0, 2 * n);
      res := MpShr(a1, 0, a1, 0, 2 * n, 1, 0);
      PowerOne();
      QuotientIs(V(s, 0, 2 * n), 2, V(a1[..], 0, 2 * n), res);
      QuarterTop(a1[..], 2 * n);
    } else {
      res := 0;
    }
  }

  /** The limbs that are used, as a quotient of the extended mantissa. */
  lemma TopLimbs(t: seq<limb>, n: nat, n1: nat)
    requires n1 == if 2 * n < |t| then 2 * n else |t|
    ensures V(t, |t| - n1, n1) * BP(2 * n - n1) == V(t, 0, |t|) * BP(Extend(n, |t|)) / BP(Cut(n, |t|))
    ensures V(t, 0, |t| - n1) == V(t, 0, |t|) * BP(Extend(n, |t|)) % BP(Cut(n, |t|))
  {
    hide V;
    HighLimbs(t, 0, |t| - n1, |t|);
    assert BP(0) == 1;
  }

  lemma QuarterTop(t: seq<limb>, n: nat)
    requires 1 <= n <= |t| && HALF * BP(n - 1) <= 2 * V(t, 0, n) + 1 && BP(n - 1) > 0
    ensures QUARTER <= t[n - 1]
  {
    VTop(t, 0, n);
    var p := BP(n - 1);
    Dist(t[n - 1], 1, p);
    if t[n - 1] < QUARTER { MulLe(t[n - 1] as int + 1, QUARTER, p); }
  }

  /** The integer square root of the top limbs, with a sticky bit for everything below. */
  method RootLimbs(a: Bf, n: nat) returns (t: array<limb>, ghost p: nat, ghost c: nat, ghost s: nat)
    requires a.Finite() && 1 <= n
    ensures fresh(t) && t.Length == n && HALF <= t[n - 1]
    ensures p == a.Mant() * BP(Extend(n, a.tab.Length)) && c == BP(Cut(n, a.tab.Length)) * Doubled(a.expn % 2 != 0)
    ensures 0 < c && s * s <= p / c < (s + 1) * (s + 1) && V(t[..], 0, n) == Jam(s, p % c != 0 || p / c != s * s)
  {
    hide V, BP, Jam, IsRoot;
    var la := a.tab.Length;
    var a1, res := RadicandLimbs(a, n);
    p, c := a.Mant() * BP(Extend(n, la)), BP(Cut(n, la)) * Doubled(a.expn % 2 != 0);
    ghost var sa := a1[..];
    t := new limb[n];
    MpSqrtrem(t, 0, a1, 0, n);
    s := V(t[..], 0, n);
    ghost var rem := V(a1[..], 0, n + 1);
    RootNormalized(sa, 0, n, t[..], 0, rem);
    RootIsFloor(p / c, s, rem) by { ScaleParts(p, BP(Cut(n, la)), a.expn % 2 != 0); }
    var sticky := res != 0;
    if !sticky {
      sticky := MpScanNz(a1, 0, n + 1);
    }
    if !sticky {
      var n1 := if 2 * n < la then 2 * n else la;
      sticky := MpScanNz(a.tab, 0, la - n1);
      TopLimbs(a.tab[..], n, n1);
    }
    StickyMeans(p, BP(Cut(n, la)), a.expn % 2 != 0, s, rem);
    JamExact(s);
    if sticky {
      SetSticky(t);
    }
  }

  lemma StickyMeans(p: nat, g: nat, odd: bool, s: nat, rem: nat)
    requires 0 < g && IsRoot(p / g / Doubled(odd), s, rem)
    ensures 0 < g * Doubled(odd)
    ensures p % (g * Doubled(odd)) != 0 || p / (g * Doubled(odd)) != s * s <==> (odd && p / g % 2 != 0) || rem != 0 || p % g != 0
  {
    ScaleParts(p, g, odd);
  }

  /** Dividing by the power that was cut off, and by two when the exponent is odd. */
  lemma ScaleParts(p: nat, g: nat, odd: bool)
    requires 0 < g
    ensures 0 < g * Doubled(odd) && p / (g * Doubled(odd)) == p / g / Doubled(odd)
    ensures p % (g * Doubled(odd)) != 0 <==> p % g != 0 || (odd && p / g % 2 != 0)
  {
    DivTwice(p, g, Doubled(odd));
    if odd && p / g % 2 != 0 { MulLe(1, p / g % 2, g); }
  }

  /** The exponents of the scaled root. */
  lemma RootExponents(expn: int, la: nat, n: nat)
    ensures var odd, ext, cut := (if expn % 2 != 0 then 1 else 0), Extend(n, la), Cut(n, la);
      var k, i := LIMB_BITS * (ext + cut) + odd, LIMB_BITS * cut + odd;
      (expn - LIMB_BITS * la - k) % 2 == 0 && (expn - LIMB_BITS * la - k) / 2 == (expn + 1) / 2 - LIMB_BITS * n - i
  {
    var odd, ext, cut := (if expn % 2 != 0 then 1 else 0), Extend(n, la), Cut(n, la);
    assert expn - odd == 2 * ((expn + 1) / 2 - odd);
    assert la + ext + cut == 2 * (n + cut);
    var half := (expn + 1) / 2 - odd - LIMB_BITS * (n + cut);
    assert expn - LIMB_BITS * la - (LIMB_BITS * (ext + cut) + odd) == 2 * half;
  }

  lemma ScaleIs(ext: nat, cut: nat, odd: bool)
    ensures BP(cut) * Doubled(odd) == Pow2(LIMB_BITS * cut + if odd then 1 else 0)
    ensures BP(ext) * (BP(cut) * Doubled(odd)) == Pow2(LIMB_BITS * (ext + cut) + if odd then 1 else 0)
  {
    hide BP, Pow2;
    var j := if odd then 1 else 0;
    BitsOfLimbs(ext);
    BitsOfLimbs(cut);
    Pow2One();
    Pow2Add(LIMB_BITS * cut, j);
    Pow2Add(LIMB_BITS * ext, LIMB_BITS * cut + j);
  }

  /** The root lies in the binade of its integer part. */
  lemma RootBinade(a: nat, s: nat, c: nat, m: int, h: nat)
    requires 0 < c && s * c * (s * c) <= a < (s + 1) * c * ((s + 1) * c)
    requires m == Jam(s, true) || m == s
    requires h % 4 == 0 && h <= 2 * m < 2 * h
    ensures h * c * (h * c) <= 4 * a < 4 * (h * c * (h * c))
  {
    assert h <= 2 * s && s + 1 <= h;
    Assoc(2, s, c);
    MulLe(h, 2 * s, c);
    MulLe(s + 1, h, c);
    BinadeSquares(h * c, s * c, (s + 1) * c, a);
  }

  lemma BinadeSquares(x: nat, y: nat, z: nat, a: nat)
    requires x <= 2 * y && y * y <= a < z * z && z <= x
    ensures x * x <= 4 * a < 4 * (x * x)
  {
    SquareMono(x, 2 * y);
    FourSquares(y);
    SquareMono(z, x);
  }

  lemma LimbPowerMultiple(n: nat)
    requires 1 <= n
    ensures BP(n) % 4 == 0
  {
    assert BP(n) == 4 * (QUARTER * BP(n - 1));
  }

  lemma RootOutcome(r: Bf, a: Bf, n: nat, p: nat, c: nat, s: nat, m: nat, prec: nat, flags: Flags, st: Status)
    requires a.Finite() && 1 <= prec && 1 <= flags.expBits && !flags.radPnt && flags.mode != RNDF && 1 <= n && prec + 2 <= LIMB_BITS * n
    requires p == a.Mant() * BP(Extend(n, a.tab.Length)) && c == BP(Cut(n, a.tab.Length)) * Doubled(a.expn % 2 != 0)
    requires 0 < c && s * s <= p / c < (s + 1) * (s + 1) && m == Jam(s, p % c != 0 || p / c != s * s)
    requires BP(n) <= 2 * m < 2 * BP(n)
    requires r.RoundOutcome(false, (a.expn + 1) / 2, m, n, prec, flags, OK, st)
    ensures CorrectRoot(r, a.Mant(), a.LowExp(), prec, flags, st)
  {
    hide V, BP, Pow2, Round, FracAt, Bf.ResultIs, Bf.RoundOutcome, RootUnit, RoundedAt, EffectivePrec, Jam, CorrectRoot, Extend, Cut, InexactAt;
    var la, odd := a.tab.Length, a.expn % 2 != 0;
    var ext, cut := Extend(n, la), Cut(n, la);
    var j := if odd then 1 else 0;
    var k, i := LIMB_BITS * (ext + cut) + j, LIMB_BITS * cut + j;
    var prec1 := EffectivePrec((a.expn + 1) / 2, prec, flags);
    var t := LIMB_BITS * n - prec1;
    PrecAtMost((a.expn + 1) / 2, prec, flags);
    RootExponents(a.expn, la, n);
    ScaleIs(ext, cut, odd);
    Assoc(a.Mant(), BP(ext), c);
    assert p * c == a.Mant() * Pow2(k);
    RootScale(p, c, s, p / c);
    NotEmpty(m, n);
    OutcomeIsResult(r, false, (a.expn + 1) / 2, m, n, prec, flags, st);
    RootResult(r, a.Mant(), a.LowExp(), p * c, c, s, m, n, k, i, t, prec, flags, st);
  }

  lemma RootResult(r: Bf, num: nat, e2: int, a: nat, c: nat, s: nat, m: nat, n: nat, k: nat, i: nat, t: nat, prec: nat, flags: Flags, st: Status)
    requires 1 <= prec && 1 <= flags.expBits && flags.mode != RNDF && 1 <= n && 2 <= t
    requires a == num * Pow2(k) && c == Pow2(i) && s * c * (s * c) <= a < (s + 1) * c * ((s + 1) * c)
    requires m == Jam(s, a != s * c * (s * c)) && BP(n) <= 2 * m < 2 * BP(n)
    requires (e2 - k) % 2 == 0 && LIMB_BITS * n - t == EffectivePrec((e2 - k) / 2 + i + LIMB_BITS * n, prec, flags)
    requires r.ResultIs(false, RoundedAt(flags.mode, false, m, t), LIMB_BITS * n, LIMB_BITS * n - t, (e2 - k) / 2 + i,
                        InexactAt(flags.mode, m, t), prec, flags, st)
    ensures CorrectRoot(r, num, e2, prec, flags, st)
  {
    hide V, BP, Pow2, Round, FracAt, Bf.ResultIs, RootUnit, EffectivePrec, RoundedAt, InexactAt, IsRootRounded;
    var x := Round(flags.mode, false, m, Pow2(t));
    UnitMultiple(t);
    StickyRoot(flags.mode, a, s, c, Pow2(t));
    UnitRound(flags.mode, false, m, t);
    Pow2Add(t, i);
    ResultFiner(r, false, x * Pow2(t), LIMB_BITS * n, LIMB_BITS * n - t, (e2 - k) / 2 + i, InexactAt(flags.mode, m, t), i, prec, flags, st);
    Assoc(x, Pow2(t), c);
    UnitIsRoot(num, e2, a, c, s, m, n, k, i, t, prec, flags);
    assert RootAt(r, num, e2, prec, flags, st, k, LIMB_BITS * n + i, t + i, x);
  }

  lemma UnitMultiple(t: nat)
    requires 2 <= t
    ensures Pow2(t) % 4 == 0
  {
    assert Pow2(t) == 4 * Pow2(t - 2);
  }

  lemma UnitIsRoot(num: nat, e2: int, a: nat, c: nat, s: nat, m: nat, n: nat, k: nat, i: nat, t: nat, prec: nat, flags: Flags)
    requires 1 <= flags.expBits && 1 <= n
    requires a == num * Pow2(k) && c == Pow2(i) && s * c * (s * c) <= a < (s + 1) * c * ((s + 1) * c)
    requires m == Jam(s, a != s * c * (s * c)) && BP(n) <= 2 * m < 2 * BP(n)
    requires LIMB_BITS * n - t == EffectivePrec((e2 - k) / 2 + i + LIMB_BITS * n, prec, flags)
    ensures RootUnit(num, (e2 - k) / 2, prec, flags, k, LIMB_BITS * n + i, t + i)
  {
    hide BP, Pow2, EffectivePrec;
    BitsOfLimbs(n);
    Pow2Add(LIMB_BITS * n, i);
    LimbPowerMultiple(n);
    RootBinade(a, s, c, m, BP(n));
  }
}
