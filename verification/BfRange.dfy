/**
 When a rounded result overflows or underflows: the exponent of the exact value decides, and away from
 the ends of the exponent range the result is the correctly rounded exact value.
 */
module BfRange {
  import opened Limbs
  import opened Udiv
  import opened Rounding
  import opened BfBits
  import opened BfFloat
  import opened BfSquareRoot

  /** The rounded value of (n / d) * 2^e, in units of 2^(e - k). */
  ghost function RoundedValue(neg: bool, n: nat, d: nat, flags: Flags, k: nat, t: nat): int
    requires 0 < d * Pow2(t)
  {
    Round(flags.mode, neg, n * Pow2(k), d * Pow2(t)) * Pow2(t)
  }

  /** An exact value has one exponent, and so one precision. */
  lemma SameBinade(n: nat, d: nat, k: nat, w: nat, k': nat, w': nat)
    requires 0 < d && Pow2(w) * d <= 2 * (n * Pow2(k)) < 2 * (Pow2(w) * d)
    requires Pow2(w') * d <= 2 * (n * Pow2(k')) < 2 * (Pow2(w') * d)
    ensures w + k' == w' + k
  {
    hide Pow2;
    if w + k' < w' + k {
      BinadeBelow(n, d, k, w, k', w');
    } else if w' + k < w + k' {
      BinadeBelow(n, d, k', w', k, w);
    }
  }

  lemma BinadeBelow(n: nat, d: nat, k: nat, w: nat, k': nat, w': nat)
    requires 0 < d && n * Pow2(k) < Pow2(w) * d && Pow2(w') * d <= 2 * (n * Pow2(k'))
    ensures w' + k <= w + k'
  {
    hide Pow2;
    Crossed(Pow2(w), Pow2(w'), Pow2(k), Pow2(k'), n, d);
    if w + k' + 1 <= w' + k { PowersApart(w', k, w, k'); }
  }

  lemma PowersApart(a: nat, b: nat, c: nat, d: nat)
    requires c + d + 1 <= a + b
    ensures 2 * (Pow2(c) * Pow2(d)) <= Pow2(a) * Pow2(b)
  {
    calc <= {
      2 * (Pow2(c) * Pow2(d));
      { Pow2Add(c, d); }
      2 * Pow2(c + d);
      Pow2(c + d + 1);
      { Pow2Up(c + d + 1, a + b); }
      Pow2(a + b);
      { Pow2Add(a, b); }
      Pow2(a) * Pow2(b);
    }
  }

  lemma Crossed(x: nat, y: nat, p: nat, q: nat, n: nat, d: nat)
    requires 0 < d && 0 < p && 0 < q && n * p < x * d && y * d <= 2 * (n * q)
    ensures y * p < 2 * (x * q)
  {
    MulLe(y * d, 2 * (n * q), p);
    MulLt(n * p, x * d, q);
    assert y * d * p == y * p * d;
    assert 2 * (n * q) * p == 2 * (n * p * q);
    assert x * d * q == x * q * d;
    Assoc(2, x * q, d);
    LtMul(y * p, 2 * (x * q), d);
  }

  lemma UnitsAgree(n: nat, d: nat, e: int, prec: nat, flags: Flags, k: nat, w: nat, t: nat, k': nat, w': nat, t': nat)
    requires 1 <= flags.expBits && UnitOf(n, d, e, prec, flags, k, w, t) && UnitOf(n, d, e, prec, flags, k', w', t')
    ensures w + k' == w' + k && t + k' == t' + k
  {
    hide Pow2, EffectivePrec;
    if d == 0 { assert d * Pow2(t) == 0; }
    SameBinade(n, d, k, w, k', w');
  }

  /** The same statement on a finer scale. */
  lemma FinerScale(r: Bf, neg: bool, n: nat, d: nat, e: int, prec: nat, flags: Flags, st: Status, k: nat, w: nat, t: nat, j: nat)
    requires 1 <= flags.expBits && r.CorrectAt(neg, n, d, e, prec, flags, st, k, w, t)
    ensures 0 < d * Pow2(t + j)
    ensures r.ResultIs(neg, RoundedValue(neg, n, d, flags, k + j, t + j), w + j, w - t, e - (k + j),
                       FracAt(n * Pow2(k + j), d * Pow2(t + j)) != Exact, prec, flags, st)
  {
    hide Pow2, Round, FracAt, Bf.ResultIs, EffectivePrec;
    ScaledValue(neg, n, d, flags, k, t, j);
    ResultFiner(r, neg, RoundedValue(neg, n, d, flags, k, t), w, w - t, e - k, FracAt(n * Pow2(k), d * Pow2(t)) != Exact, j, prec, flags, st);
  }

  lemma ScaledValue(neg: bool, n: nat, d: nat, flags: Flags, k: nat, t: nat, j: nat)
    requires 0 < d * Pow2(t)
    ensures 0 < d * Pow2(t + j)
    ensures RoundedValue(neg, n, d, flags, k + j, t + j) == RoundedValue(neg, n, d, flags, k, t) * Pow2(j)
    ensures FracAt(n * Pow2(k + j), d * Pow2(t + j)) == FracAt(n * Pow2(k), d * Pow2(t))
  {
    hide Pow2, Round, FracAt;
    Pow2Add(k, j);
    Pow2Add(t, j);
    Assoc(n, Pow2(k), Pow2(j));
    Assoc(d, Pow2(t), Pow2(j));
    RoundScales(flags.mode, neg, n * Pow2(k), d * Pow2(t), Pow2(j));
    Assoc(Round(flags.mode, neg, n * Pow2(k), d * Pow2(t)), Pow2(t), Pow2(j));
  }

  lemma SameRoundedExpn(x: int, w: nat, low: int, j: nat)
    ensures RoundedExpn(x * Pow2(j), w + j, low - j) == RoundedExpn(x, w, low)
    ensures x * Pow2(j) == 0 <==> x == 0
  {
    hide Pow2;
    Pow2Add(w, j);
    if x != Pow2(w) && x * Pow2(j) == Pow2(w + j) { LeMul(x, Pow2(w), Pow2(j)); LeMul(Pow2(w), x, Pow2(j)); }
    if x == 0 { ZeroTimes(Pow2(j)); } else if 0 < x { MulLe(1, x, Pow2(j)); } else { MulLe(x, -1, Pow2(j)); }
  }

  /**
   Overflow, zero and the flags, by the exact value alone: whatever scale k, w, t the caller looks at the
   exact value on, the exponent of the rounded value decides.
   */
  lemma OutcomeByExponent(r: Bf, neg: bool, n: nat, d: nat, e: int, prec: nat, flags: Flags, st: Status, k: nat, w: nat, t: nat)
    requires 1 <= flags.expBits && r.CorrectResult(neg, n, d, e, prec, flags, st) && UnitOf(n, d, e, prec, flags, k, w, t)
    ensures var x := RoundedValue(neg, n, d, flags, k, t);
      var expn1, tiny := RoundedExpn(x, w, e - k), w <= t;
      && (st.overflow <==> !tiny && flags.EMax() < expn1 && (flags.subnormal || flags.EMin() <= expn1))
      && (r.IsZero() <==> if tiny then x == 0 else expn1 < flags.EMin() && !flags.subnormal)
      && (!tiny && flags.EMin() <= expn1 <= flags.EMax() ==>
            st == OK.(inexact := FracAt(n * Pow2(k), d * Pow2(t)) != Exact) && r.RoundedTo(neg, n, d, e, prec, flags, st.inexact))
  {
    hide Pow2, Round, FracAt, EffectivePrec, Bf.ResultIs, UnitOf;
    var k0: nat, w0: nat, t0: nat :| r.CorrectAt(neg, n, d, e, prec, flags, st, k0, w0, t0);
    UnitsAgree(n, d, e, prec, flags, k, w, t, k0, w0, t0);
    FinerScale(r, neg, n, d, e, prec, flags, st, k0, w0, t0, k);
    UnitPositive(n, d, e, prec, flags, k, w, t);
    var x := RoundedValue(neg, n, d, flags, k, t);
    ScaledValue(neg, n, d, flags, k, t, k0);
    SameRoundedExpn(x, w, e - k, k0);
    assert k0 + k == k + k0 && w0 + k == w + k0 && t0 + k == t + k0;
    ResultByExponent(r, neg, x * Pow2(k0), w + k0, w - t, e - (k + k0), FracAt(n * Pow2(k), d * Pow2(t)) != Exact, prec, flags, st);
    if t < w && flags.EMin() <= RoundedExpn(x, w, e - k) <= flags.EMax() {
      OriginalScale(r, neg, n, d, e, prec, flags, st, k0, w0, t0, k, w, t);
    }
  }

  lemma UnitPositive(n: nat, d: nat, e: int, prec: nat, flags: Flags, k: nat, w: nat, t: nat)
    requires 1 <= flags.expBits && UnitOf(n, d, e, prec, flags, k, w, t)
    ensures 0 < d * Pow2(t) && w - t == EffectivePrec(e - k + w, prec, flags)
  {
  }

  lemma ResultByExponent(r: Bf, neg: bool, x: int, w: nat, bits: int, low: int, inexact: bool, prec: nat, flags: Flags, st: Status)
    requires 1 <= flags.expBits && r.ResultIs(neg, x, w, bits, low, inexact, prec, flags, st)
    ensures var expn1 := RoundedExpn(x, w, low);
      && (st.overflow <==> 0 < bits && flags.EMax() < expn1 && (flags.subnormal || flags.EMin() <= expn1))
      && (r.IsZero() <==> if bits <= 0 then x == 0 else expn1 < flags.EMin() && !flags.subnormal)
      && (0 < bits && flags.EMin() <= expn1 <= flags.EMax() ==> st == OK.(inexact := inexact) && r.Holds(x, low) && r.sign == neg)
  {
    hide Pow2, V, BP;
    HoldsNotZero(r, x, low);
  }

  /** In range the result is the rounded value on the scale of the rounding. */
  lemma OriginalScale(r: Bf, neg: bool, n: nat, d: nat, e: int, prec: nat, flags: Flags, st: Status, k0: nat, w0: nat, t0: nat, k: nat, w: nat, t: nat)
    requires 1 <= flags.expBits && r.CorrectAt(neg, n, d, e, prec, flags, st, k0, w0, t0) && UnitOf(n, d, e, prec, flags, k, w, t) && t < w
    requires 0 < d * Pow2(t) && flags.EMin() <= RoundedExpn(RoundedValue(neg, n, d, flags, k, t), w, e - k) <= flags.EMax()
    ensures r.RoundedTo(neg, n, d, e, prec, flags, st.inexact)
  {
    hide Pow2, Round, FracAt, EffectivePrec, Bf.ResultIs, UnitOf, Bf.Holds;
    UnitsAgree(n, d, e, prec, flags, k, w, t, k0, w0, t0);
    UnitPositive(n, d, e, prec, flags, k0, w0, t0);
    var x, x0 := RoundedValue(neg, n, d, flags, k, t), RoundedValue(neg, n, d, flags, k0, t0);
    ScaledValue(neg, n, d, flags, k, t, k0);
    ScaledValue(neg, n, d, flags, k0, t0, k);
    SameRoundedExpn(x, w, e - k, k0);
    SameRoundedExpn(x0, w0, e - k0, k);
    assert k0 + k == k + k0 && w0 + k == w + k0 && t0 + k == t + k0;
    ResultByExponent(r, neg, x0, w0, w0 - t0, e - k0, FracAt(n * Pow2(k0), d * Pow2(t0)) != Exact, prec, flags, st);
  }

  /** The rounded exponent is that of the exact value, or the next. */
  lemma ExponentNear(x: int, w: nat, low: int)
    ensures low + w <= RoundedExpn(x, w, low) <= low + w + 1
  {
  }

  /**
   Operands whose exact result has its exponent strictly inside the range: the result is the exact value
   correctly rounded, and no flag is set but inexact.
   */
  lemma InRangeIsRounded(r: Bf, neg: bool, n: nat, d: nat, e: int, prec: nat, flags: Flags, st: Status, k: nat, w: nat, t: nat)
    requires 1 <= flags.expBits && r.CorrectResult(neg, n, d, e, prec, flags, st) && UnitOf(n, d, e, prec, flags, k, w, t)
    requires 1 <= prec && !flags.radPnt && flags.EMin() <= e - k + w < flags.EMax()
    ensures r.RoundedTo(neg, n, d, e, prec, flags, st.inexact) && st == OK.(inexact := st.inexact)
  {
    hide Pow2, Round, FracAt, Bf.CorrectResult, Bf.RoundedTo, UnitOf;
    UnitPositive(n, d, e, prec, flags, k, w, t);
    OutcomeByExponent(r, neg, n, d, e, prec, flags, st, k, w, t);
    ExponentNear(RoundedValue(neg, n, d, flags, k, t), w, e - k);
  }

  // ------------------------------------------------------------- square roots

  /** The number is the correctly rounded square root of n * 2^e2. */
  ghost predicate RootRounded(r: Bf, n: nat, e2: int, prec: nat, flags: Flags, inexact: bool)
    requires 1 <= flags.expBits
    reads r, r.tab
  {
    !r.sign && exists k: nat, w: nat, t: nat, x: int :: RootHolds(r, n, e2, prec, flags, inexact, k, w, t, x)
  }

  ghost predicate RootHolds(r: Bf, n: nat, e2: int, prec: nat, flags: Flags, inexact: bool, k: nat, w: nat, t: nat, x: int)
    requires 1 <= flags.expBits
    reads r, r.tab
  {
    && (e2 - k) % 2 == 0 && RootUnit(n, (e2 - k) / 2, prec, flags, k, w, t)
    && IsRootRounded(flags.mode, n * Pow2(k), Pow2(t), x) && r.Holds(x * Pow2(t), (e2 - k) / 2)
    && (inexact <==> n * Pow2(k) != x * Pow2(t) * (x * Pow2(t)))
  }

  /** The exponent of a square root is determined. */
  lemma RootBinadeSame(n: nat, e2: int, k: nat, w: nat, k': nat, w': nat)
    requires (e2 - k) % 2 == 0 && (e2 - k') % 2 == 0
    requires Pow2(w) * Pow2(w) <= 4 * (n * Pow2(k)) < 4 * (Pow2(w) * Pow2(w))
    requires Pow2(w') * Pow2(w') <= 4 * (n * Pow2(k')) < 4 * (Pow2(w') * Pow2(w'))
    ensures (e2 - k) / 2 + w == (e2 - k') / 2 + w'
  {
    hide Pow2;
    if 2 * w + k' + 2 <= 2 * w' + k { RootBelow(n, k, w, k', w'); }
    if 2 * w' + k + 2 <= 2 * w + k' { RootBelow(n, k', w', k, w); }
  }

  lemma RootBelow(n: nat, k: nat, w: nat, k': nat, w': nat)
    requires n * Pow2(k) < Pow2(w) * Pow2(w) && Pow2(w') * Pow2(w') <= 4 * (n * Pow2(k'))
    ensures 2 * w' + k < 2 * w + k' + 2
  {
    hide Pow2;
    var p, q := Pow2(k), Pow2(k');
    SquarePower(w);
    SquarePower(w');
    CrossedRoot(Pow2(2 * w), Pow2(2 * w'), p, q, n);
    if 2 * w + k' + 2 <= 2 * w' + k {
      FourTimes(w, q);
      PowersApart(2 * w', k, 2 * w + 1, k');
    }
  }

  lemma SquarePower(w: nat)
    ensures Pow2(w) * Pow2(w) == Pow2(2 * w)
  {
    hide Pow2;
    Pow2Add(w, w);
    assert w + w == 2 * w;
  }

  lemma FourTimes(w: nat, q: int)
    ensures 4 * (Pow2(2 * w) * q) == 2 * (Pow2(2 * w + 1) * q)
  {
    Assoc(2, Pow2(2 * w), q);
  }

  lemma CrossedRoot(x: nat, y: nat, p: nat, q: nat, n: nat)
    requires 0 < p && 0 < q && n * p < x && y <= 4 * (n * q)
    ensures y * p < 4 * (x * q)
  {
    MulLe(y, 4 * (n * q), p);
    MulLt(n * p, x, q);
    assert 4 * (n * q) * p == 4 * (n * p * q);
  }

  /**
   A square root whose exponent is strictly inside the range is correctly rounded, and no flag is set but
   inexact; a square root overflows only at the upper end.
   */
  lemma RootInRange(r: Bf, n: nat, e2: int, prec: nat, flags: Flags, st: Status, k: nat, w: nat, t: nat)
    requires 1 <= flags.expBits && CorrectRoot(r, n, e2, prec, flags, st) && 1 <= prec && !flags.radPnt
    requires (e2 - k) % 2 == 0 && RootUnit(n, (e2 - k) / 2, prec, flags, k, w, t)
    ensures flags.EMin() <= (e2 - k) / 2 + w < flags.EMax() ==>
      RootRounded(r, n, e2, prec, flags, st.inexact) && st == OK.(inexact := st.inexact)
    ensures st.overflow ==> flags.EMax() <= (e2 - k) / 2 + w
    ensures r.IsZero() ==> (e2 - k) / 2 + w < flags.EMin()
  {
    hide Pow2, Bf.ResultIs, IsRootRounded, Bf.Holds;
    var k0: nat, w0: nat, t0: nat, x: int :| RootAt(r, n, e2, prec, flags, st, k0, w0, t0, x);
    RootBinadeSame(n, e2, k, w, k0, w0);
    ExponentNear(x * Pow2(t0), w0, (e2 - k0) / 2);
    ResultByExponent(r, false, x * Pow2(t0), w0, w0 - t0, (e2 - k0) / 2, n * Pow2(k0) != x * Pow2(t0) * (x * Pow2(t0)), prec, flags, st);
    if flags.EMin() <= (e2 - k) / 2 + w < flags.EMax() {
      assert RootHolds(r, n, e2, prec, flags, st.inexact, k0, w0, t0, x);
    }
  }
}
