/**
 __bf_div: two spare bits and a sticky bit for the remainder make the rounded quotient correct.
 */
module BfDivide {
  import opened Limbs
  import opened MpBase
  import opened Udiv
  import opened MpDivBase
  import opened MpDiv
  import opened Rounding
  import opened BfBits
  import opened BfFloat

  /** A finite number, a zero, an infinity or a NaN. */
  ghost predicate Regular(a: Bf)
    reads a, a.tab
  {
    (a.Finite() && EXP_ZERO < a.expn < EXP_INF) || a.IsZero() || a.IsInf() || a.IsNan()
  }

  /** The result of a / b when one of them is not a finite number other than zero. */
  ghost predicate SpecialQuotient(r: Bf, a: Bf, b: Bf, st: Status)
    reads r, a, b, a.tab, b.tab
  {
    if a.IsNan() || b.IsNan() then r.IsNan() && st == OK
    else if (a.IsInf() && b.IsInf()) || (a.IsZero() && b.IsZero()) then r.IsNan() && st == OK.(invalidOp := true)
    else if a.IsInf() then r.IsInf() && r.sign == (a.sign != b.sign) && st == OK
    else if b.IsInf() || a.IsZero() then r.IsZero() && r.sign == (a.sign != b.sign) && st == OK
    else b.IsZero() && r.IsInf() && r.sign == (a.sign != b.sign) && st == OK.(divideZero := true)
  }

  /** Set the lowest bit. */
  method SetSticky(tab: array<limb>)
    requires 0 < tab.Length
    modifies tab
    ensures V(tab[..], 0, tab.Length) == Jam(V(old(tab[..]), 0, tab.Length), true)
    ensures old(tab[tab.Length - 1]) <= tab[tab.Length - 1]
  {
    hide V;
    ghost var s := tab[..];
    VLow(s, 0, tab.Length - 1);
    if tab[0] % 2 == 0 {
      tab[0] := tab[0] + 1;
    }
    OnlyOne(s, tab[..], 0);
    VLow(tab[..], 0, tab.Length - 1);
    VOnly(s, tab[..], 1, tab.Length - 1, 0, 1);
    EvenPart(HALF * V(s, 1, tab.Length - 1), s[0]);
  }

  /** __bf_div */
  method BfDiv(r: Bf, a: Bf, b: Bf, prec: nat, flags: Flags) returns (st: Status)
    requires Regular(a) && Regular(b) && r != a && r != b
    requires 1 <= prec && 1 <= flags.expBits && !flags.radPnt && flags.mode != RNDF
    modifies r
    ensures unchanged(a) && unchanged(b)
    ensures if old(a.Finite() && b.Finite()) then
        r.CorrectResult(a.sign != b.sign, a.Mant(), b.Mant(), a.LowExp() - b.LowExp(), prec, flags, st)
      else SpecialQuotient(r, a, b, st)
  {
    hide V, BP, Pow2, Bf.CorrectResult;
    st := OK;
    var rSign := a.sign != b.sign;
    if a.expn >= EXP_INF || b.expn >= EXP_INF {
      if a.expn == EXP_NAN || b.expn == EXP_NAN {
        r.BfSetNan();
      } else if a.expn == EXP_INF && b.expn == EXP_INF {
        r.BfSetNan();
        st := OK.(invalidOp := true);
      } else if a.expn == EXP_INF {
        r.BfSetInf(rSign);
      } else {
        r.BfSetZero(rSign);
      }
    } else if a.expn == EXP_ZERO {
      if b.expn == EXP_ZERO {
        r.BfSetNan();
        st := OK.(invalidOp := true);
      } else {
        r.BfSetZero(rSign);
      }
    } else if b.expn == EXP_ZERO {
      r.BfSetInf(rSign);
      st := OK.(divideZero := true);
    } else {
      st := DivideFinite(r, a, b, prec, flags);
    }
  }

  /** The division of finite numbers. */
  method DivideFinite(r: Bf, a: Bf, b: Bf, prec: nat, flags: Flags) returns (st: Status)
    requires a.Finite() && b.Finite() && r != a && r != b
    requires 1 <= prec && 1 <= flags.expBits && !flags.radPnt && flags.mode != RNDF
    modifies r
    ensures r.CorrectResult(a.sign != b.sign, a.Mant(), b.Mant(), a.LowExp() - b.LowExp(), prec, flags, st)
  {
    hide V, BP, Pow2, Bf.CorrectResult, Bf.Finite, Jam;
    // enough limbs for the precision and the two rounding bits
    var precl := (prec + 2 + LIMB_BITS - 1) / LIMB_BITS;
    var n := if a.tab.Length > precl then a.tab.Length else precl;
    ghost var d := n + b.tab.Length - a.tab.Length;
    ghost var num, den, e0 := a.Mant() * BP(d), b.Mant(), a.LowExp() - b.LowExp();
    EnoughBits(a, b, d, n, prec);
    r.tab := QuotientLimbs(a, b, n);
    r.expn := a.expn - b.expn + LIMB_BITS;
    r.sign := a.sign != b.sign;
    ghost var e := r.LowExp();
    st := r.RoundSticky(prec, flags, num, den);
    BitsOfLimbs(d);
    ScaledResult(r, a.sign != b.sign, a.Mant(), den, e, LIMB_BITS * d, prec, flags, st);
  }

  /** The quotient, with a sticky bit if there is a remainder. */
  method QuotientLimbs(a: Bf, b: Bf, n: nat) returns (q: array<limb>)
    requires a.Finite() && b.Finite() && a.tab.Length <= n
    ensures fresh(q) && q.Length == n + 1 && 0 < b.Mant()
    ensures var num := a.Mant() * BP(n + b.tab.Length - a.tab.Length);
      V(q[..], 0, n + 1) == Jam(num / b.Mant(), num % b.Mant() != 0)
  {
    hide V, BP, Jam;
    var nb := b.tab.Length;
    var na := n + nb;
    var taba := new limb[na + 1];
    var d := na - a.tab.Length;
    ZeroLimbs(taba, 0, d);
    ghost var z := taba[..];
    CopyLimbs(taba, d, a.tab, 0, a.tab.Length);
    Shifted(z, taba[..], d, a.tab.Length);
    q := new limb[n + 1];
    assert Normalized(b.tab[..], 0, nb);
    MpDivnorm(q, 0, taba, 0, na, b.tab, 0, nb);
    QuotientIs(a.Mant() * BP(d), b.Mant(), V(q[..], 0, n + 1), V(taba[..], 0, nb));
    // the sticky bit
    var nz := MpScanNz(taba, 0, nb);
    JamExact(V(q[..], 0, n + 1));
    if nz {
      SetSticky(q);
    }
  }

  lemma JamExact(m: int)
    ensures Jam(m, false) == m
  {
  }

  /** The dividend, extended with zero limbs at the low end. */
  lemma Shifted(z: seq<limb>, t: seq<limb>, d: nat, n: nat)
    requires d + n <= |z| && V(z, 0, d) == 0 && Only(z, t, d, n)
    ensures V(t, 0, d + n) == V(t, d, n) * BP(d)
  {
    hide V, BP;
    VOnly(z, t, 0, d, d, n);
    VSplit(t, 0, d, n);
    MulCommutes(V(t, d, n), BP(d));
  }

  /** The quotient has at least prec + 2 bits. */
  lemma EnoughBits(a: Bf, b: Bf, d: nat, n: nat, prec: nat)
    requires a.Finite() && b.Finite() && d + a.tab.Length == n + b.tab.Length && prec + 2 <= LIMB_BITS * n
    ensures 0 < a.Mant() * BP(d) && 0 < b.Mant() && Pow2(prec + 1) <= a.Mant() * BP(d) / b.Mant()
  {
    hide V, BP, Pow2;
    var x, y := a.Mant(), b.Mant();
    TopBound(a.tab[..], 0, a.tab.Length);
    TopBound(b.tab[..], 0, b.tab.Length);
    BPAdd(a.tab.Length, d);
    BPAdd(b.tab.Length, n);
    BitsOfLimbs(n);
    Pow2Up(prec + 1, LIMB_BITS * n - 1);
    Pow2Next(LIMB_BITS * n - 1);
    // B^n * y <= 2 * x * B^d
    MulLe(BP(a.tab.Length), 2 * x, BP(d));
    MulLe(y, BP(b.tab.Length), BP(n));
    Assoc(2, x, BP(d));
    MulLt(0, x, BP(d));
    QuotientAtLeast(x * BP(d), y, Pow2(LIMB_BITS * n - 1));
  }

  lemma QuotientAtLeast(n: nat, d: nat, q: nat)
    requires 0 < d && d * (2 * q) <= 2 * n
    ensures q <= n / d
  {
    DivMod(n, d);
    Assoc(d, 2, q);
    if n / d < q { MulLe(n / d + 1, q, d); Dist(n / d, 1, d); }
  }

  /** A result does not depend on the power of two that was moved into the exponent. */
  lemma ScaledResult(r: Bf, neg: bool, n: nat, d: nat, e: int, j: nat, prec: nat, flags: Flags, st: Status)
    requires 1 <= flags.expBits && r.CorrectResult(neg, n * Pow2(j), d, e, prec, flags, st)
    ensures r.CorrectResult(neg, n, d, e + j, prec, flags, st)
  {
    hide Pow2, Round, FracAt, Bf.ResultIs, EffectivePrec;
    var k: nat, w: nat, t: nat :| r.CorrectAt(neg, n * Pow2(j), d, e, prec, flags, st, k, w, t);
    Pow2Add(j, k);
    Assoc(n, Pow2(j), Pow2(k));
    assert r.CorrectAt(neg, n, d, e + j, prec, flags, st, j + k, w, t);
  }
}
