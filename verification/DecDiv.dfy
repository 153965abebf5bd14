/**
 Decimal division of libbf.c: by a digit (mp_div1_dec) and by a number (mp_div_dec).
 */
module DecDiv {
  import opened Limbs
  import opened MpBase
  import opened Udiv
  import opened BfBits
  import opened FastDiv
  import opened DecLimbs
  import opened MpDivBase

  const HALF_BASE := 500_000_000

  // ---------------------------------------------------------------- by one digit

  /** One limb of mp_div1_dec with a precomputed inverse: divisor and dividend are shifted. */
  method ShiftedDigit(r0: limb, a: limb, b: limb, shift: nat, bInv: limb) returns (q: limb, r: limb)
    requires 1 <= b < BF_DEC_BASE && r0 < b && a < BF_DEC_BASE && 2 <= shift < LIMB_BITS
    requires b * Pow2(shift) < B && IsInverse(b * Pow2(shift), bInv)
    ensures r0 * BF_DEC_BASE + a == q * b + r && r < b && q < BF_DEC_BASE
  {
    hide Pow2, Wrap, IsInverse;
    var p, u := Pow2(shift), Pow2(LIMB_BITS - shift);
    LimbPow2(shift);
    var t := r0 * BF_DEC_BASE + a as int;
    ShiftWide(r0, a, b, t, p, u);
    var t1 := Wrap(t / B * p) + t % B / u;
    var t0 := Wrap(t % B * p);
    q, r := Udiv1norm(t1, t0, b * p, bInv);
    Unshift(t, q, r, b, p);
    r := r / p;
    DigitFits(r0, a, q, r, b);
  }

  /** Shifting two limbs loses nothing. */
  lemma ShiftWide(r0: limb, a: limb, b: limb, t: int, p: int, u: int)
    requires r0 < b && a < BF_DEC_BASE && t == r0 * BF_DEC_BASE + a && 1 < p && 1 < u && p * u == B && b * p < B
    ensures var t1, t0 := Wrap(t / B * p) + t % B / u, Wrap(t % B * p);
      0 <= t1 < b * p && t1 * B + t0 == t * p
  {
    hide Wrap;
    var h, l := t / B, t % B;
    MulLe(r0 as int + 1, b, BF_DEC_BASE);
    DivMod(t, B);
    LtMul(h, b, B);
    ShiftHigh(h, b, p);
    ShiftLow(l, p, u);
    Dist(h * B, l, p);
    assert h * B * p == h * p * B;
    Dist(h * p, l / u, B);
    MulLe(h + 1, b, p);
    Dist(h, 1, p);
  }

  lemma ShiftHigh(h: int, b: limb, p: int)
    requires 0 <= h < b && 1 < p && b * p < B
    ensures Wrap(h * p) == h * p
  {
    MulLe(0, h, p);
    MulLe(h, b, p);
    WrapPart(0, h * p);
  }

  lemma ShiftLow(l: int, p: int, u: int)
    requires 0 <= l < B && 1 < p && 1 < u && p * u == B
    ensures 0 <= l / u < p && l / u * B + Wrap(l * p) == l * p
  {
    hide Wrap;
    DivMod(l, u);
    LtMul(l / u, p, u);
    Dist(l / u * u, l % u, p);
    assert l / u * u * p == l / u * (p * u);
    MulLe(l % u + 1, u, p);
    Dist(l % u, 1, p);
    MulLe(0, l % u, p);
    WrapPart(l / u, l % u * p);
  }

  lemma Unshift(t: int, q: limb, r: limb, b: limb, p: int)
    requires 1 < p && t * p == q * (b * p) + r && r < b * p
    ensures 0 <= r / p < b && t == q * b + r / p
  {
    Assoc(q, b, p);
    Dist(t, q * b, p);
    DivMod(r, p);
    var x := t - q * b - r / p;
    Dist(t - q * b, r / p, p);
    if x < 0 { MulLe(x, -1, p); } else if 0 < x { MulLe(1, x, p); }
    LtMul(r / p, b, p);
  }

  lemma DigitFits(r0: limb, a: limb, q: int, r: limb, b: limb)
    requires r0 < b && a < BF_DEC_BASE && r0 * BF_DEC_BASE + a == q * b + r
    ensures q < BF_DEC_BASE
  {
    MulLe(r0 as int + 1, b, BF_DEC_BASE);
    LtMul(q, BF_DEC_BASE, b);
  }

  lemma DecStep(vq: int, va: int, q: int, a0: int, b: int, r1: int, r: int, r0: int, p: int)
    requires va + r0 * p == vq * b + r1 && r1 * BF_DEC_BASE + a0 == q * b + r
    ensures a0 + BF_DEC_BASE * va + r0 * (BF_DEC_BASE * p) == (q + BF_DEC_BASE * vq) * b + r
  {
    Dist(q, BF_DEC_BASE * vq, b);
    Assoc(BF_DEC_BASE, vq, b);
    Assoc(r0, BF_DEC_BASE, p);
  }

  /** What a loop that goes down has written so far, one limb later. */
  lemma WroteDown(s: seq<limb>, t: seq<limb>, lo: nat, n: nat)
    requires lo + n + 1 <= |s| == |t| && t == s[lo := t[lo]] && Dec(s, lo + 1, n) && t[lo] < BF_DEC_BASE
    ensures D(t, lo, n + 1) == t[lo] + BF_DEC_BASE * D(s, lo + 1, n) && Dec(t, lo, n + 1)
  {
    DLow(t, lo, n);
    DSame(s, t, lo + 1, n);
  }

  /** One limb of a loop that goes down and divides. */
  lemma DownStep(s: seq<limb>, t: seq<limb>, lo: nat, a: seq<limb>, ao: nat, n: nat, b: int, r1: int, r: int, r0: int)
    requires lo + n + 1 <= |s| == |t| && t == s[lo := t[lo]] && Dec(s, lo + 1, n) && t[lo] < BF_DEC_BASE && ao + n + 1 <= |a|
    requires D(a, ao + 1, n) + r0 * DP(n) == D(s, lo + 1, n) * b + r1 && r1 * BF_DEC_BASE + a[ao] == t[lo] * b + r
    ensures Dec(t, lo, n + 1) && D(a, ao, n + 1) + r0 * DP(n + 1) == D(t, lo, n + 1) * b + r
  {
    hide D, DP;
    DLow(a, ao, n);
    WroteDown(s, t, lo, n);
    DecStep(D(s, lo + 1, n), D(a, ao + 1, n), t[lo], a[ao], b, r1, r, r0, DP(n));
  }

  /** mp_div1_dec */
  method MpDiv1Dec(tabr: array<limb>, ro: nat, taba: array<limb>, ao: nat, na: nat, b: limb, r0: limb) returns (r: limb)
    requires ro + na <= tabr.Length && Dec(taba[..], ao, na) && (tabr == taba ==> ro == ao)
    requires 1 <= b < BF_DEC_BASE && r0 < b
    modifies tabr
    ensures Only(old(tabr[..]), tabr[..], ro, na) && Dec(tabr[..], ro, na) && r < b
    ensures D(old(taba[..]), ao, na) + r0 * DP(na) == D(tabr[..], ro, na) * b + r
  {
    hide D, DP, IsInverse, Pow2, Clz;
    if b == 2 {
      r := MpHalfDec(tabr, ro, taba, ao, na, r0);
      return;
    }
    ghost var s, sa := tabr[..], taba[..];
    r := r0;
    DEmpty(s, ro + na);
    DEmpty(sa, ao + na);
    var bInv, shift := 0, 0;
    if UDIV1NORM_THRESHOLD <= na {
      shift := Clz(b);
      TwoZeros(b);
      bInv := Udiv1normInit(b * Pow2(shift));
    }
    for i := na downto 0
      invariant Only(s, tabr[..], ro + i, na - i) && Dec(tabr[..], ro + i, na - i) && r < b
      invariant D(sa, ao + i, na - i) + r0 * DP(na - i) == D(tabr[..], ro + i, na - i) * b + r
    {
      ghost var before, r1 := tabr[..], r;
      var a := taba[ao + i];
      assert a == sa[ao + i];
      var q;
      if UDIV1NORM_THRESHOLD <= na {
        q, r := ShiftedDigit(r, a, b, shift, bInv);
      } else {
        q, r := PlainDigit(r, a, b);
      }
      tabr[ro + i] := q;
      DownStep(before, tabr[..], ro + i, sa, ao + i, na - i - 1, b, r1, r, r0);
    }
  }

  /** A decimal limb has at least two leading zero bits. */
  lemma TwoZeros(b: limb)
    requires 1 <= b < BF_DEC_BASE
    ensures 2 <= Clz(b) < LIMB_BITS && HALF <= b * Pow2(Clz(b)) < B
  {
    hide Clz;
    Pow2One();
    assert Clz(b) != 0 && Clz(b) != 1;
  }

  /** One limb of mp_div1_dec without an inverse. */
  method PlainDigit(r0: limb, a: limb, b: limb) returns (q: limb, r: limb)
    requires 1 <= b < BF_DEC_BASE && r0 < b && a < BF_DEC_BASE
    ensures r0 * BF_DEC_BASE + a == q * b + r && r < b && q < BF_DEC_BASE
  {
    var t := r0 * BF_DEC_BASE + a as int;
    DivMod(t, b);
    DigitFits(r0, a, t / b, t % b, b);
    q := t / b;
    r := t % b;
  }

  /** The case of mp_div1_dec for b = 2: limbs are halved, an odd limb adds half a base below. */
  method MpHalfDec(tabr: array<limb>, ro: nat, taba: array<limb>, ao: nat, na: nat, r0: limb) returns (r: limb)
    requires ro + na <= tabr.Length && Dec(taba[..], ao, na) && (tabr == taba ==> ro == ao) && r0 < 2
    modifies tabr
    ensures Only(old(tabr[..]), tabr[..], ro, na) && Dec(tabr[..], ro, na) && r < 2
    ensures D(old(taba[..]), ao, na) + r0 * DP(na) == D(tabr[..], ro, na) * 2 + r
  {
    hide D, DP;
    ghost var s, sa := tabr[..], taba[..];
    r := if r0 != 0 then HALF_BASE else 0;
    DEmpty(s, ro + na);
    DEmpty(sa, ao + na);
    for i := na downto 0
      invariant Only(s, tabr[..], ro + i, na - i) && Dec(tabr[..], ro + i, na - i) && (r == 0 || r == HALF_BASE)
      invariant D(sa, ao + i, na - i) + r0 * DP(na - i) == D(tabr[..], ro + i, na - i) * 2 + if r == 0 then 0 else 1
    {
      ghost var before, r1 := tabr[..], if r == 0 then 0 else 1;
      var t0 := taba[ao + i];
      assert t0 == sa[ao + i];
      tabr[ro + i] := t0 / 2 + r;
      r := if t0 % 2 == 1 then HALF_BASE else 0;
      DownStep(before, tabr[..], ro + i, sa, ao + i, na - i - 1, 2, r1, t0 % 2, r0);
    }
    if r != 0 {
      r := 1;
    }
  }

  // ---------------------------------------------------------------- by a power of ten

  /** fast_shr_rem_dec */
  method FastShrRemDec(a: limb, shift: nat) returns (q: limb, r: limb)
    requires shift <= LIMB_DIGITS
    ensures a == q * MP_POW_DEC[shift] + r && r < MP_POW_DEC[shift]
  {
    hide FastUdivInit, Divides;
    TableDivides(shift);
    q := FastUdiv(a, MP_POW_DIV[shift], MP_POW_DEC[shift]);
    DivMod(a, MP_POW_DEC[shift]);
    r := a - q * MP_POW_DEC[shift];
  }

  lemma PowersOf10(shift: nat)
    requires 1 <= shift < LIMB_DIGITS
    ensures 1 < MP_POW_DEC[shift] && 1 < MP_POW_DEC[LIMB_DIGITS - shift]
    ensures MP_POW_DEC[shift] as int * MP_POW_DEC[LIMB_DIGITS - shift] as int == BF_DEC_BASE
  {
  }

  /** mp_shr_dec */
  method MpShrDec(tabr: array<limb>, ro: nat, tab: array<limb>, o: nat, n: nat, shift: nat, high: limb) returns (l: limb)
    requires ro + n <= tabr.Length && Dec(tab[..], o, n) && (tabr == tab ==> ro == o)
    requires 1 <= shift < LIMB_DIGITS && high < MP_POW_DEC[shift]
    modifies tabr
    ensures Only(old(tabr[..]), tabr[..], ro, n) && Dec(tabr[..], ro, n) && l < MP_POW_DEC[shift]
    ensures D(old(tab[..]), o, n) + high * DP(n) == D(tabr[..], ro, n) * MP_POW_DEC[shift] + l
  {
    hide D, DP;
    ghost var s, sa := tabr[..], tab[..];
    PowersOf10(shift);
    var p, u := MP_POW_DEC[shift], MP_POW_DEC[LIMB_DIGITS - shift];
    l := high;
    DEmpty(s, ro + n);
    DEmpty(sa, o + n);
    for i := n downto 0
      invariant Only(s, tabr[..], ro + i, n - i) && Dec(tabr[..], ro + i, n - i) && l < p
      invariant D(sa, o + i, n - i) + high * DP(n - i) == D(tabr[..], ro + i, n - i) * p + l
    {
      ghost var before, l0 := tabr[..], l;
      var a := tab[o + i];
      assert a == sa[o + i];
      var q, r := FastShrRemDec(a, shift);
      ShiftedIn(q, l, r, a, p, u);
      tabr[ro + i] := q + l * u;
      l := r;
      DownStep(before, tabr[..], ro + i, sa, o + i, n - i - 1, p, l0, r, high);
    }
  }

  lemma ShiftedIn(q: limb, l: limb, r: limb, a: limb, p: limb, u: limb)
    requires a < BF_DEC_BASE && a == q * p + r && r < p && l < p && p as int * u as int == BF_DEC_BASE
    ensures var d := q + l * u; 0 <= d < BF_DEC_BASE && l * BF_DEC_BASE + a == d * p + r
  {
    LtMul(q, u, p);
    MulLe(l as int + 1, p, u);
    MulLe(0, l, u);
    Dist(l, 1, u);
    Dist(q, l * u, p);
    assert l * u * p == l * (p as int * u as int);
  }

  /** mp_shl_dec */
  method MpShlDec(tabr: array<limb>, ro: nat, tab: array<limb>, o: nat, n: nat, shift: nat, low: limb) returns (l: limb)
    requires ro + n <= tabr.Length && Dec(tab[..], o, n) && NoClash(tabr, ro, tab, o, n)
    requires 1 <= shift < LIMB_DIGITS && low < MP_POW_DEC[shift]
    modifies tabr
    ensures Only(old(tabr[..]), tabr[..], ro, n) && Dec(tabr[..], ro, n) && l < MP_POW_DEC[shift]
    ensures D(tabr[..], ro, n) + l * DP(n) == D(old(tab[..]), o, n) * MP_POW_DEC[shift] + low
  {
    hide D, DP;
    ghost var s, sa := tabr[..], tab[..];
    PowersOf10(shift);
    var p, u := MP_POW_DEC[shift], MP_POW_DEC[LIMB_DIGITS - shift];
    l := low;
    DEmpty(s, ro);
    DEmpty(sa, o);
    for i := 0 to n
      invariant Only(s, tabr[..], ro, i) && Dec(tabr[..], ro, i) && l < p
      invariant D(tabr[..], ro, i) + l * DP(i) == D(sa, o, i) * p + low
    {
      ghost var before, l0 := tabr[..], l;
      var a := tab[o + i];
      assert a == sa[o + i];
      var q, r := FastShrRemDec(a, LIMB_DIGITS - shift);
      ShiftedOut(q, l, r, a, p, u);
      tabr[ro + i] := r * p + l;
      l := q;
      DNext(sa, o, i);
      DWrote(before, tabr[..], ro, i);
      DCarry(tabr[ro + i], q, a as int * p as int + l0, DP(i));
      MulStep(D(sa, o, i), a, p, l0, DP(i));
    }
  }

  lemma ShiftedOut(q: limb, l: limb, r: limb, a: limb, p: limb, u: limb)
    requires a < BF_DEC_BASE && a == q * u + r && r < u && l < p && p as int * u as int == BF_DEC_BASE
    ensures var d := r * p + l; 0 <= d < BF_DEC_BASE && d + q * BF_DEC_BASE == a as int * p as int + l && q < p
  {
    LtMul(q, p, u);
    MulLe(r as int + 1, u, p);
    MulLe(0, r, p);
    Dist(r, 1, p);
    Dist(q * u, r, p);
    assert q * u * p == q * (p as int * u as int);
  }

  // ---------------------------------------------------------------- by a number

  /** The top limb of the divisor is at least half the base. */
  ghost predicate DecNormalized(b: seq<limb>, bo: nat, nb: nat) {
    1 <= nb && Dec(b, bo, nb) && HALF_BASE <= b[bo + nb - 1]
  }

  lemma TopDigit(b: seq<limb>, bo: nat, nb: nat)
    requires 1 <= nb && Dec(b, bo, nb)
    ensures D(b, bo, nb) == b[bo + nb - 1] * DP(nb - 1) + D(b, bo, nb - 1) && D(b, bo, nb - 1) < DP(nb - 1)
    ensures D(b, bo, nb) < DP(nb) == BF_DEC_BASE * DP(nb - 1)
  {
    DNext(b, bo, nb - 1);
    DBound(b, bo, nb - 1);
    DBound(b, bo, nb);
  }

  /** A guessed digit is not too small, and at most two too large. */
  lemma DecGuess(u: int, u2: int, u0: int, b: int, b1: int, b0: int, q: int, p: int)
    requires 0 < p && u == u2 * p + u0 && 0 <= u0 < p && b == b1 * p + b0 && 0 <= b0 < p && HALF_BASE <= b1
    requires u < BF_DEC_BASE * b && 0 <= q < BF_DEC_BASE && q * b1 <= u2
    requires q == BF_DEC_BASE - 1 || u2 < (q + 1) * b1
    ensures -2 * b <= u - q * b && u < (q + 1) * b
  {
    assert u - q * b >= -2 * b by {
      MulLe(q * b1, u2, p);
      DistL(q, b1 * p, b0);
      Assoc(q, b1, p);
      MulLe(q, BF_DEC_BASE - 1, b0);
      MulLe(b0, p, BF_DEC_BASE - 1);
      MulLe(HALF_BASE, b1, p);
    }
    if q == BF_DEC_BASE - 1 {
      assert (q + 1) * b == BF_DEC_BASE * b;
    } else {
      MulLe(u2 + 1, (q + 1) * b1, p);
      Dist(u2, 1, p);
      DistL(q + 1, b1 * p, b0);
      Assoc(q + 1, b1, p);
      MulLe(0, q + 1, b0);
    }
  }

  /** The guess of one digit in mp_div_dec. */
  method GuessDecDigit(taba: array<limb>, o: nat, tabb: array<limb>, bo: nat, nb: nat) returns (q: limb)
    requires DecNormalized(tabb[..], bo, nb) && Dec(taba[..], o, nb + 1)
    requires D(taba[..], o, nb + 1) < BF_DEC_BASE * D(tabb[..], bo, nb)
    ensures q < BF_DEC_BASE && -2 * D(tabb[..], bo, nb) <= D(taba[..], o, nb + 1) - q * D(tabb[..], bo, nb)
    ensures D(taba[..], o, nb + 1) < (q as int + 1) * D(tabb[..], bo, nb)
  {
    hide D, DP;
    var b1 := tabb[bo + nb - 1];
    ghost var a, b, p := taba[..], tabb[..], DP(nb - 1);
    ghost var u2 := a[o + nb] * BF_DEC_BASE + a[o + nb - 1] as int;
    TopTwoDigits(a, o, nb);
    TopDigit(b, bo, nb);
    if taba[o + nb] >= b1 {
      q := BF_DEC_BASE - 1;
      MulLe(b1, a[o + nb], BF_DEC_BASE);
      Dist(BF_DEC_BASE, 1, b1);
    } else {
      var dummy;
      q, dummy := PlainDigit(taba[o + nb], taba[o + nb - 1], b1);
      Dist(q, 1, b1);
    }
    DecGuess(D(a, o, nb + 1), u2, D(a, o, nb - 1), D(b, bo, nb), b1, D(b, bo, nb - 1), q, p);
  }

  lemma TopTwoDigits(a: seq<limb>, o: nat, nb: nat)
    requires 1 <= nb && Dec(a, o, nb + 1)
    ensures D(a, o, nb + 1) == (a[o + nb] * BF_DEC_BASE + a[o + nb - 1]) * DP(nb - 1) + D(a, o, nb - 1)
    ensures D(a, o, nb - 1) < DP(nb - 1)
  {
    TopDigit(a, o, nb + 1);
    TopDigit(a, o, nb);
    Dist(a[o + nb] * BF_DEC_BASE, a[o + nb - 1], DP(nb - 1));
    Assoc(a[o + nb], BF_DEC_BASE, DP(nb - 1));
  }

  /** One digit of the quotient: taba[o..o + nb + 1] loses `q` times the divisor. */
  method NextDecDigit(taba: array<limb>, o: nat, tabb: array<limb>, bo: nat, nb: nat) returns (q: limb)
    requires DecNormalized(tabb[..], bo, nb) && Dec(taba[..], o, nb + 1) && taba != tabb
    requires D(taba[..], o, nb + 1) < BF_DEC_BASE * D(tabb[..], bo, nb)
    modifies taba
    ensures Only(old(taba[..]), taba[..], o, nb + 1) && Dec(taba[..], o, nb) && q < BF_DEC_BASE
    ensures D(old(taba[..]), o, nb + 1) == q * D(tabb[..], bo, nb) + D(taba[..], o, nb)
    ensures D(taba[..], o, nb) < D(tabb[..], bo, nb)
  {
    hide D, DP, Wrap, DecNormalized;
    DivisorDigits(tabb[..], bo, nb);
    ghost var s, b := taba[..], D(tabb[..], bo, nb);
    ghost var u := D(s, o, nb + 1);
    q := GuessDecDigit(taba, o, tabb, bo, nb);
    var r := MpSubMul1Dec(taba, o, tabb, bo, nb, q);
    ghost var m := taba[..];
    var v := taba[o + nb];
    SubDigit(v, r);
    var a := Wrap(v as int - r);
    var c := a > v;
    if c {
      a := Wrap(a as int + BF_DEC_BASE);
    }
    taba[o + nb] := a;
    TopSubDec(s, m, taba[..], o, nb, r, a, if c then 1 else 0);
    Dist(q, 1, b);
    DBound(taba[..], o, nb + 1);
    if c {
      // the estimate was too large
      q := AddBackDec(taba, o, tabb, bo, nb, q, u);
    } else {
      DecFits(taba[..], o, nb, tabb[..], bo);
    }
  }

  lemma DivisorDigits(b: seq<limb>, bo: nat, nb: nat)
    requires DecNormalized(b, bo, nb)
    ensures Dec(b, bo, nb) && 1 <= nb && bo + nb <= |b|
  {
  }

  /** The top limb after a subtraction. */
  lemma TopSubDec(s: seq<limb>, m: seq<limb>, t: seq<limb>, o: nat, nb: nat, r: limb, a: limb, c: int)
    requires o + nb < |s| && Only(s, m, o, nb) && t == m[o + nb := a] && Dec(m, o, nb) && a < BF_DEC_BASE
    requires a - c * BF_DEC_BASE == s[o + nb] as int - r
    ensures Only(s, t, o, nb + 1) && Dec(t, o, nb + 1)
    ensures D(t, o, nb + 1) - c * DP(nb + 1) == D(s, o, nb + 1) - D(s, o, nb) + D(m, o, nb) - r * DP(nb)
  {
    hide D, DP;
    DNext(s, o, nb);
    DNext(t, o, nb);
    DOnly(m, t, o, nb, o + nb, 1);
    DCarry(a, -c, s[o + nb] as int - r, DP(nb));
    Dist(s[o + nb], r, DP(nb));
  }

  /** A number below the divisor has no limb above it. */
  lemma DecFits(t: seq<limb>, o: nat, nb: nat, b: seq<limb>, bo: nat)
    requires Dec(t, o, nb + 1) && Dec(b, bo, nb) && D(t, o, nb + 1) < D(b, bo, nb)
    ensures D(t, o, nb) == D(t, o, nb + 1)
  {
    DBound(b, bo, nb);
    DNext(t, o, nb);
    if t[o + nb] != 0 { MulLe(1, t[o + nb], DP(nb)); }
  }

  /**
   The repair loop of mp_div_dec.  It ends with the top limb one too large for a decimal limb; that
   limb is not read again.
   */
  method AddBackDec(taba: array<limb>, o: nat, tabb: array<limb>, bo: nat, nb: nat, q0: limb, ghost u: int) returns (q: limb)
    requires Dec(taba[..], o, nb + 1) && Dec(tabb[..], bo, nb) && taba != tabb && 0 <= u
    requires -2 * D(tabb[..], bo, nb) <= u - q0 * D(tabb[..], bo, nb) < 0
    requires D(taba[..], o, nb + 1) == u - q0 * D(tabb[..], bo, nb) + DP(nb + 1)
    modifies taba
    ensures Only(old(taba[..]), taba[..], o, nb + 1) && Dec(taba[..], o, nb)
    ensures D(taba[..], o, nb) == u - q * D(tabb[..], bo, nb)
    ensures 0 <= u - q * D(tabb[..], bo, nb) < D(tabb[..], bo, nb) && q < q0 <= q + 2
  {
    hide D, DP, Only;
    ghost var s, b := taba[..], D(tabb[..], bo, nb);
    q := q0;
    OnlySelf(s, o, nb + 1);
    while true
      invariant Only(s, taba[..], o, nb + 1) && Dec(taba[..], o, nb + 1) && q <= q0
      invariant u - q * b < 0 && D(taba[..], o, nb + 1) == u - q * b + DP(nb + 1)
      decreases q
    {
      Positive(u, q, b);
      Dist(q, 1, b);
      q := q - 1;
      ghost var before := taba[..];
      var c := MpAddDec(taba, o, taba, o, tabb, bo, nb, 0);
      ghost var m := taba[..];
      MoreOnly(s, before, m, o, nb, nb + 1);
      TopUnchanged(before, m, o, nb);
      if c != 0 {
        taba[o + nb] := taba[o + nb] + 1;
        MoreTop(s, m, taba[..], o, nb);
        TopUp(before, m, taba[..], o, nb, b);
        if taba[o + nb] == BF_DEC_BASE { break; }
      }
      TopKept(before, m, o, nb, b, c);
      DBound(taba[..], o, nb + 1);
    }
    AtMostTwo(u, q0, q, b);
  }

  lemma TopUnchanged(s: seq<limb>, m: seq<limb>, o: nat, nb: nat)
    requires Dec(s, o, nb + 1) && Only(s, m, o, nb) && Dec(m, o, nb)
    ensures m[o + nb] == s[o + nb] && Dec(m, o, nb + 1)
  {
  }

  lemma TopKept(s: seq<limb>, m: seq<limb>, o: nat, nb: nat, b: int, c: limb)
    requires Dec(s, o, nb + 1) && Only(s, m, o, nb) && D(m, o, nb) + c * DP(nb) == D(s, o, nb) + b
    ensures c == 0 ==> D(m, o, nb + 1) == D(s, o, nb + 1) + b
  {
    DNext(s, o, nb);
    DNext(m, o, nb);
  }

  /** The carry of an addition goes into the top limb. */
  lemma TopUp(s: seq<limb>, m: seq<limb>, t: seq<limb>, o: nat, nb: nat, b: int)
    requires Dec(s, o, nb + 1) && Only(s, m, o, nb) && Dec(m, o, nb + 1)
    requires D(m, o, nb) + DP(nb) == D(s, o, nb) + b && |t| == |m| && t == m[o + nb := t[o + nb]] && t[o + nb] as int == m[o + nb] as int + 1
    ensures t[o + nb] < BF_DEC_BASE ==> Dec(t, o, nb + 1) && D(t, o, nb + 1) == D(s, o, nb + 1) + b
    ensures t[o + nb] == BF_DEC_BASE ==> Dec(t, o, nb) && D(t, o, nb) == D(s, o, nb + 1) + b - DP(nb + 1)
  {
    hide D, DP;
    DNext(s, o, nb);
    DNext(t, o, nb);
    DOnly(m, t, o, nb, o + nb, 1);
    Dist(m[o + nb], 1, DP(nb));
  }

  /** The digits of the quotient below digit i0, when what stands from limb i0 on is below the divisor. */
  method DecDigits(tabq: array<limb>, qo: nat, taba: array<limb>, ao: nat, i0: nat, tabb: array<limb>, bo: nat, nb: nat)
    requires DecNormalized(tabb[..], bo, nb) && qo + i0 <= tabq.Length && Dec(taba[..], ao, i0 + nb)
    requires tabq != taba && tabq != tabb && taba != tabb
    requires D(taba[..], ao + i0, nb) < D(tabb[..], bo, nb)
    modifies tabq, taba
    ensures Only(old(tabq[..]), tabq[..], qo, i0) && Only(old(taba[..]), taba[..], ao, i0 + nb)
    ensures Dec(tabq[..], qo, i0) && Dec(taba[..], ao, nb)
    ensures D(old(taba[..]), ao, i0 + nb) == D(tabq[..], qo, i0) * D(tabb[..], bo, nb) + D(taba[..], ao, nb)
    ensures D(taba[..], ao, nb) < D(tabb[..], bo, nb)
  {
    hide D, DP, Only, DecNormalized, PartDec;
    DivisorDigits(tabb[..], bo, nb);
    ghost var sa, sq, b := taba[..], tabq[..], D(tabb[..], bo, nb);
    PartFirst(sa, ao, i0, nb, b);
    DEmpty(sq, qo + i0);
    OnlySelf(sa, ao + i0, nb);
    OnlySelf(sq, qo + i0, 0);
    for i := i0 downto 0
      invariant Only(sq, tabq[..], qo + i, i0 - i) && Only(sa, taba[..], ao + i, i0 + nb - i)
      invariant Dec(tabq[..], qo + i, i0 - i) && Dec(taba[..], ao + i, nb) && D(taba[..], ao + i, nb) < b
      invariant PartDec(sa, ao, i0 + nb, i, D(tabq[..], qo + i, i0 - i), b, D(taba[..], ao + i, nb))
    {
      ghost var sa1, sq1 := taba[..], tabq[..];
      OnlyAt(sa, sa1, ao + i + 1, i0 + nb - i - 1, ao + i);
      DLow(sa1, ao + i, nb);
      var q := NextDecDigit(taba, ao + i, tabb, bo, nb);
      ghost var sa2 := taba[..];
      tabq[qo + i] := q;
      Widen(sa, sa1, sa2, ao + i, i0 + nb - i, nb + 1);
      OnlyOne(sq1, tabq[..], qo + i);
      Widen(sq, sq1, tabq[..], qo + i, i0 - i, 1);
      WroteDown(sq1, tabq[..], qo + i, i0 - i - 1);
      PartNext(sa, ao, i0 + nb, i, D(sq1, qo + i + 1, i0 - i - 1), b, D(sa1, ao + i + 1, nb), q, D(sa2, ao + i, nb));
    }
    PartLast(sa, ao, i0 + nb, D(tabq[..], qo, i0), b, D(taba[..], ao, nb));
  }

  lemma Widen(s: seq<limb>, t: seq<limb>, u: seq<limb>, lo: nat, n: nat, m: nat)
    requires 1 <= m <= n && Only(s, t, lo + 1, n - 1) && Only(t, u, lo, m)
    ensures Only(s, u, lo, n)
  {
  }

  /** The dividend from limb `i` on has been divided. */
  ghost predicate PartDec(a: seq<limb>, ao: nat, na: nat, i: nat, q: int, b: int, r: int)
    requires i <= na && ao + na <= |a|
  {
    D(a, ao, na) == D(a, ao, i) + DP(i) * (q * b + r)
  }

  lemma PartFirst(a: seq<limb>, ao: nat, i: nat, nb: nat, b: int)
    requires ao + i + nb <= |a|
    ensures PartDec(a, ao, i + nb, i, 0, b, D(a, ao + i, nb))
  {
    hide D, DP;
    DSplit(a, ao, i, nb);
    assert 0 * b == 0;
  }

  lemma PartLast(a: seq<limb>, ao: nat, na: nat, q: int, b: int, r: int)
    requires ao + na <= |a| && PartDec(a, ao, na, 0, q, b, r)
    ensures D(a, ao, na) == q * b + r
  {
    DEmpty(a, ao);
  }

  lemma PartNext(a: seq<limb>, ao: nat, na: nat, i: nat, q: int, b: int, r: int, digit: int, r': int)
    requires i + 1 <= na && ao + na <= |a| && PartDec(a, ao, na, i + 1, q, b, r)
    requires a[ao + i] + BF_DEC_BASE * r == digit * b + r'
    ensures PartDec(a, ao, na, i, digit + BF_DEC_BASE * q, b, r')
  {
    hide D, DP;
    DNext(a, ao, i);
    var p, d := DP(i), a[ao + i];
    Dist(digit, BF_DEC_BASE * q, b);
    Assoc(BF_DEC_BASE, q, b);
    DistL(p, BF_DEC_BASE * (q * b + r), d);
    Assoc(p, BF_DEC_BASE, q * b + r);
  }

  /** The first digit of mp_div_dec when the divisor is normalized: 0 or 1. */
  method FirstDecDigit(taba: array<limb>, o: nat, tabb: array<limb>, bo: nat, nb: nat) returns (q: limb)
    requires Dec(taba[..], o, nb) && DecNormalized(tabb[..], bo, nb) && taba != tabb
    modifies taba
    ensures Only(old(taba[..]), taba[..], o, nb) && Dec(taba[..], o, nb) && q <= 1
    ensures D(old(taba[..]), o, nb) == q * D(tabb[..], bo, nb) + D(taba[..], o, nb)
    ensures D(taba[..], o, nb) < D(tabb[..], bo, nb)
  {
    hide D, DP, Only;
    ghost var a, b := taba[..], tabb[..];
    TopDigit(b, bo, nb);
    DBound(a, o, nb);
    MulLe(HALF_BASE, b[bo + nb - 1], DP(nb - 1));
    OnlySelf(a, o, nb);
    q := 1;
    var j := nb;
    while 0 < j
      invariant 0 <= j <= nb && taba[..] == a && D(a, o, nb) - D(b, bo, nb) == D(a, o, j) - D(b, bo, j)
    {
      j := j - 1;
      DNext(a, o, j);
      DNext(b, bo, j);
      assert a[o + j] == taba[o + j] && b[bo + j] == tabb[bo + j];
      if taba[o + j] != tabb[bo + j] {
        DecDecides(a, o, b, bo, j + 1);
        if taba[o + j] < tabb[bo + j] {
          q := 0;
        }
        j := j + 1;
        break;
      }
    }
    if j == 0 { DEmpty(a, o); DEmpty(b, bo); }
    assert q == 1 <==> D(b, bo, nb) <= D(a, o, nb);
    if q != 0 {
      var k := MpSubDec(taba, o, taba, o, tabb, bo, nb, 0);
      DBound(taba[..], o, nb);
    }
  }

  /** Numbers of one length compare as their top limbs do, unless those are equal. */
  lemma DecDecides(a: seq<limb>, ao: nat, b: seq<limb>, bo: nat, n: nat)
    requires 0 < n && Dec(a, ao, n) && Dec(b, bo, n) && a[ao + n - 1] != b[bo + n - 1]
    ensures D(a, ao, n) < D(b, bo, n) <==> a[ao + n - 1] < b[bo + n - 1]
    ensures D(a, ao, n) != D(b, bo, n)
  {
    var x, y, p := a[ao + n - 1], b[bo + n - 1], DP(n - 1);
    TopDigit(a, ao, n);
    TopDigit(b, bo, n);
    if x < y { MulLe(x as int + 1, y, p); Dist(x, 1, p); } else { MulLe(y as int + 1, x, p); Dist(y, 1, p); }
  }

  // ---------------------------------------------------------------- mp_div_dec

  /** The factor that normalizes a divisor with this top limb. */
  lemma MultIsEnough(r: limb, mult: int)
    requires 1 <= r < HALF_BASE && mult == BF_DEC_BASE / (r + 1)
    ensures 2 <= mult && (r + 1) * mult <= BF_DEC_BASE && HALF_BASE <= r * mult
  {
    var v := r as int + 1;
    DivMod(BF_DEC_BASE, v);
    assert BF_DEC_BASE - v < v * mult <= BF_DEC_BASE;
    if mult < 2 { MulLe(mult, 1, v); }
    // r * (r + 1) * mult is above (10^9 / 2 - 1) * (r + 1)
    MulLe(BF_DEC_BASE - r, v * mult, r);
    assert r * (v * mult) == v * (r * mult);
    assert r * (BF_DEC_BASE - r) == (HALF_BASE - 1) * v + (HALF_BASE - r) * (r - 1) + 1;
    MulLe(0, HALF_BASE - r, r - 1);
    LtMul(HALF_BASE - 1, r * mult, v);
  }

  /** The divisor times the factor has as many limbs and is normalized. */
  lemma ScaledDivisor(b: seq<limb>, bo: nat, nb: nat, mult: limb, t: seq<limb>, carry: limb)
    requires 1 <= nb && Dec(b, bo, nb) && 1 <= b[bo + nb - 1] < HALF_BASE && mult == BF_DEC_BASE / (b[bo + nb - 1] + 1)
    requires Dec(t, 0, nb) && D(t, 0, nb) + carry * DP(nb) == D(b, bo, nb) * mult
    ensures DecNormalized(t, 0, nb) && D(t, 0, nb) == D(b, bo, nb) * mult && DP(nb - 1) <= D(b, bo, nb)
  {
    hide D, DP;
    TopDigit(b, bo, nb);
    TopDigit(t, 0, nb);
    var r, p, low := b[bo + nb - 1], DP(nb - 1), D(b, bo, nb - 1);
    MultIsEnough(r, mult);
    ScaledBounds(r, p, low, mult);
    if carry != 0 { MulLe(1, carry, DP(nb)); }
    LtMul(HALF_BASE - 1, t[nb - 1], p);
  }

  lemma ScaledBounds(r: limb, p: int, low: int, mult: int)
    requires 1 <= r && 0 < p && 0 <= low < p && 2 <= mult && (r + 1) * mult <= BF_DEC_BASE && HALF_BASE <= r * mult
    ensures HALF_BASE * p <= (r * p + low) * mult < BF_DEC_BASE * p && p <= r * p + low
  {
    MulLe(1, r, p);
    Dist(r * p, low, mult);
    assert r * p * mult == r * mult * p;
    MulLe(low + 1, p, mult);
    Dist(low, 1, mult);
    MulLe(0, low, mult);
    Dist(r, 1, mult);
    Dist(r * mult, mult, p);
    MulLe((r + 1) * mult, BF_DEC_BASE, p);
    MulLe(HALF_BASE, r * mult, p);
  }

  /** The scaled dividend from limb n + 1 on is below the scaled divisor. */
  lemma ScaledDividend(a: int, t: seq<limb>, ao: nat, na: nat, nb: nat, b: int, mult: limb)
    requires 1 <= nb <= na && ao + na + 1 <= |t| && D(t, ao, na + 1) == a * mult && 0 <= a < DP(na) && DP(nb - 1) <= b && 1 <= mult
    ensures D(t, ao + (na - nb + 1), nb) < b * mult
  {
    hide D, DP;
    var n := na - nb + 1;
    DSplit(t, ao, n, nb);
    DPAdd(n, nb - 1);
    MulLe(a + 1, DP(na), mult);
    Dist(a, 1, mult);
    MulLe(DP(nb - 1), b, mult);
    MulLe(DP(nb - 1) * mult, b * mult, DP(n));
    Assoc(DP(n), DP(nb - 1), mult);
    LtMul(D(t, ao + n, nb), b * mult, DP(n));
  }

  /** The normalization is undone. */
  lemma Unscaled(a: int, q: int, b: int, r: int, mult: int, x: int, rest: int)
    requires 1 <= mult && a * mult == q * (b * mult) + r && r < b * mult && r == x * mult + rest && 0 <= rest < mult
    ensures a == q * b + x && x < b
  {
    Assoc(q, b, mult);
    Dist(a, q * b, mult);
    Dist(a - q * b, x, mult);
    var y := a - q * b - x;
    if y < 0 { MulLe(y, -1, mult); } else if 0 < y { MulLe(1, y, mult); }
    LtMul(x, b, mult);
  }

  /**
   mp_div_dec: the quotient of taba[0..na-1] by tabb1[0..nb-1], whose top limb is not zero.  The
   remainder is left in the low nb limbs of taba; one more limb of taba is used unless the divisor
   is normalized.
   */
  method MpDivDec(tabq: array<limb>, qo: nat, taba: array<limb>, ao: nat, na: nat, tabb1: array<limb>, bo: nat, nb: nat)
    requires 1 <= nb <= na && qo + na - nb + 1 <= tabq.Length && Dec(taba[..], ao, na) && Dec(tabb1[..], bo, nb)
    requires tabb1[bo + nb - 1] != 0 && (tabb1[bo + nb - 1] < HALF_BASE ==> ao + na < taba.Length)
    requires tabq != taba && tabq != tabb1 && taba != tabb1
    modifies tabq, taba
    ensures Only(old(tabq[..]), tabq[..], qo, na - nb + 1) && Only(old(taba[..]), taba[..], ao, na + 1)
    ensures Dec(tabq[..], qo, na - nb + 1) && Dec(taba[..], ao, nb)
    ensures D(old(taba[..]), ao, na) == D(tabq[..], qo, na - nb + 1) * D(tabb1[..], bo, nb) + D(taba[..], ao, nb)
    ensures D(taba[..], ao, nb) < D(tabb1[..], bo, nb)
  {
    var r := tabb1[bo + nb - 1];
    if HALF_BASE <= r {
      DivNormalized(tabq, qo, taba, ao, na, tabb1, bo, nb);
    } else {
      DivScaled(tabq, qo, taba, ao, na, tabb1, bo, nb);
    }
  }

  method DivNormalized(tabq: array<limb>, qo: nat, taba: array<limb>, ao: nat, na: nat, tabb: array<limb>, bo: nat, nb: nat)
    requires 1 <= nb <= na && qo + na - nb + 1 <= tabq.Length && Dec(taba[..], ao, na) && DecNormalized(tabb[..], bo, nb)
    requires tabq != taba && tabq != tabb && taba != tabb
    modifies tabq, taba
    ensures Only(old(tabq[..]), tabq[..], qo, na - nb + 1) && Only(old(taba[..]), taba[..], ao, na)
    ensures Dec(tabq[..], qo, na - nb + 1) && Dec(taba[..], ao, nb)
    ensures D(old(taba[..]), ao, na) == D(tabq[..], qo, na - nb + 1) * D(tabb[..], bo, nb) + D(taba[..], ao, nb)
    ensures D(taba[..], ao, nb) < D(tabb[..], bo, nb)
  {
    hide D, DP, DecNormalized;
    DivisorDigits(tabb[..], bo, nb);
    ghost var sa, sq, b := taba[..], tabq[..], D(tabb[..], bo, nb);
    var n := na - nb;
    var q := FirstDecDigit(taba, ao + n, tabb, bo, nb);
    ghost var sa1 := taba[..];
    tabq[qo + n] := q;
    ghost var sq1 := tabq[..];
    DecDigits(tabq, qo, taba, ao, n, tabb, bo, nb);
    DNext(tabq[..], qo, n);
    DSplit(sa, ao, n, nb);
    DSplit(sa1, ao, n, nb);
    DOnly(sa, sa1, ao, n, ao + n, nb);
    DistL(DP(n), q * b, D(sa1, ao + n, nb));
    Dist(D(tabq[..], qo, n), q * DP(n), b);
    assert DP(n) * (q * b) == q * DP(n) * b;
  }

  method DivScaled(tabq: array<limb>, qo: nat, taba: array<limb>, ao: nat, na: nat, tabb1: array<limb>, bo: nat, nb: nat)
    requires 1 <= nb <= na && qo + na - nb + 1 <= tabq.Length && Dec(taba[..], ao, na) && Dec(tabb1[..], bo, nb)
    requires 1 <= tabb1[bo + nb - 1] < HALF_BASE && ao + na < taba.Length
    requires tabq != taba && tabq != tabb1 && taba != tabb1
    modifies tabq, taba
    ensures Only(old(tabq[..]), tabq[..], qo, na - nb + 1) && Only(old(taba[..]), taba[..], ao, na + 1)
    ensures Dec(tabq[..], qo, na - nb + 1) && Dec(taba[..], ao, nb)
    ensures D(old(taba[..]), ao, na) == D(tabq[..], qo, na - nb + 1) * D(tabb1[..], bo, nb) + D(taba[..], ao, nb)
    ensures D(taba[..], ao, nb) < D(tabb1[..], bo, nb)
  {
    hide D, DP, DecNormalized;
    ghost var sa, b := taba[..], D(tabb1[..], bo, nb);
    var r := tabb1[bo + nb - 1];
    var mult := BF_DEC_BASE / (r + 1);
    MultIsEnough(r, mult);
    var tabb := new limb[nb];
    var carry := MpMul1Dec(tabb, 0, tabb1, bo, nb, mult, 0);
    ScaledDivisor(tabb1[..], bo, nb, mult, tabb[..], carry);
    carry := MpMul1Dec(taba, ao, taba, ao, na, mult, 0);
    ghost var sa1 := taba[..];
    taba[ao + na] := carry;
    ghost var sa2 := taba[..];
    DNext(sa2, ao, na);
    DOnly(sa1, sa2, ao, na, ao + na, 1);
    DBound(sa, ao, na);
    ScaledDividend(D(sa, ao, na), sa2, ao, na, nb, b, mult);
    DecDigits(tabq, qo, taba, ao, na - nb + 1, tabb, 0, nb);
    ghost var rem := D(taba[..], ao, nb);
    // remove the normalization
    var rest := MpDiv1Dec(taba, ao, taba, ao, nb, mult, 0);
    Unscaled(D(sa, ao, na), D(tabq[..], qo, na - nb + 1), b, rem, mult, D(taba[..], ao, nb), rest);
  }
}
