/**
 Division and reciprocals of libbf.c: mp_divnorm, mp_divnorm_large and mp_recip call each other.
 */
module MpDiv {
  import opened Limbs
  import opened MpBase
  import opened Udiv
  import opened MpDivBase
  import opened DivMath

  const DIVNORM_LARGE_THRESHOLD := 50

  ghost predicate IsQuotient(a: int, q: int, b: int, r: int) {
    a == q * b + r && 0 <= r < b
  }

  function Min(a: nat, b: nat): nat { if a < b then a else b }

  /** The first quotient digit of mp_divnorm: 0 or 1. */
  method FirstDigit(taba: array<limb>, o: nat, tabb: array<limb>, bo: nat, nb: nat) returns (q: limb)
    requires o + nb <= taba.Length && Normalized(tabb[..], bo, nb) && taba != tabb
    modifies taba
    ensures Only(old(taba[..]), taba[..], o, nb) && q <= 1
    ensures IsQuotient(V(old(taba[..]), o, nb), q, V(tabb[..], bo, nb), V(taba[..], o, nb))
  {
    hide V, BP, Only;
    ghost var a, b := taba[..], tabb[..];
    NormalizedBounds(b, bo, nb);
    VBound(a, o, nb);
    OnlySelf(a, o, nb);
    q := 1;
    var j := nb;
    while 0 < j
      invariant 0 <= j <= nb && taba[..] == a && V(a, o, nb) - V(b, bo, nb) == V(a, o, j) - V(b, bo, j)
    {
      j := j - 1;
      VNext(a, o, j);
      VNext(b, bo, j);
      assert a[o + j] == taba[o + j] && b[bo + j] == tabb[bo + j];
      if taba[o + j] != tabb[bo + j] {
        TopDecides(a, o, b, bo, j + 1);
        if taba[o + j] < tabb[bo + j] {
          q := 0;
        }
        j := j + 1;
        break;
      }
    }
    if j == 0 { Empty(a, o); Empty(b, bo); }
    assert q == 1 <==> V(b, bo, nb) <= V(a, o, nb);
    if q != 0 {
      var k := MpSub(taba, o, taba, o, tabb, bo, nb, 0);
      VBound(taba[..], o, nb);
    }
  }

  /** The schoolbook branch of mp_divnorm, for a divisor of two limbs or more. */
  method DivnormBase(tabq: array<limb>, qo: nat, taba: array<limb>, ao: nat, na: nat, tabb: array<limb>, bo: nat, nb: nat)
    requires 2 <= nb <= na && qo + na - nb + 1 <= tabq.Length && ao + na <= taba.Length
    requires Normalized(tabb[..], bo, nb) && tabq != taba && tabq != tabb && taba != tabb
    modifies tabq, taba
    ensures Only(old(tabq[..]), tabq[..], qo, na - nb + 1) && Only(old(taba[..]), taba[..], ao, na)
    ensures IsQuotient(V(old(taba[..]), ao, na), V(tabq[..], qo, na - nb + 1), V(tabb[..], bo, nb), V(taba[..], ao, nb))
  {
    hide V, BP, IsInverse, Normalized;
    DivisorTop(tabb[..], bo, nb);
    ghost var sa, b := taba[..], V(tabb[..], bo, nb);
    var b1 := tabb[bo + nb - 1];
    var n := na - nb;
    var b1Inv := 0;
    if UDIV1NORM_THRESHOLD <= n {
      b1Inv := Udiv1normInit(b1);
    }
    // the top limb of the quotient is a single bit
    var q := FirstDigit(taba, ao + n, tabb, bo, nb);
    ghost var sa1 := taba[..];
    tabq[qo + n] := q;
    LowerDigits(tabq, qo, taba, ao, n, tabb, bo, nb, b1Inv);
    VNext(tabq[..], qo, n);
    FirstAndRest(sa, sa1, ao, n, nb, q, b);
    Dist(V(tabq[..], qo, n), q * BP(n), b);
    Assoc(BP(n), q, b);
  }

  lemma FirstAndRest(a: seq<limb>, t: seq<limb>, ao: nat, n: nat, nb: nat, q: int, b: int)
    requires ao + n + nb <= |a| && Only(a, t, ao + n, nb) && V(a, ao + n, nb) == q * b + V(t, ao + n, nb)
    ensures V(a, ao, n + nb) == BP(n) * (q * b) + V(t, ao, n + nb)
  {
    hide V, BP;
    VSplit(a, ao, n, nb);
    VSplit(t, ao, n, nb);
    VOnly(a, t, ao, n, ao + n, nb);
    DistL(BP(n), q * b, V(t, ao + n, nb));
  }

  /** The digits of the quotient below digit `n`, when what stands from limb `n` on is below the divisor. */
  method LowerDigits(tabq: array<limb>, qo: nat, taba: array<limb>, ao: nat, n: nat, tabb: array<limb>, bo: nat, nb: nat, b1Inv: limb)
    requires 2 <= nb && qo + n <= tabq.Length && ao + n + nb <= taba.Length
    requires Normalized(tabb[..], bo, nb) && tabq != taba && tabq != tabb && taba != tabb
    requires b1Inv == 0 || IsInverse(tabb[bo + nb - 1], b1Inv)
    requires V(taba[..], ao + n, nb) < V(tabb[..], bo, nb)
    modifies tabq, taba
    ensures Only(old(tabq[..]), tabq[..], qo, n) && Only(old(taba[..]), taba[..], ao, n + nb)
    ensures IsQuotient(V(old(taba[..]), ao, n + nb), V(tabq[..], qo, n), V(tabb[..], bo, nb), V(taba[..], ao, nb))
  {
    hide V, BP, IsInverse, Only, Normalized, PartQuotient;
    DivisorTop(tabb[..], bo, nb);
    ghost var sa, sq, b := taba[..], tabq[..], V(tabb[..], bo, nb);
    Empty(sq, qo + n);
    PartStart(sa, ao, n + nb, n, 0, b, V(sa, ao + n, nb));
    OnlySelf(sa, ao + n, nb);
    OnlySelf(sq, qo + n, 0);
    for i := n downto 0
      invariant Only(sq, tabq[..], qo + i, n - i) && Only(sa, taba[..], ao + i, n + nb - i)
      invariant V(taba[..], ao + i, nb) < b
      invariant PartQuotient(sa, ao, n + nb, i, V(tabq[..], qo + i, n - i), b, V(taba[..], ao + i, nb))
    {
      ghost var sa1, sq1 := taba[..], tabq[..];
      DigitFits(sa1, ao + i, nb, b);
      var q := NextDigit(taba, ao + i, tabb, bo, nb, b1Inv);
      ghost var sa2 := taba[..];
      tabq[qo + i] := q;
      OnlyAt(sa, sa1, ao + i + 1, n + nb - i - 1, ao + i);
      Grow(sa, sa1, sa2, ao + i, n + nb - i, nb + 1);
      OnlyOne(sq1, tabq[..], qo + i);
      Grow(sq, sq1, tabq[..], qo + i, n - i, 1);
      VLow(sa1, ao + i, nb);
      VLow(tabq[..], qo + i, n - i - 1);
      VOnly(sq1, tabq[..], qo + i + 1, n - i - 1, qo + i, 1);
      PartStep(sa, ao, n + nb, i, V(sq1, qo + i + 1, n - i - 1), b, V(sa1, ao + i + 1, nb), q, V(sa2, ao + i, nb));
    }
    PartEnd(sa, ao, n + nb, V(tabq[..], qo, n), b, V(taba[..], ao, nb));
  }

  /** The dividend from limb `i` on has been divided. */
  ghost predicate PartQuotient(a: seq<limb>, ao: nat, na: nat, i: nat, q: int, b: int, r: int)
    requires i <= na && ao + na <= |a|
  {
    V(a, ao, na) == V(a, ao, i) + BP(i) * (q * b + r)
  }

  lemma PartStart(a: seq<limb>, ao: nat, na: nat, n: nat, q: int, b: int, r: int)
    requires n <= na && ao + na <= |a| && V(a, ao + n, na - n) == q * b + r
    ensures PartQuotient(a, ao, na, n, q, b, r)
  {
    hide V, BP;
    VSplit(a, ao, n, na - n);
  }

  lemma PartEnd(a: seq<limb>, ao: nat, na: nat, q: int, b: int, r: int)
    requires ao + na <= |a| && PartQuotient(a, ao, na, 0, q, b, r) && 0 <= r < b
    ensures IsQuotient(V(a, ao, na), q, b, r)
  {
    Empty(a, ao);
  }

  lemma PartStep(a: seq<limb>, ao: nat, na: nat, i: nat, q: int, b: int, r: int, digit: int, r': int)
    requires i + 1 <= na && ao + na <= |a| && PartQuotient(a, ao, na, i + 1, q, b, r)
    requires a[ao + i] + B * r == digit * b + r'
    ensures PartQuotient(a, ao, na, i, digit + B * q, b, r')
  {
    hide V, BP;
    VNext(a, ao, i);
    QuotientStep(V(a, ao, na), V(a, ao, i), a[ao + i], BP(i), q, r, b, digit, r');
  }

  lemma DivisorTop(b: seq<limb>, bo: nat, nb: nat)
    requires Normalized(b, bo, nb)
    ensures bo + nb <= |b| && HALF <= b[bo + nb - 1]
  {
  }

  /** A write to the low end of what was written before. */
  lemma Grow(s: seq<limb>, t: seq<limb>, u: seq<limb>, lo: nat, n: nat, m: nat)
    requires 1 <= m <= n && Only(s, t, lo + 1, n - 1) && Only(t, u, lo, m)
    ensures Only(s, u, lo, n)
  {
  }

  /** The remainder so far, with the next limb of the dividend, has a quotient of one digit. */
  lemma DigitFits(a: seq<limb>, o: nat, nb: nat, b: int)
    requires o + nb + 1 <= |a| && V(a, o + 1, nb) < b
    ensures V(a, o, nb + 1) < B * b
  {
    VLow(a, o, nb);
  }

  lemma QuotientStep(a: int, low: int, d: int, p: int, q: int, r: int, b: int, digit: int, r': int)
    requires a == low + d * p + B * p * (q * b + r) && d + B * r == digit * b + r'
    ensures a == low + p * ((digit + B * q) * b + r')
  {
    Dist(digit, B * q, b);
    Assoc(B, q, b);
    DistL(p, B * (q * b) + B * r, d);
    DistL(B, q * b, r);
    Assoc(p, B, q * b + r);
  }

  /**
   mp_divnorm: divides taba[0..na-1] by the normalized tabb[0..nb-1].  The remainder is left in the
   low nb limbs of taba and the quotient in tabq[0..na-nb], with a top limb of at most 1.
   */
  method MpDivnorm(tabq: array<limb>, qo: nat, taba: array<limb>, ao: nat, na: nat, tabb: array<limb>, bo: nat, nb: nat)
    requires 1 <= nb <= na && qo + na - nb + 1 <= tabq.Length && ao + na <= taba.Length
    requires Normalized(tabb[..], bo, nb) && tabq != taba && tabq != tabb && taba != tabb
    modifies tabq, taba
    ensures Only(old(tabq[..]), tabq[..], qo, na - nb + 1) && Only(old(taba[..]), taba[..], ao, na)
    ensures IsQuotient(V(old(taba[..]), ao, na), V(tabq[..], qo, na - nb + 1), V(tabb[..], bo, nb), V(taba[..], ao, nb))
    ensures tabq[qo + na - nb] <= 1
    decreases if nb != 1 && DIVNORM_LARGE_THRESHOLD <= Min(na - nb, nb) then na - nb + 4 else 0
  {
    hide V, BP;
    ghost var sa := taba[..];
    var b1 := tabb[bo + nb - 1];
    if nb == 1 {
      var r := MpDiv1norm(tabq, qo, taba, ao, na, b1, 0);
      taba[ao] := r;
      VOne(taba[..], ao);
      VOne(tabb[..], bo);
    } else if DIVNORM_LARGE_THRESHOLD <= Min(na - nb, nb) {
      MpDivnormLarge(tabq, qo, taba, ao, na, tabb, bo, nb);
    } else {
      DivnormBase(tabq, qo, taba, ao, na, tabb, bo, nb);
    }
    QuotientTop(sa, ao, na, tabq[..], qo, tabb[..], bo, nb, V(taba[..], ao, nb));
  }

  /** The top limb of a quotient by a normalized divisor. */
  lemma QuotientTop(a: seq<limb>, ao: nat, na: nat, q: seq<limb>, qo: nat, b: seq<limb>, bo: nat, nb: nat, r: int)
    requires 1 <= nb <= na && ao + na <= |a| && qo + na - nb + 1 <= |q| && Normalized(b, bo, nb)
    requires IsQuotient(V(a, ao, na), V(q, qo, na - nb + 1), V(b, bo, nb), r)
    ensures q[qo + na - nb] <= 1
  {
    hide V, BP;
    var n := na - nb;
    NormalizedBounds(b, bo, nb);
    VBound(a, ao, na);
    BPAdd(n, nb);
    VNext(q, qo, n);
    var x, y := V(q, qo, n + 1), V(b, bo, nb);
    MulLe(BP(nb), 2 * y, BP(n));
    Assoc(2, BP(n), y);
    LtMul(x, 2 * BP(n), y);
    if 2 <= q[qo + n] { MulLe(2, q[qo + n], BP(n)); }
  }

  method CopyLimbs(dst: array<limb>, d: nat, src: array<limb>, s: nat, n: nat)
    requires d + n <= dst.Length && s + n <= src.Length && dst != src
    modifies dst
    ensures Only(old(dst[..]), dst[..], d, n) && V(dst[..], d, n) == V(src[..], s, n)
    ensures dst[..][d..d + n] == src[..][s..s + n]
  {
    ghost var before := dst[..];
    for i := 0 to n
      invariant Only(before, dst[..], d, i) && dst[d..d + i] == src[s..s + i]
    {
      dst[d + i] := src[s + i];
      assert dst[d..d + i + 1] == dst[d..d + i] + [dst[d + i]];
    }
    assert dst[..][d..d + n] == dst[d..d + n] && src[..][s..s + n] == src[s..s + n];
    VSame(dst[..], d, src[..], s, n);
  }

  method ZeroLimbs(dst: array<limb>, d: nat, n: nat)
    requires d + n <= dst.Length
    modifies dst
    ensures Only(old(dst[..]), dst[..], d, n) && V(dst[..], d, n) == 0
  {
    ghost var before := dst[..];
    for i := 0 to n
      invariant Only(before, dst[..], d, i) && forall k :: d <= k < d + i ==> dst[k] == 0
    {
      dst[d + i] := 0;
    }
    VZero(dst[..], d, n);
  }

  /**
   mp_recip: the reciprocal B^(2n) / a of a normalized number, with a * r < B^(2n) < a * (r + 2) and
   top limb 1.
   */
  method MpRecip(tabr: array<limb>, ro: nat, taba: array<limb>, ao: nat, n: nat)
    requires 1 <= n && ro + n + 1 <= tabr.Length && Normalized(taba[..], ao, n) && tabr != taba
    modifies tabr
    ensures Only(old(tabr[..]), tabr[..], ro, n + 1)
    ensures IsRecip(V(taba[..], ao, n), V(tabr[..], ro, n + 1), n) && tabr[ro + n] == 1
    decreases n
  {
    if n <= 2 {
      RecipBase(tabr, ro, taba, ao, n);
      return;
    }
    hide V, BP, IsRecip, Only, Normalized;
    DivisorTop(taba[..], ao, n);
    ghost var sr, a := tabr[..], V(taba[..], ao, n);
    var l := (n - 1) / 2;
    var h := n - l;
    var tabt := new limb[n + h + 1];
    TopHalf(taba[..], ao, l, h);
    NormalizedBounds(taba[..], ao, n);
    MpRecip(tabr, ro + l, taba, ao + l, h);
    MpMulBasecase(tabt, 0, taba, ao, n, tabr, ro + l, h + 1);
    ghost var sx := tabr[..];
    Correct(tabr, ro + l, tabt, taba, ao, l, h);
    OnlyThen(sr, sx, tabr[..], ro + l, h + 1);
    ghost var sy := tabr[..];
    NewtonRound(tabr, ro, tabt, a, l, h);
    OnlyWiden(sr, sy, ro + l, h + 1, ro, n + 1);
    OnlyThen(sr, sy, tabr[..], ro, n + 1);
  }

  /** From tabt == a * xh, the step that doubles the precision. */
  method NewtonRound(tabr: array<limb>, ro: nat, tabt: array<limb>, ghost a: int, l: nat, h: nat)
    requires 1 <= l < h && ro + l + h + 1 <= tabr.Length && tabr[ro + l + h] == 1 && tabr != tabt
    requires tabt.Length == l + h + h + 1 && BP(l + h) <= 2 * a < 2 * BP(l + h)
    requires V(tabt[..], 0, l + h + h + 1) == a * V(tabr[..], ro + l, h + 1) < BP(l + h + h)
    requires BP(l + h + h) < a * (V(tabr[..], ro + l, h + 1) + 2)
    modifies tabr, tabt
    ensures Only(old(tabr[..]), tabr[..], ro, l + h + 1)
    ensures IsRecip(a, V(tabr[..], ro, l + h + 1), l + h) && tabr[ro + l + h] == 1
  {
    hide V, BP, IsRecip, Only;
    var n := l + h;
    var tabu := new limb[n + 2 * h - l + 2];
    ghost var x := V(tabr[..], ro + l, h + 1);
    ProductPositive(tabr[..], ro + l, h, a);
    RemainderSmall(a, x, V(tabt[..], 0, n + h + 1), BP(n + h));
    // what is missing to B^(n+h)
    Complement(tabt, n + h);
    MpMulBasecase(tabu, 0, tabt, l, n + h + 1 - l, tabr, ro + l, h + 1);
    Refine(tabr, ro, tabt, tabu, a, l, h);
  }

  lemma RemainderSmall(a: int, x: int, t: int, p: int)
    requires t == a * x < p < a * (x + 2)
    ensures 0 < p - t < 2 * a
  {
    DistL(a, x, 2);
  }

  lemma ProductPositive(t: seq<limb>, o: nat, h: nat, a: int)
    requires o + h < |t| && t[o + h] == 1 && 0 < a
    ensures 0 < a * V(t, o, h + 1)
  {
    OneOnTop(t, o, h);
    MulLe(1, V(t, o, h + 1), a);
  }

  lemma MulCommutes(a: int, b: int)
    ensures a * b == b * a
  {
  }

  /** The division that starts the recursion of mp_recip. */
  method RecipBase(tabr: array<limb>, ro: nat, taba: array<limb>, ao: nat, n: nat)
    requires 1 <= n <= 2 && ro + n + 1 <= tabr.Length && Normalized(taba[..], ao, n) && tabr != taba
    modifies tabr
    ensures Only(old(tabr[..]), tabr[..], ro, n + 1)
    ensures IsRecip(V(taba[..], ao, n), V(tabr[..], ro, n + 1), n) && tabr[ro + n] == 1
    decreases n, 0
  {
    hide V, BP, IsRecip;
    ghost var a := V(taba[..], ao, n);
    // below the size for a Newton step: a schoolbook division
    var tabu := new limb[2 * n + 1];
    var tabt := new limb[n + 2];
    ZeroLimbs(tabu, 0, 2 * n);
    ghost var z := tabu[..];
    tabu[2 * n] := 1;
    VOnly(z, tabu[..], 0, 2 * n, 2 * n, 1);
    PowerIs(tabu[..], 2 * n);
    MpDivnorm(tabt, 0, tabu, 0, 2 * n + 1, taba, ao, n);
    ghost var q, rem := V(tabt[..], 0, n + 2), V(tabu[..], 0, n);
    NormalizedBounds(taba[..], ao, n);
    BaseRecip(a, n, q, rem, if rem == 0 then q - 1 else q);
    TopIsZero(tabt[..], n + 1, q);
    CopyLimbs(tabr, ro, tabt, 0, n + 1);
    var nz := MpScanNz(tabu, 0, n);
    if !nz {
      var k := MpSubUi(tabr, ro, 1, n + 1);
      VBound(tabr[..], ro, n + 1);
      NoBorrow(V(tabr[..], ro, n + 1), q - 1, BP(n + 1), k);
    }
    TopIsOne(tabr[..], ro, n);
  }

  lemma PowerIs(s: seq<limb>, m: nat)
    requires m < |s| && V(s, 0, m) == 0 && s[m] == 1
    ensures V(s, 0, m + 1) == BP(m)
  {
  }

  lemma TopIsZero(t: seq<limb>, m: nat, q: int)
    requires m < |t| && V(t, 0, m + 1) == q && 1 <= m && q <= 2 * BP(m - 1)
    ensures t[m] == 0 && V(t, 0, m) == q
  {
    VNext(t, 0, m);
    if t[m] != 0 { MulLe(1, t[m], BP(m)); }
  }

  lemma TopIsOne(t: seq<limb>, o: nat, n: nat)
    requires o + n < |t| && BP(n) <= V(t, o, n + 1) < 2 * BP(n)
    ensures t[o + n] == 1
  {
    VTop(t, o, n + 1);
    if t[o + n] == 0 {
    } else if 2 <= t[o + n] { MulLe(2, t[o + n], BP(n)); }
  }

  lemma NoBorrow(v: int, w: int, p: int, k: limb)
    requires 0 <= v && v - k * p == w && w < p && k <= 1 && 0 <= w
    ensures v == w || k == 1
  {
  }

  /** The top limbs of a normalized number. */
  lemma TopHalf(a: seq<limb>, ao: nat, l: nat, h: nat)
    requires 1 <= h && Normalized(a, ao, l + h)
    ensures Normalized(a, ao + l, h)
    ensures V(a, ao, l + h) == V(a, ao, l) + BP(l) * V(a, ao + l, h) && V(a, ao, l) < BP(l)
  {
    VSplit(a, ao, l, h);
    VBound(a, ao, l);
  }

  /** T = B^m - T */
  method Complement(tabt: array<limb>, m: nat)
    requires m + 1 <= tabt.Length && 0 < V(tabt[..], 0, m + 1) < BP(m)
    modifies tabt
    ensures V(tabt[..], 0, m + 1) == BP(m) - V(old(tabt[..]), 0, m + 1)
  {
    hide V, BP;
    ghost var t := V(tabt[..], 0, m + 1);
    var k := MpNeg(tabt, 0, tabt, 0, m + 1, 0);
    ghost var s := tabt[..];
    VNext(s, 0, m);
    VBound(s, 0, m);
    NegatedTop(s, m, t, k);
    tabt[m] := Wrap(tabt[m] as int + 1);
    VNext(tabt[..], 0, m);
    VOnly(s, tabt[..], 0, m, m, 1);
  }

  lemma NegatedTop(s: seq<limb>, m: nat, t: int, k: limb)
    requires m < |s| && 0 < t < BP(m) && k <= 1 && V(s, 0, m + 1) + t == k * BP(m + 1)
    ensures s[m] == B - 1 && V(s, 0, m) == BP(m) - t
  {
    VTop(s, 0, m + 1);
    VBound(s, 0, m + 1);
    var p := BP(m);
    assert k == 1;
    assert V(s, 0, m) + s[m] * p == B * p - t;
    Dist(B, s[m], p);
    if s[m] < B - 1 { MulLe(2, B - s[m], p); }
  }

  /** The loop of mp_recip that makes a * xh smaller than B^(n+h). */
  method Correct(tabr: array<limb>, xo: nat, tabt: array<limb>, taba: array<limb>, ao: nat, l: nat, h: nat)
    requires 1 <= h && xo + h + 1 <= tabr.Length && tabt.Length == l + h + h + 1 && Normalized(taba[..], ao, l + h)
    requires tabr != tabt && tabr != taba && tabt != taba && tabr[xo + h] == 1
    requires V(tabt[..], 0, l + h + h + 1) == V(taba[..], ao, l + h) * V(tabr[..], xo, h + 1)
    requires ao + l + h <= taba.Length && IsRecip(V(taba[..], ao + l, h), V(tabr[..], xo, h + 1), h)
    modifies tabr, tabt
    ensures Only(old(tabr[..]), tabr[..], xo, h + 1) && tabr[xo + h] == 1
    ensures V(tabt[..], 0, l + h + h + 1) == V(taba[..], ao, l + h) * V(tabr[..], xo, h + 1) < BP(l + h + h)
    ensures BP(l + h + h) < V(taba[..], ao, l + h) * (V(tabr[..], xo, h + 1) + 2)
  {
    hide V, BP, IsRecip, Only, Normalized, Close;
    var n := l + h;
    ghost var sr, a := tabr[..], V(taba[..], ao, n);
    CloseEnough(taba[..], ao, l, h, V(tabr[..], xo, h + 1));
    NormalizedBounds(taba[..], ao, n);
    OneOnTop(tabr[..], xo, h);
    OnlySelf(sr, xo, h + 1);
    IsClose(a, V(tabr[..], xo, h + 1), V(tabt[..], 0, n + h + 1), n, h);
    while tabt[n + h] != 0
      invariant Only(sr, tabr[..], xo, h + 1)
      invariant Close(a, V(tabr[..], xo, h + 1), V(tabt[..], 0, n + h + 1), n, h)
      decreases V(tabr[..], xo, h + 1)
    {
      ghost var s, x := tabr[..], V(tabr[..], xo, h + 1);
      HasTop(tabt[..], n + h);
      StaysClose(a, x, V(tabt[..], 0, n + h + 1), n, h);
      DecreaseBoth(tabr, xo, tabt, taba, ao, n, h);
      OnlyThen(sr, s, tabr[..], xo, h + 1);
    }
    NoTop(tabt[..], n + h);
    CloseMeans(a, V(tabr[..], xo, h + 1), V(tabt[..], 0, n + h + 1), n, h);
    TopIsOne(tabr[..], xo, h);
  }

  /** The invariant of that loop, for t == a * x. */
  ghost predicate Close(a: int, x: int, t: int, n: nat, h: nat) {
    t == a * x && BP(h) <= x < 2 * BP(h) && BP(n + h) < a * (x + 2)
  }

  lemma IsClose(a: int, x: int, t: int, n: nat, h: nat)
    requires t == a * x && BP(h) <= x < 2 * BP(h) && BP(n + h) < a * (x + 2)
    ensures Close(a, x, t, n, h)
  {
  }

  lemma CloseMeans(a: int, x: int, t: int, n: nat, h: nat)
    requires Close(a, x, t, n, h)
    ensures t == a * x && BP(h) <= x < 2 * BP(h) && BP(n + h) < a * (x + 2)
  {
  }

  lemma StaysClose(a: int, x: int, t: int, n: nat, h: nat)
    requires Close(a, x, t, n, h) && BP(n + h) <= t && 0 < a < BP(n)
    ensures 0 < x && a <= t && Close(a, x - 1, t - a, n, h)
  {
    hide BP;
    CanDecrease(a, x, n, h);
    DistL(a, x, 1);
    DistL(a, x - 1, 2);
    MulLe(1, x, a);
  }

  /** One round of that loop. */
  method DecreaseBoth(tabr: array<limb>, xo: nat, tabt: array<limb>, taba: array<limb>, ao: nat, n: nat, h: nat)
    requires xo + h + 1 <= tabr.Length && tabt.Length == n + h + 1 && ao + n <= taba.Length
    requires tabr != tabt && tabr != taba && tabt != taba
    requires 0 < V(tabr[..], xo, h + 1) && V(taba[..], ao, n) <= V(tabt[..], 0, n + h + 1)
    modifies tabr, tabt
    ensures Only(old(tabr[..]), tabr[..], xo, h + 1)
    ensures V(tabr[..], xo, h + 1) == V(old(tabr[..]), xo, h + 1) - 1
    ensures V(tabt[..], 0, n + h + 1) == V(old(tabt[..]), 0, n + h + 1) - V(taba[..], ao, n)
  {
    hide V, BP;
    ghost var x, t := V(tabr[..], xo, h + 1), tabt[..];
    VBound(tabr[..], xo, h + 1);
    var c := MpSubUi(tabr, xo, 1, h + 1);
    VBound(tabr[..], xo, h + 1);
    Decreased(V(tabr[..], xo, h + 1), x, BP(h + 1), c);
    c := MpSub(tabt, 0, tabt, 0, taba, ao, n, 0);
    ghost var m, c1 := tabt[..], c;
    c := MpSubUi(tabt, n, c, h + 1);
    SubTwoParts(t, m, tabt[..], n, h + 1, V(taba[..], ao, n), c1, c);
  }

  lemma OneOnTop(t: seq<limb>, o: nat, n: nat)
    requires o + n < |t| && t[o + n] == 1
    ensures V(t, o, n + 1) == BP(n) + V(t, o, n) && BP(n) <= V(t, o, n + 1) < 2 * BP(n)
  {
    VTop(t, o, n + 1);
  }

  lemma HasTop(t: seq<limb>, m: nat)
    requires m < |t| && t[m] != 0
    ensures BP(m) <= V(t, 0, m + 1)
  {
    VTop(t, 0, m + 1);
    MulLe(1, t[m], BP(m));
  }

  lemma NoTop(t: seq<limb>, m: nat)
    requires m < |t| && t[m] == 0
    ensures V(t, 0, m + 1) < BP(m)
  {
    VTop(t, 0, m + 1);
  }

  /** B^(n+h) < a * (xh + 2) for a reciprocal xh of the top half. */
  lemma CloseEnough(a: seq<limb>, ao: nat, l: nat, h: nat, xh: int)
    requires 1 <= h && Normalized(a, ao, l + h) && 0 <= xh && IsRecip(V(a, ao + l, h), xh, h)
    ensures BP(l + h + h) < V(a, ao, l + h) * (xh + 2)
  {
    hide V, BP;
    TopHalf(a, ao, l, h);
    var ah, x := V(a, ao + l, h), xh + 2;
    BPAdd(l, 2 * h);
    assert l + h + h == l + 2 * h;
    MulLt(BP(2 * h), ah * x, BP(l));
    MulLe(BP(l) * ah, V(a, ao, l + h), x);
    Assoc(BP(l), ah, x);
  }

  lemma CanDecrease(a: int, x: int, n: nat, h: nat)
    requires a < BP(n) && BP(n + h) <= a * x && 0 < a
    ensures BP(h) < x
  {
    hide BP;
    BPAdd(n, h);
    MulLt(a, BP(n), BP(h));
    LtMul(BP(h), x, a);
  }

  lemma Decreased(v: int, x: int, p: int, c: limb)
    requires v - c * p == x - 1 && 0 < x && 0 <= v < p && c <= 1 && x < p
    ensures v == x - 1
  {
  }

  /** A subtraction that is done in two parts, with the borrow of the first going into the second. */
  lemma SubTwoParts(s: seq<limb>, m: seq<limb>, t: seq<limb>, n: nat, k: nat, a: int, c: limb, d: limb)
    requires n + k <= |s| && Only(s, m, 0, n) && Only(m, t, n, k) && 0 <= a <= V(s, 0, n + k) && d <= 1
    requires V(m, 0, n) - c * BP(n) == V(s, 0, n) - a && V(t, n, k) - d * BP(k) == V(m, n, k) - c
    ensures V(t, 0, n + k) == V(s, 0, n + k) - a
  {
    hide V, BP;
    VSplit(s, 0, n, k);
    VSplit(t, 0, n, k);
    VOnly(s, m, n, k, 0, n);
    VOnly(m, t, 0, n, n, k);
    VBound(t, 0, n + k);
    BPAdd(n, k);
    var p := BP(n);
    DistL(p, V(s, n, k) - c, d * BP(k));
    DistL(p, V(s, n, k), c);
    Assoc(d, p, BP(k));
    assert V(t, 0, n + k) == V(s, 0, n + k) - a + d * BP(n + k);
    VBound(s, 0, n + k);
  }

  /** The end of mp_recip: the high limbs of U are added to xh * B^l. */
  method Refine(tabr: array<limb>, ro: nat, tabt: array<limb>, tabu: array<limb>, ghost a: int, l: nat, h: nat)
    requires 1 <= l < h && ro + l + h + 1 <= tabr.Length && tabr[ro + l + h] == 1 && tabr != tabu
    requires tabt.Length == l + h + h + 1 && tabu.Length == 3 * h + 2
    requires BP(l + h) <= 2 * a < 2 * BP(l + h)
    requires V(tabt[..], 0, l + h + h + 1) == BP(l + h + h) - a * V(tabr[..], ro + l, h + 1)
    requires 0 < V(tabt[..], 0, l + h + h + 1) < 2 * a
    requires V(tabu[..], 0, 3 * h + 2) == V(tabt[..], l, h + h + 1) * V(tabr[..], ro + l, h + 1)
    modifies tabr
    ensures Only(old(tabr[..]), tabr[..], ro, l + h + 1)
    ensures IsRecip(a, V(tabr[..], ro, l + h + 1), l + h) && tabr[ro + l + h] == 1
  {
    hide V, BP, IsRecip;
    var n := l + h;
    ghost var xh, tm, tl := V(tabr[..], ro + l, h + 1), V(tabt[..], l, h + h + 1), V(tabt[..], 0, l);
    VSplit(tabt[..], 0, l, h + h + 1);
    VBound(tabt[..], 0, l);
    OneOnTop(tabr[..], ro + l, h);
    MulCommutes(BP(l), tm);
    ProductFits(tm, xh, a, l, h);
    var k := 2 * h - l;
    ghost var f, u := V(tabu[..], k, n), V(tabu[..], 0, k);
    MiddleLimbs(tabu[..], k, n);
    NewtonStep(a, n, l, h, xh, tm, tl, f, u);
    RecipRange(a, xh * BP(l) + f, n) by { RecipMeans(a, xh * BP(l) + f, n); }
    ghost var sr := tabr[..];
    CopyLimbs(tabr, ro, tabu, k, l);
    ghost var m := tabr[..];
    var c := MpAdd(tabr, ro + l, tabr, ro + l, tabu, 2 * h, h, 0);
    Assemble(sr, m, tabr[..], ro, l, h, tabu[..], k, c);
  }

  lemma RecipMeans(a: int, r: int, n: nat)
    requires IsRecip(a, r, n)
    ensures a * r < BP(2 * n)
  {
  }

  /** tm * xh < B^(3h) */
  lemma ProductFits(tm: int, xh: int, a: int, l: nat, h: nat)
    requires 1 <= l < h && tm * BP(l) < 2 * a < 2 * BP(l + h) && 0 <= xh < 2 * BP(h) && 0 <= tm
    ensures tm * xh < BP(3 * h)
  {
    hide BP;
    BPAdd(l, h);
    BPAdd(h, h);
    BPAdd(2 * h, h);
    var g := BP(h);
    Assoc(2, g, BP(l));
    LtMul(tm, 2 * g, BP(l));
    MulLe(xh, 2 * g, tm);
    MulLe(tm, 2 * g, 2 * g);
    assert 2 * g * (2 * g) == 4 * (g * g);
    PowBig(h);
    MulLe(B, g, g * g);
  }

  /** The middle limbs of a number whose high limbs are zero. */
  lemma MiddleLimbs(u: seq<limb>, k: nat, n: nat)
    requires |u| == k + n + 2 && V(u, 0, k + n + 2) < BP(k + n)
    ensures V(u, 0, k + n + 2) == V(u, k, n) * BP(k) + V(u, 0, k) && V(u, 0, k) < BP(k)
  {
    hide V, BP;
    VSplit(u, 0, k + n, 2);
    VSplit(u, 0, k, n);
    VBound(u, 0, k);
    if V(u, k + n, 2) != 0 { MulLe(1, V(u, k + n, 2), BP(k + n)); }
  }

  /** The copied and the added limbs make up xh * B^l + f: the last carry is never lost. */
  lemma Assemble(s: seq<limb>, m: seq<limb>, t: seq<limb>, ro: nat, l: nat, h: nat, u: seq<limb>, k: nat, c: limb)
    requires k + l == 2 * h && l <= h && |u| == 3 * h + 2 && ro + l + h < |s| && s[ro + l + h] == 1
    requires Only(s, m, ro, l) && Only(m, t, ro + l, h) && V(m, ro, l) == V(u, k, l) && c <= 1
    requires V(t, ro + l, h) + c * BP(h) == V(m, ro + l, h) + V(u, 2 * h, h)
    requires V(s, ro + l, h + 1) * BP(l) + V(u, k, l + h) < 2 * BP(l + h)
    ensures Only(s, t, ro, l + h + 1) && t[ro + l + h] == 1
    ensures V(t, ro, l + h + 1) == V(s, ro + l, h + 1) * BP(l) + V(u, k, l + h)
  {
    hide V, BP, Only;
    var p, x, f := BP(l), V(s, ro + l, h), V(u, 2 * h, h);
    OnlyWiden(s, m, ro, l, ro, l + h + 1);
    OnlyWiden(m, t, ro + l, h, ro, l + h + 1);
    OnlyThen(s, m, t, ro, l + h + 1);
    OnlyAt(s, m, ro, l, ro + l + h);
    OnlyAt(m, t, ro + l, h, ro + l + h);
    OneOnTop(s, ro + l, h);
    VSplit(u, k, l, h);
    VOnly(s, m, ro + l, h, ro, l);
    VOnly(m, t, ro, l, ro + l, h);
    VSplit(t, ro, l, h + 1);
    OneOnTop(t, ro + l, h);
    BPAdd(l, h);
    VBound(u, k, l);
    Sum(BP(h), x, f, p, V(u, k, l), c, V(t, ro + l, h));
  }

  lemma Sum(g: int, x: int, f: int, p: int, low: int, c: limb, y: int)
    requires 0 < p && 0 < g && 0 <= low && (g + x) * p + (low + p * f) < 2 * (p * g) && y + c * g == x + f && c <= 1 && 0 <= y
    ensures low + p * (g + y) == (g + x) * p + (low + p * f)
  {
    Dist(g + x, f, p);
    LtMul(g + x + f, 2 * g, p);
  }

  // ---------------------------------------------------------------- division by a reciprocal

  lemma {:induction false} BPMono(m: nat, n: nat)
    requires m <= n
    ensures BP(m) <= BP(n)
  {
    BPAdd(m, n - m);
    MulLe(1, BP(n - m), BP(m));
  }

  lemma StillNormalized(t: seq<limb>, n: nat)
    requires 1 <= n <= |t| && HALF * BP(n - 1) <= V(t, 0, n)
    ensures Normalized(t, 0, n)
  {
    VTop(t, 0, n);
    var p := BP(n - 1);
    Dist(t[n - 1], 1, p);
    if t[n - 1] < HALF { MulLe(t[n - 1] as int + 1, HALF, p); }
  }

  /** The inverse that mp_divnorm_large multiplies with: it is not larger than the exact one. */
  method ApproxInverse(tabbInv: array<limb>, tabb: array<limb>, bo: nat, nb: nat, n: nat)
    requires 1 <= n && tabbInv.Length == n + 1 && Normalized(tabb[..], bo, nb) && tabbInv != tabb
    modifies tabbInv
    ensures var b, r := V(tabb[..], bo, nb), V(tabbInv[..], 0, n + 1); b * r <= BP(n + nb) <= b * (r + 7)
    decreases n + 1
  {
    hide V, BP, IsRecip, Only, Normalized;
    DivisorTop(tabb[..], bo, nb);
    ghost var b := V(tabb[..], bo, nb);
    var tabt := new limb[2 * (n + 1)];
    if nb <= n {
      ZeroLimbs(tabt, 0, n - nb);
      ghost var z := tabt[..];
      CopyLimbs(tabt, n - nb, tabb, bo, nb);
      Extended(z, tabt[..], n, tabb[..], bo, nb);
      MpRecip(tabbInv, 0, tabt, 0, n);
      ExtendedRecip(b, nb, n, V(tabbInv[..], 0, n + 1));
    } else {
      // the top limbs of the divisor, rounded up: the inverse must not be too large
      CopyLimbs(tabt, 0, tabb, bo + nb - n, n);
      ghost var top := V(tabt[..], 0, n);
      CutDivisor(tabb[..], bo, nb, n, top);
      var c := MpAddUi(tabt, 0, 1, n);
      VBound(tabt[..], 0, n);
      MulCommutes(BP(n), c);
      if c != 0 {
        ZeroLimbs(tabbInv, 0, n);
        ghost var z := tabbInv[..];
        tabbInv[n] := 1;
        VOnly(z, tabbInv[..], 0, n, n, 1) by { OnlyOne(z, tabbInv[..], n); }
        PowerIs(tabbInv[..], n);
      } else {
        StillNormalized(tabt[..], n);
        MpRecip(tabbInv, 0, tabt, 0, n);
      }
      CutInverse(b, nb, n, top + 1, V(tabbInv[..], 0, n + 1), V(tabt[..], 0, n), c);
    }
  }

  /** The divisor extended with zero limbs. */
  lemma Extended(z: seq<limb>, t: seq<limb>, n: nat, b: seq<limb>, bo: nat, nb: nat)
    requires nb <= n <= |z| && Normalized(b, bo, nb) && Only(z, t, n - nb, nb) && V(z, 0, n - nb) == 0
    requires V(t, n - nb, nb) == V(b, bo, nb) && t[n - nb..n] == b[bo..bo + nb]
    ensures Normalized(t, 0, n) && V(t, 0, n) == V(b, bo, nb) * BP(n - nb)
  {
    hide V, BP;
    VOnly(z, t, 0, n - nb, n - nb, nb);
    VSplit(t, 0, n - nb, nb);
    MulCommutes(V(b, bo, nb), BP(n - nb));
    assert t[n - nb..n][nb - 1] == b[bo..bo + nb][nb - 1];
  }

  /** The divisor between two multiples of the power that was cut off. */
  lemma CutDivisor(b: seq<limb>, bo: nat, nb: nat, n: nat, top: int)
    requires 1 <= n < nb && Normalized(b, bo, nb) && top == V(b, bo + nb - n, n)
    ensures V(b, bo, nb) < (top + 1) * BP(nb - n) && top * BP(nb - n) <= V(b, bo, nb)
    ensures HALF * BP(n - 1) <= top < BP(n) && BP(n) == B * BP(n - 1)
  {
    hide V, BP;
    VSplit(b, bo, nb - n, n);
    VBound(b, bo, nb - n);
    MulCommutes(top, BP(nb - n));
    Dist(top, 1, BP(nb - n));
    NormalizedBounds(b, bo + nb - n, n);
  }

  lemma CutInverse(b: int, nb: nat, n: nat, bt: int, r: int, t: int, c: limb)
    requires 1 <= n < nb && 0 <= t < BP(n) && t + c * BP(n) == bt <= BP(n) && BP(n) <= 2 * bt && c <= 1
    requires b < bt * BP(nb - n) && (bt - 1) * BP(nb - n) <= b
    requires if c != 0 then r == BP(n) else IsRecip(t, r, n)
    requires 0 <= r
    ensures b * r <= BP(n + nb) <= b * (r + 7)
  {
    hide BP;
    PowBig(n);
    BPAdd(n, n);
    if c != 0 {
      assert bt == BP(n);
      DistL(bt, r, 2);
    } else {
      RecipRange(t, r, n);
    }
    CutRecip(b, nb, n, bt, r);
  }

  /** mp_divnorm_large */
  method MpDivnormLarge(tabq: array<limb>, qo: nat, taba: array<limb>, ao: nat, na: nat, tabb: array<limb>, bo: nat, nb: nat)
    requires 2 <= nb < na && qo + na - nb + 1 <= tabq.Length && ao + na <= taba.Length
    requires Normalized(tabb[..], bo, nb) && tabq != taba && tabq != tabb && taba != tabb
    modifies tabq, taba
    ensures Only(old(tabq[..]), tabq[..], qo, na - nb + 1) && Only(old(taba[..]), taba[..], ao, na)
    ensures IsQuotient(V(old(taba[..]), ao, na), V(tabq[..], qo, na - nb + 1), V(tabb[..], bo, nb), V(taba[..], ao, nb))
    decreases na - nb + 3
  {
    hide V, BP, Normalized, Only;
    DivisorTop(tabb[..], bo, nb);
    NormalizedBounds(tabb[..], bo, nb);
    VBound(taba[..], ao, na);
    ghost var sq := tabq[..];
    ghost var sa, b := taba[..], V(tabb[..], bo, nb);
    var nq := na - nb;
    var n := nq;
    if nq < nb {
      n := n + 1;
    }
    var tabbInv := new limb[n + 1];
    ApproxInverse(tabbInv, tabb, bo, nb, n);
    // an approximate quotient from the top limbs
    var tabt := new limb[2 * (n + 1)];
    MpMulBasecase(tabt, 0, tabbInv, 0, n + 1, taba, ao + na - (n + 1), n + 1);
    CopyLimbs(tabq, qo, tabt, 2 * (n + 1) - (nq + 1), nq + 1);
    QuotientIsClose(sa, ao, na, tabb[..], bo, nb, V(tabbInv[..], 0, n + 1), n, tabt[..]);
    // its remainder
    tabt := new limb[na + 1];
    MpMulBasecase(tabt, 0, tabq, qo, nq + 1, tabb, bo, nb);
    var k := MpSub(taba, ao, taba, ao, tabt, 0, nb + 1, 0);
    LowDifference(sa, taba[..], ao, na, tabt[..], nb, k, b, V(tabq[..], qo, nq + 1));
    ghost var q0, a0 := tabq[..], taba[..];
    Increment(tabq, qo, nq, taba, ao, tabb, bo, nb, V(sa, ao, na));
    OnlyThen(sq, q0, tabq[..], qo, nq + 1);
    OnlyThen(sa, a0, taba[..], ao, nb + 1);
    OnlyWiden(sa, taba[..], ao, nb + 1, ao, na);
  }

  /** The quotient by the reciprocal is not larger than the true one and only a few units smaller. */
  lemma QuotientIsClose(a: seq<limb>, ao: nat, na: nat, b: seq<limb>, bo: nat, nb: nat, r: int, n: nat, t: seq<limb>)
    requires 2 <= nb < na && ao + na <= |a| && Normalized(b, bo, nb)
    requires n == if na - nb < nb then na - nb + 1 else na - nb
    requires V(b, bo, nb) * r <= BP(n + nb) <= V(b, bo, nb) * (r + 7)
    requires |t| == 2 * (n + 1) && V(t, 0, 2 * (n + 1)) == r * V(a, ao + na - (n + 1), n + 1)
    ensures var q := V(t, 2 * (n + 1) - (na - nb + 1), na - nb + 1);
      0 <= V(a, ao, na) - q * V(b, bo, nb) < 9 * V(b, bo, nb)
  {
    hide V, BP;
    var nq := na - nb;
    var e, f := 2 * (n + 1) - (nq + 1), na - n - 1;
    VSplit(t, 0, e, nq + 1);
    VBound(t, 0, e);
    VSplit(a, ao, f, n + 1);
    VBound(a, ao, f);
    VBound(a, ao + f, n + 1);
    BPMono(n + 1, e);
    BPMono(f, nb - 1);
    NormalizedBounds(b, bo, nb);
    MulCommutes(BP(e), V(t, e, nq + 1));
    MulCommutes(BP(f), V(a, ao + f, n + 1));
    FirstQuotient(V(a, ao, na), V(b, bo, nb), r, V(a, ao + f, n + 1), V(a, ao, f), V(t, e, nq + 1), V(t, 0, e), e, f);
  }

  /** The remainder is known modulo B^(nb + 1), and it fits. */
  lemma LowDifference(s: seq<limb>, t: seq<limb>, ao: nat, na: nat, p: seq<limb>, nb: nat, k: limb, b: int, q: int)
    requires nb < na && ao + na <= |s| == |t| && |p| == na + 1 && k <= 1
    requires V(p, 0, na + 1) == q * b && 0 <= V(s, ao, na) - q * b < 9 * b && 0 <= b < BP(nb)
    requires V(t, ao, nb + 1) - k * BP(nb + 1) == V(s, ao, nb + 1) - V(p, 0, nb + 1)
    ensures V(t, ao, nb + 1) == V(s, ao, na) - q * b
  {
    hide V, BP;
    var m := BP(nb + 1);
    VSplit(s, ao, nb + 1, na - nb - 1);
    VSplit(p, 0, nb + 1, na - nb);
    VBound(t, ao, nb + 1);
    VNextPower(nb);
    var x, y := V(s, ao + nb + 1, na - nb - 1), V(p, nb + 1, na - nb);
    DistL(m, x, y);
    DistL(m, x - y, k);
    MulCommutes(m, k);
    Congruent(V(s, ao, na) - q * b, V(t, ao, nb + 1), m, x - y - k + 2 * k);
  }

  lemma Congruent(x: int, y: int, p: int, m: int)
    requires 0 <= x < p && 0 <= y < p && (exists c: int :: x - y == p * c)
    ensures x == y
  {
    var c: int :| x - y == p * c;
    if 0 < c { MulLe(1, c, p); } else if c < 0 { MulLe(c, -1, p); }
  }

  /** The repair loop of mp_divnorm_large. */
  method Increment(tabq: array<limb>, qo: nat, nq: nat, taba: array<limb>, ao: nat, tabb: array<limb>, bo: nat, nb: nat, ghost a: int)
    requires qo + nq + 1 <= tabq.Length && ao + nb + 1 <= taba.Length && Normalized(tabb[..], bo, nb)
    requires tabq != taba && tabq != tabb && taba != tabb && a < BP(nq + nb)
    requires a == V(tabq[..], qo, nq + 1) * V(tabb[..], bo, nb) + V(taba[..], ao, nb + 1)
    modifies tabq, taba
    ensures Only(old(tabq[..]), tabq[..], qo, nq + 1) && Only(old(taba[..]), taba[..], ao, nb + 1)
    ensures IsQuotient(a, V(tabq[..], qo, nq + 1), V(tabb[..], bo, nb), V(taba[..], ao, nb))
  {
    hide V, BP, Only;
    ghost var sq, sa, b := tabq[..], taba[..], V(tabb[..], bo, nb);
    OnlySelf(sq, qo, nq + 1);
    OnlySelf(sa, ao, nb + 1);
    NormalizedBounds(tabb[..], bo, nb);
    while true
      invariant Only(sq, tabq[..], qo, nq + 1) && Only(sa, taba[..], ao, nb + 1)
      invariant a == V(tabq[..], qo, nq + 1) * b + V(taba[..], ao, nb + 1)
      decreases V(taba[..], ao, nb + 1)
    {
      ghost var s, q := taba[..], V(tabq[..], qo, nq + 1);
      VTop(s, ao, nb + 1);
      if taba[ao + nb] == 0 {
        var cmp := MpCmp(taba, ao, tabb, bo, nb);
        if cmp < 0 { break; }
      } else {
        MulLe(1, taba[ao + nb], BP(nb));
      }
      Dist(q, 1, b);
      RoomForOne(a, q, b, nq, nb);
      var c := MpSub(taba, ao, taba, ao, tabb, bo, nb, 0);
      ghost var m := taba[..];
      MoreOnly(sa, s, m, ao, nb, nb + 1);
      OnlyAt(s, m, ao, nb, ao + nb);
      taba[ao + nb] := Wrap(taba[ao + nb] as int - c);
      MoreTop(sa, m, taba[..], ao, nb);
      DropTop(s, m, taba[..], ao, nb, c, b);
      ghost var q0 := tabq[..];
      c := MpAddUi(tabq, qo, 1, nq + 1);
      MoreOnly(sq, q0, tabq[..], qo, nq + 1, nq + 1);
      NoCarryOut(V(tabq[..], qo, nq + 1), q, BP(nq + 1), c);
    }
  }

  lemma NoCarryOut(v: int, q: int, p: int, c: limb)
    requires v + c * p == q + 1 && q + 1 < p && 0 <= v && 0 < p
    ensures v == q + 1
  {
    if c != 0 { MulLe(1, c, p); }
  }

  /** The quotient does not overflow its limbs. */
  lemma RoomForOne(a: int, q: int, b: int, nq: nat, nb: nat)
    requires 1 <= nb && (q + 1) * b <= a < BP(nq + nb) && HALF * BP(nb - 1) <= b && BP(nb) == B * BP(nb - 1)
    ensures q + 1 < BP(nq + 1)
  {
    hide BP;
    BPAdd(nq, nb);
    VNextPower(nq);
    MulLe(BP(nb), 2 * b, BP(nq));
    Assoc(2, BP(nq), b);
    LtMul(q + 1, 2 * BP(nq), b);
  }

  /** The borrow of a subtraction comes out of the top limb, when there is enough. */
  lemma DropTop(s: seq<limb>, m: seq<limb>, t: seq<limb>, o: nat, nb: nat, c: limb, b: int)
    requires o + nb < |s| && Only(s, m, o, nb) && t == m[o + nb := Wrap(s[o + nb] as int - c)]
    requires V(m, o, nb) - c * BP(nb) == V(s, o, nb) - b && c <= 1 && b <= V(s, o, nb + 1)
    ensures V(t, o, nb + 1) == V(s, o, nb + 1) - b
  {
    hide V, BP;
    VNext(s, o, nb);
    VNext(t, o, nb);
    VOnly(m, t, o, nb, o + nb, 1);
    VBound(m, o, nb);
    Dist(s[o + nb], c, BP(nb));
    assert c <= s[o + nb];
  }
}
