/**
 The quotient that bf_integer_to_radix_rec estimates with a rounded inverse: it is at most one off.
 */
module RadixQuotient {
  import opened Limbs
  import opened Udiv
  import opened Rounding
  import opened BfBits

  /** The number of bits. */
  function BitLen(x: nat): (l: nat)
    ensures x < Pow2(l) && (0 < x ==> 0 < l && Pow2(l - 1) <= x)
  {
    if x == 0 then Pow2One(); 0 else
      var l := BitLen(x / 2);
      BitMore(x, l);
      l + 1
  }

  lemma BitMore(x: nat, l: nat)
    requires 0 < x && x / 2 < Pow2(l) && (0 < x / 2 ==> 0 < l && Pow2(l - 1) <= x / 2)
    requires x / 2 == 0 ==> l == 0
    ensures x < Pow2(l + 1) && Pow2(l) <= x
  {
    Pow2One();
  }

  /** The inverse of `b` is kept with this many bits below the point. */
  function InverseShift(b: nat, n2: nat, bits: nat): (k: nat)
    requires 0 < b
  {
    (n2 + 1) * bits + 2 + BitLen(b) - 1
  }

  /** bf_div of 1 by `b`, rounded to nearest with (n2 + 1) * bits + 2 bits, in units of its last bit. */
  function Inverse(b: nat, n2: nat, bits: nat): (m: int)
    requires 0 < b
    ensures 0 <= m
  {
    RoundPositive(Pow2(InverseShift(b, n2, bits)), b);
    Round(RNDN, false, Pow2(InverseShift(b, n2, bits)), b)
  }

  lemma RoundPositive(x: nat, unit: nat)
    requires 0 < unit
    ensures 0 <= Round(RNDN, false, x, unit)
  {
  }

  /** `p` rounded to nearest with `prec` bits. */
  function RoundBits(p: nat, prec: nat): int {
    Round(RNDN, false, p, Pow2(Excess(p, prec))) * Pow2(Excess(p, prec))
  }

  /** The bits of `p` that are cut off. */
  function Excess(p: nat, prec: nat): (t: nat) {
    if BitLen(p) <= prec then 0 else BitLen(p) - prec
  }

  /** The product with the inverse, rounded to nearest and then toward zero. */
  function QuotientEstimate(a: nat, m: nat, shift: nat, qPrec: nat): int {
    RoundBits(a * m, qPrec) / Pow2(shift)
  }

  /** The inverse is off by half a unit at most, which is less than a quarter after the product. */
  lemma InverseClose(a: nat, b: nat, n2: nat, bits: nat, w: nat)
    requires 0 < b && a < b * w && w <= Pow2((n2 + 1) * bits)
    ensures var u, p := Pow2(InverseShift(b, n2, bits)), a * Inverse(b, n2, bits);
      4 * Distance(p * b, a * u) < u * b
  {
    hide Pow2, Round, BitLen;
    var k, m := InverseShift(b, n2, bits), Inverse(b, n2, bits);
    var u := Pow2(k);
    RoundIsCorrect(RNDN, false, u, b);
    LargeUnit(b, n2, bits, w);
    ScaledError(a, b, m, u);
  }

  lemma ScaledError(a: nat, b: nat, m: int, u: nat)
    requires 0 < b && 2 * Distance(m * b, u) <= b && 2 * a < u
    ensures 4 * Distance(a * m * b, a * u) < u * b
  {
    hide Distance;
    var d := Distance(m * b, u);
    Assoc(a, m, b);
    ScaledDistance(a, m * b, u);
    MulLe(2 * d, b, a);
    Assoc(a, 2, d);
    MulLt(2 * a, u, b);
    Assoc(2, a, b);
  }

  lemma ScaledDistance(a: nat, x: int, y: int)
    ensures Distance(a * x, a * y) == a * Distance(x, y)
  {
    DistL(a, x, y);
    MulLe(0, a, Distance(x, y));
  }

  /** The unit is more than twice the dividend. */
  lemma LargeUnit(b: nat, n2: nat, bits: nat, w: nat)
    requires 0 < b && w <= Pow2((n2 + 1) * bits)
    ensures 2 * (b * w) <= Pow2(InverseShift(b, n2, bits))
  {
    hide Pow2, BitLen;
    var e := BitLen(b) - 1;
    var x := Pow2((n2 + 1) * bits);
    Pow2Add((n2 + 1) * bits + 2, e);
    Pow2Add((n2 + 1) * bits, 2);
    Pow2Add(1, 1);
    Pow2Add(e, 1);
    Pow2One();
    FourTimes(b, w, x, Pow2(e));
  }

  lemma FourTimes(b: nat, w: nat, x: nat, e: nat)
    requires w <= x && b <= 2 * e
    ensures 2 * (b * w) <= x * 4 * e
  {
    MulLe(w, x, b);
    MulLe(b, 2 * e, x);
    assert 2 * e * x == 2 * (x * e) && x * 4 * e == 4 * (x * e);
  }

  /** Rounding a number of little more than w * u, with w = 2^prec, moves it by half of u at most. */
  lemma RoundBitsClose(p: nat, prec: nat, k: nat)
    requires 1 <= prec && 4 * p < (4 * Pow2(prec) + 1) * Pow2(k)
    ensures 2 * Distance(RoundBits(p, prec), p) <= Pow2(k)
  {
    hide Pow2, Round, BitLen, RoundBits, Excess;
    var t := Excess(p, prec);
    RoundedNear(p, prec);
    if t <= k {
      Pow2Up(t, k);
    } else {
      ManyBits(p, prec);
      JustAbove(p, prec, k, prec + t);
      NearMultiple(p, prec, k);
      assert RoundBits(p, prec) == Pow2(prec) * Pow2(k);
    }
  }

  lemma RoundedNear(p: nat, prec: nat)
    ensures var t := Excess(p, prec);
      2 * Distance(RoundBits(p, prec), p) <= Pow2(t) && RoundBits(p, prec) == Round(RNDN, false, p, Pow2(t)) * Pow2(t)
  {
    hide Pow2, Round, BitLen, Excess;
    RoundIsCorrect(RNDN, false, p, Pow2(Excess(p, prec)));
  }

  lemma ManyBits(p: nat, prec: nat)
    requires Excess(p, prec) != 0
    ensures Pow2(prec + Excess(p, prec) - 1) <= p
  {
    hide Pow2, BitLen;
    if p == 0 { NoBits(); }
  }

  lemma NoBits()
    ensures BitLen(0) == 0
  {
  }

  /** More bits than prec + k means just above 2^(prec + k). */
  lemma JustAbove(p: nat, prec: nat, k: nat, l: nat)
    requires 4 * p < (4 * Pow2(prec) + 1) * Pow2(k) && prec + k < l && Pow2(l - 1) <= p
    ensures l == prec + k + 1 && Pow2(prec) * Pow2(k) <= p && 4 * (p - Pow2(prec) * Pow2(k)) < Pow2(k)
  {
    hide Pow2;
    Pow2Add(prec, k);
    Pow2Up(prec + k, l - 1);
    Dist(4 * Pow2(prec), 1, Pow2(k));
    Assoc(4, Pow2(prec), Pow2(k));
    if prec + k + 1 < l {
      Pow2Up(prec + k + 1, l - 1);
      Pow2Add(prec + k, 1);
      Pow2One();
      MulLe(1, Pow2(prec), Pow2(k));
    }
  }

  /** Such a number is rounded down to 2^(prec + k). */
  lemma NearMultiple(p: nat, prec: nat, k: nat)
    requires 1 <= prec && Pow2(prec) * Pow2(k) <= p && 4 * (p - Pow2(prec) * Pow2(k)) < Pow2(k)
    ensures Round(RNDN, false, p, Pow2(k + 1)) * Pow2(k + 1) == Pow2(prec) * Pow2(k)
  {
    hide Pow2;
    Pow2Add(k, 1);
    Pow2Add(prec - 1, 1);
    Pow2One();
    var q, unit := Pow2(prec - 1), Pow2(k + 1);
    assert Pow2(prec) * Pow2(k) == q * unit by { Assoc(q, 2, Pow2(k)); }
    QuotientIs(p, unit, q, p - q * unit);
  }

  /** Two small errors, and what is cut off, change the quotient by one at most. */
  lemma QuotientClose(a: nat, b: nat, p: int, p': int, u: nat)
    requires 0 < b && 0 < u && 4 * Distance(p * b, a * u) < u * b && 2 * Distance(p', p) <= u
    ensures -1 <= p' / u - a / b <= 1
  {
    var q, x := p' / u, a / b;
    DivMod(a, b);
    DivModAny(p', u);
    Dist(q, 1, u);
    Dist(x, 1, b);
    ErrorSum(a, b, p, p', u);
    TooLarge(a, b, p', u, q, x);
    TooSmall(a, b, p', u, q, x);
  }

  lemma ErrorSum(a: nat, b: nat, p: int, p': int, u: nat)
    requires 0 < b && 4 * Distance(p * b, a * u) < u * b && 2 * Distance(p', p) <= u
    ensures -3 * (u * b) < 4 * (p' * b - a * u) < 3 * (u * b)
  {
    HalfScaled(p' - p, u, b);
    Dist(p', p, b);
    Together(p' * b, p * b, a * u, u * b);
  }

  lemma HalfScaled(d: int, u: int, b: nat)
    requires -u <= 2 * d <= u
    ensures -(u * b) <= 2 * (d * b) <= u * b
  {
    MulLe(2 * d, u, b);
    MulLe(-u, 2 * d, b);
    Assoc(2, d, b);
    Dist(0, u, b);
  }

  lemma Together(x: int, y: int, z: int, u: int)
    requires 4 * Distance(y, z) < u && -u <= 2 * (x - y) <= u
    ensures -3 * u < 4 * (x - z) < 3 * u
  {
  }

  lemma TooLarge(a: nat, b: nat, p: int, u: nat, q: int, x: int)
    requires 0 < b && 0 < u && q * u <= p && a < (x + 1) * b && 4 * (p * b - a * u) < 3 * (u * b)
    ensures q <= x + 1
  {
    MulLe(q * u, p, b);
    MulLe(a, (x + 1) * b, u);
    ToUnits(q, u, b);
    ToUnits(x + 1, u, b);
    if x + 2 <= q { NextUnit(x + 1, q, u, b); }
  }

  lemma TooSmall(a: nat, b: nat, p: int, u: nat, q: int, x: int)
    requires 0 < b && 0 < u && p < (q + 1) * u && x * b <= a && -3 * (u * b) < 4 * (p * b - a * u)
    ensures x <= q + 1
  {
    MulLe(p, (q + 1) * u, b);
    MulLe(x * b, a, u);
    ToUnits(q + 1, u, b);
    ToUnits(x, u, b);
    if q + 2 <= x { NextUnit(q + 1, x, u, b); }
  }

  lemma ToUnits(q: int, u: nat, b: nat)
    ensures q * u * b == q * (u * b) && q * b * u == q * (u * b)
  {
    Assoc(q, u, b);
    Assoc(q, b, u);
  }

  lemma NextUnit(x: int, q: int, u: nat, b: nat)
    requires x < q && 0 < u && 0 < b
    ensures x * (u * b) + u * b <= q * (u * b) && 0 < u * b
  {
    MulLe(x + 1, q, u * b);
    Dist(x, 1, u * b);
    MulLt(0, u, b);
  }

  /** The estimate for a quotient below 2^(n1 * bits), with a divisor of n2 digits and n1 <= n2 + 1. */
  lemma EstimateIsClose(a: nat, b: nat, n1: nat, n2: nat, bits: nat)
    requires 0 < b && 1 <= n1 <= n2 + 1 && 1 <= bits && a < b * Pow2(n1 * bits)
    ensures -1 <= QuotientEstimate(a, Inverse(b, n2, bits), InverseShift(b, n2, bits), n1 * bits) - a / b <= 1
  {
    hide Pow2, Round, BitLen, RoundBits, Inverse, InverseShift;
    var k, m, w := InverseShift(b, n2, bits), Inverse(b, n2, bits), Pow2(n1 * bits);
    var u, p := Pow2(k), a * m;
    MulLe(n1, n2 + 1, bits);
    Pow2Up(n1 * bits, (n2 + 1) * bits);
    InverseClose(a, b, n2, bits, w);
    MulLe(1, n1, bits);
    ProductBound(a, b, p, u, w);
    RoundBitsClose(p, n1 * bits, k);
    QuotientClose(a, b, p, RoundBits(p, n1 * bits), u);
  }

  lemma ProductBound(a: nat, b: nat, p: nat, u: nat, w: nat)
    requires 0 < b && a < b * w && 4 * Distance(p * b, a * u) < u * b
    ensures 4 * p < (4 * w + 1) * u
  {
    MulLe(a, b * w, u);
    assert 4 * (p * b) < 4 * (b * w * u) + u * b;
    assert 4 * (b * w * u) + u * b == (4 * w + 1) * u * b by { Dist(4 * w, 1, u); Dist(4 * w * u, u, b); }
    LtMul(4 * p, (4 * w + 1) * u, b);
  }
}
