/**
 Division of two limbs by a normalized limb, with and without a precomputed inverse, and the limb
 loops built on it: mp_div1norm and mp_shr.
 */
module Udiv {
  import opened Limbs
  import opened MpBase

  /** floor((B^2 - 1) / d) - B */
  ghost predicate IsInverse(d: limb, dInv: limb) {
    HALF <= d && 1 <= dInv && 1 <= B * B - d * (B + dInv) <= d
  }

  /** udiv1norm_init */
  method Udiv1normInit(d: limb) returns (inv: limb)
    requires HALF <= d
    ensures IsInverse(d, inv)
  {
    var a1 := Wrap(-(d as int) - 1);
    var n := a1 * B + (B - 1);
    var q := n / d;
    InverseFits(d, n, q);
    inv := q;
  }

  lemma InverseFits(d: limb, n: int, q: int)
    requires HALF <= d && n == B * B - 1 - d * B && q == n / d
    ensures 1 <= q < B && 1 <= B * B - d * (B + q) <= d
  {
    DivRem(n, d, q);
    DistL(d, B, q);
    if q < 1 { MulLe(q, 0, d); }
    if B <= q { MulLe(B, q, d); }
  }

  lemma DivRem(n: int, d: int, q: int)
    requires 0 < d && q == n / d
    ensures 0 <= n - d * q < d
  {
  }

  /** The quotient estimate of udiv1norm is right or one too small. */
  lemma Estimate(a1: limb, a0: limb, d: limb, dInv: limb, q1: int)
    requires IsInverse(d, dInv) && a1 < d
    requires q1 == if a0 < HALF then (dInv * a1 + a0) / B + a1 else (dInv * (a1 as int + 1) + (a0 + d - B)) / B + a1
    ensures 0 <= a1 * B + a0 - q1 * d < 2 * d && 0 <= q1 < B
  {
    var m, n := B + dInv as int, a1 * B + a0 as int;
    var num := if a0 < HALF then m * a1 + a0 else m * (a1 as int + 1) + a0 + d - 2 * B;
    assert 0 <= B * n - d * num < d * B + d by {
      if a0 < HALF { LowBounds(a1, a0, d, m); } else { HighBounds(a1, a0, d, m); }
    }
    Dist(B, dInv, a1);
    Dist(B, dInv, a1 as int + 1);
    assert q1 == num / B;
    Divided(n, d, num, q1);
    MulLe(a1 as int + 1, d, B);
    LtMul(q1, B, d);
    MulLe(0, dInv, a1);
    MulLe(0, dInv, a1 as int + 1);
  }

  /** From a scaled remainder to the remainder. */
  lemma Divided(n: int, d: int, num: int, q1: int)
    requires 0 < d && 0 <= B * n - d * num < d * B + d && q1 == num / B && 0 <= n
    ensures 0 <= n - q1 * d < 2 * d
  {
    var rho := num - q1 * B;
    assert 0 <= rho <= B - 1;
    Scaled(n, d, num, q1, rho);
    MulLe(0, rho, d);
    MulLe(rho, B - 1, d);
    DistL(d, B, 1);
    assert 0 <= B * (n - q1 * d) < 2 * d * B;
  }

  lemma LowBounds(a1: limb, a0: limb, d: limb, m: int)
    requires a1 < d && a0 < HALF && HALF <= d && 1 <= B * B - d * m <= d
    ensures 0 <= B * (a1 * B + a0) - d * (m * a1 + a0) < d * B + d
  {
    var e := B * B - d * m;
    Low(a1, a0, d, m);
    MulLe(0, a1, e);
    MulLe(a1, d as int - 1, e);
    MulLe(e, d, d as int - 1);
    MulLe(0, a0, B - d as int);
    MulLe(a0, HALF, B - d as int);
    MulLe(0, B - d as int, d as int - HALF);
    Dist(B, d, d as int - HALF);
    DistL(d, d, HALF);
    DistL(d, d, 1);
  }

  lemma HighBounds(a1: limb, a0: limb, d: limb, m: int)
    requires a1 < d && HALF <= a0 && HALF <= d && 1 <= B * B - d * m <= d
    ensures 0 <= B * (a1 * B + a0) - d * (m * (a1 as int + 1) + a0 + d - 2 * B) < d * B + d
  {
    var e := B * B - d * m;
    High1(a1, a0, d, m);
    MulLe(0, a1 as int + 1, e);
    MulLe(a1 as int + 1, d, e);
    MulLe(e, d, d);
    MulLe(0, B - d as int, a0 as int - (B - d as int));
    MulLe(a0 as int - (B - d as int), d as int - 1, B - d as int);
    Dist(B, d, d as int - 1);
    DistL(d, d, 1);
  }

  lemma Scaled(n: int, d: int, num: int, q1: int, rho: int)
    requires num == q1 * B + rho
    ensures B * (n - q1 * d) == (B * n - d * num) + d * rho
  {
    DistL(d, q1 * B, rho);
    assert d * (q1 * B) == B * (q1 * d);
  }

  lemma Low(a1: int, a0: int, d: int, m: int)
    ensures B * (a1 * B + a0) - d * (m * a1 + a0) == a1 * (B * B - d * m) + a0 * (B - d)
  {
    DistL(a1, B * B, d * m);
    DistL(a0, B, d);
    DistL(d, m * a1, a0);
    assert d * (m * a1) == a1 * (d * m);
  }

  lemma High1(a1: int, a0: int, d: int, m: int)
    ensures B * (a1 * B + a0) - d * (m * (a1 + 1) + a0 + d - 2 * B)
         == (a1 + 1) * (B * B - d * m) + (B - d) * (a0 - (B - d))
  {
    Low(a1 + 1, a0, d, m);
    DistL(d, m * (a1 + 1) + a0, d - 2 * B);
    DistL(d, d, 2 * B);
    DistL(B - d, a0, B - d);
    DistL(B - d, B, d);
    Dist(B, d, B);
    Dist(B, d, d);
  }

  /** udiv1norm: the quotient and the remainder of a1 * B + a0 by d. */
  method Udiv1norm(a1: limb, a0: limb, d: limb, dInv: limb) returns (q: limb, r: limb)
    requires IsInverse(d, dInv) && a1 < d
    ensures a1 * B + a0 == q * d + r && r < d
  {
    hide IsInverse, Wrap, Wide, High;
    // n1m is the sign bit of a0, as a mask
    var n1m := HALF <= a0;
    var nAdj := Wrap(a0 as int + if n1m then d else 0);
    var a := (dInv as int) * (if n1m then a1 as int + 1 else a1) + nAdj;
    q := Wrap(High(a) + a1);
    FirstGuess(a1, a0, d, dInv);
    ghost var q1 := q;
    // the remainder for q + 1, modulo B^2
    a := Wide(a1 * B + a0 - (q as int) * d - d);
    var ah := High(a);
    q := Wrap(q as int + 1 + ah);
    r := Wrap(Wrap(a) as int + if ah != 0 then d else 0);
    Corrected(a1 * B + a0, q1, d);
  }

  lemma FirstGuess(a1: limb, a0: limb, d: limb, dInv: limb)
    requires IsInverse(d, dInv) && a1 < d
    ensures var nAdj := Wrap(a0 as int + if HALF <= a0 then d else 0);
      var a := dInv * (if HALF <= a0 then a1 as int + 1 else a1) + nAdj;
      var q := Wrap(High(a) + a1);
      0 <= a1 * B + a0 - q * d < 2 * d
  {
    hide IsInverse, Wrap;
    Adjusted(a0, d, dInv);
    var nAdj := Wrap(a0 as int + if HALF <= a0 then d else 0);
    var a := dInv * (if HALF <= a0 then a1 as int + 1 else a1) + nAdj;
    Estimate(a1, a0, d, dInv, a / B + a1);
    WrapPart(0, High(a) + a1);
  }

  lemma Adjusted(a0: limb, d: limb, dInv: limb)
    requires IsInverse(d, dInv)
    ensures HALF <= d && Wrap(a0 as int + if HALF <= a0 then d else 0) == if HALF <= a0 then a0 + d - B else a0
  {
  }

  lemma Corrected(n: int, q1: limb, d: limb)
    requires 0 <= n - q1 * d < 2 * d && n < d * B
    ensures var a := Wide(n - q1 * d - d);
      var ah := High(a);
      var q, r := Wrap(q1 as int + 1 + ah), Wrap(Wrap(a) as int + if ah != 0 then d else 0);
      n == q * d + r && r < d
  {
    hide Wide, High, Wrap;
    var x := n - q1 * d - d;
    Dist(q1, 1, d);
    AddBack(x, q1, d);
    if 0 <= x {
      LtMul(q1 as int + 1, B, d);
      AddBack(x, q1, d);
    }
  }

  lemma AddBack(x: int, q1: limb, d: limb)
    requires -(d as int) <= x < d
    ensures var a := Wide(x);
      var ah := High(a);
      var q, r := Wrap(q1 as int + 1 + ah), Wrap(Wrap(a) as int + if ah != 0 then d else 0);
      if x < 0 then q == q1 && r == x + d else r == x && (q1 < B - 1 ==> q == q1 + 1)
  {
    if 0 <= x {
      assert Wide(x) == x && High(x) == 0;
    } else {
      assert Wide(x) == x + B * B && High(x + B * B) == B - 1;
      assert Wrap(x + B * B) == x + B;
    }
  }

  const UDIV1NORM_THRESHOLD := 3

  /** A number by its lowest limb. */
  lemma VLow(s: seq<limb>, lo: nat, n: nat)
    requires lo + n + 1 <= |s|
    ensures V(s, lo, n + 1) == s[lo] + B * V(s, lo + 1, n) && BP(n + 1) == B * BP(n)
  {
    VSplit(s, lo, 1, n);
    VOne(s, lo);
    BPSmall();
  }

  /** mp_div1norm */
  method MpDiv1norm(tabr: array<limb>, ro: nat, taba: array<limb>, ao: nat, n: nat, b: limb, r0: limb) returns (r: limb)
    requires ro + n <= tabr.Length && ao + n <= taba.Length && (tabr == taba ==> ro == ao)
    requires HALF <= b && r0 < b
    modifies tabr
    ensures Only(old(tabr[..]), tabr[..], ro, n) && r < b
    ensures V(old(taba[..]), ao, n) + r0 * BP(n) == V(tabr[..], ro, n) * b + r
  {
    hide V, BP, IsInverse;
    ghost var s, sa := tabr[..], taba[..];
    r := r0;
    Empty(s, ro + n);
    Empty(sa, ao + n);
    var bInv := 0;
    if UDIV1NORM_THRESHOLD <= n {
      bInv := Udiv1normInit(b);
    }
    for i := n downto 0
      invariant Only(s, tabr[..], ro + i, n - i) && r < b
      invariant V(sa, ao + i, n - i) + r0 * BP(n - i) == V(tabr[..], ro + i, n - i) * b + r
    {
      ghost var before, r1 := tabr[..], r;
      var a0 := taba[ao + i];
      assert a0 == sa[ao + i];
      if UDIV1NORM_THRESHOLD <= n {
        var q;
        q, r := Udiv1norm(r, a0, b, bInv);
        tabr[ro + i] := q;
      } else {
        var a1 := r * B + a0 as int;
        OneDigit(r, a0, b);
        tabr[ro + i] := a1 / b;
        r := a1 % b;
      }
      VLow(sa, ao + i, n - i - 1);
      VLow(tabr[..], ro + i, n - i - 1);
      VOnly(before, tabr[..], ro + i + 1, n - i - 1, ro + i, 1);
      DigitStep(V(before, ro + i + 1, n - i - 1), V(sa, ao + i + 1, n - i - 1), tabr[ro + i], a0, b, r1, r, r0, BP(n - i - 1));
    }
  }

  lemma OneDigit(r: limb, a0: limb, b: limb)
    requires r < b
    ensures var a1 := r * B + a0 as int; 0 <= a1 / b < B && 0 <= a1 % b < b && a1 == (a1 / b) * b + a1 % b
  {
    var a1 := r * B + a0 as int;
    MulLe(r as int + 1, b, B);
    LtMul(a1 / b, B, b);
  }

  lemma DigitStep(vq: int, va: int, q: int, a0: int, b: int, r1: int, r: int, r0: int, p: int)
    requires va + r0 * p == vq * b + r1 && r1 * B + a0 == q * b + r
    ensures a0 + B * va + r0 * (B * p) == (q + B * vq) * b + r
  {
    Dist(q, B * vq, b);
    Assoc(B, vq, b);
    Assoc(r0, B, p);
  }

  /** 2^n */
  function Pow2(n: nat): (p: nat)
    ensures 0 < p
  {
    if n == 0 then 1 else 2 * Pow2(n - 1)
  }

  lemma {:induction false} Pow2Add(m: nat, n: nat)
    ensures Pow2(m + n) == Pow2(m) * Pow2(n)
  {
    if n != 0 {
      Pow2Add(m, n - 1);
      assert Pow2(m + n) == 2 * Pow2(m + (n - 1));
      Assoc(2, Pow2(m), Pow2(n - 1));
    }
  }

  lemma Pow2Limb()
    ensures Pow2(LIMB_BITS) == B
  {
    Pow2Small();
    Pow2Add(8, 8);
    Pow2Add(16, 16);
  }

  lemma Pow2Small()
    ensures Pow2(8) == 256
  {
    Pow2Add(4, 4);
    assert Pow2(4) == 16 by { Pow2Add(2, 2); assert Pow2(2) == 2 * Pow2(1) == 4; }
  }

  lemma LimbPow2(shift: nat)
    requires 1 <= shift < LIMB_BITS
    ensures Pow2(shift) * Pow2(LIMB_BITS - shift) == B && 1 < Pow2(shift) && 1 < Pow2(LIMB_BITS - shift)
  {
    Pow2Add(shift, LIMB_BITS - shift);
    Pow2Limb();
    assert Pow2(shift) == 2 * Pow2(shift - 1) && Pow2(LIMB_BITS - shift) == 2 * Pow2(LIMB_BITS - shift - 1);
  }

  /** One limb of a shift by p == 2^shift, with p * q == B: the low bits of `l` come in at the top. */
  lemma ShiftLimb(a: limb, l: limb, p: int, q: int)
    requires 1 < p && 1 < q && p * q == B
    ensures var x := a / p + Wrap(l * q);
      0 <= x < B && x * p + a % p == (l % p) * B + a
  {
    hide Wrap;
    var h, m := l / p, l % p;
    DivMod(l, p);
    DivMod(a, p);
    Dist(h * p, m, q);
    Assoc(h, p, q);
    MulLe(m + 1, p, q);
    Dist(m, 1, q);
    MulLe(0, m, q);
    WrapPart(h, m * q);
    Dist(a / p, m * q, p);
    assert m * q * p == m * (p * q);
    LtMul(a / p, q, p);
  }

  lemma DivMod(a: int, p: int)
    requires 0 < p && 0 <= a
    ensures a == (a / p) * p + a % p && 0 <= a % p < p && 0 <= a / p
  {
  }

  lemma ModSmall(l: limb, p: int)
    requires 0 < p
    ensures 0 <= l % p < B && l % p < p
  {
    DivMod(l, p);
    MulLe(0, l / p, p);
  }

  lemma WrapPart(h: int, x: int)
    requires 0 <= x < B
    ensures Wrap(h * B + x) == x
  {
  }

  /** mp_shr */
  method MpShr(tabr: array<limb>, ro: nat, tab: array<limb>, o: nat, n: nat, shift: nat, high: limb) returns (r: limb)
    requires ro + n <= tabr.Length && o + n <= tab.Length && (tabr == tab ==> ro == o)
    requires 1 <= shift < LIMB_BITS
    modifies tabr
    ensures Only(old(tabr[..]), tabr[..], ro, n) && r < Pow2(shift)
    ensures V(tabr[..], ro, n) * Pow2(shift) + r == V(old(tab[..]), o, n) + (high % Pow2(shift)) * BP(n)
  {
    hide V, BP, Pow2, Wrap;
    ghost var s, sa := tabr[..], tab[..];
    var p, q := Pow2(shift), Pow2(LIMB_BITS - shift);
    LimbPow2(shift);
    Empty(s, ro + n);
    Empty(sa, o + n);
    var l: limb := high;
    for i := n downto 0
      invariant Only(s, tabr[..], ro + i, n - i)
      invariant V(sa, o + i, n - i) + (high % p) * BP(n - i) == V(tabr[..], ro + i, n - i) * p + l % p
    {
      ghost var before, l0 := tabr[..], l;
      var a := tab[o + i];
      assert a == sa[o + i];
      ShiftLimb(a, l, p, q);
      tabr[ro + i] := a / p + Wrap(l * q);
      l := a;
      VLow(sa, o + i, n - i - 1);
      VLow(tabr[..], ro + i, n - i - 1);
      VOnly(before, tabr[..], ro + i + 1, n - i - 1, ro + i, 1);
      DigitStep(V(before, ro + i + 1, n - i - 1), V(sa, o + i + 1, n - i - 1), tabr[ro + i], a, p, l0 % p, a % p, high % p, BP(n - i - 1));
    }
    ModSmall(l, p);
    r := l % p;
  }

  lemma Pow2One()
    ensures Pow2(1) == 2 && Pow2(0) == 1
  {
    assert Pow2(0) == 1;
  }
}
