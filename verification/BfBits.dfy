/**
 Single bits of a number that is held in limbs: get_bit, get_bits, scan_bit_nz and the limb masks.
 */
module BfBits {
  import opened Limbs
  import opened MpBase
  import opened Udiv
  import opened Rounding

  lemma {:induction false} BitsOfLimbs(n: nat)
    ensures Pow2(LIMB_BITS * n) == BP(n)
  {
    if n == 0 {
      assert Pow2(0) == 1 && BP(0) == 1;
    } else {
      BitsOfLimbs(n - 1);
      Pow2Limb();
      Pow2Add(LIMB_BITS, LIMB_BITS * (n - 1));
    }
  }

  /** Bit position p is bit s of limb i. */
  lemma BitPlace(p: nat, i: nat, s: nat)
    requires i == p / LIMB_BITS && s == p % LIMB_BITS
    ensures p == LIMB_BITS * i + s && s < LIMB_BITS && Pow2(p) == BP(i) * Pow2(s)
  {
    BitsOfLimbs(i);
    Pow2Add(LIMB_BITS * i, s);
  }

  /** Dividing twice. */
  lemma DivTwice(n: nat, a: nat, b: nat)
    requires 0 < a && 0 < b
    ensures 0 < a * b && n / (a * b) == (n / a) / b && n % (a * b) == n % a + a * ((n / a) % b)
  {
    var q, r := n / a, n % a;
    DivMod(n, a);
    DivMod(q, b);
    MulLt(0, a, b);
    Dist(q / b * b, q % b, a);
    Assoc(q / b, b, a);
    MulLe(q % b + 1, b, a);
    Dist(q % b, 1, a);
    MulLe(0, q % b, a);
    QuotientIs(n, a * b, q / b, a * (q % b) + r);
  }

  /** The limbs from `i` on, as a quotient. */
  lemma HighLimbs(t: seq<limb>, o: nat, i: nat, n: nat)
    requires i <= n && o + n <= |t|
    ensures V(t, o, n) / BP(i) == V(t, o + i, n - i) && V(t, o, n) % BP(i) == V(t, o, i)
  {
    VSplit(t, o, i, n - i);
    VBound(t, o, i);
    QuotientIs(V(t, o, n), BP(i), V(t, o + i, n - i), V(t, o, i));
  }

  /** get_bit: 0 outside the limbs. */
  function GetBit(t: seq<limb>, l: nat, pos: int): (b: int)
    requires l <= |t|
  {
    var i := pos / LIMB_BITS;
    if i < 0 || l <= i then 0 else (t[i] / Pow2(pos % LIMB_BITS)) % 2
  }

  lemma GetBitIs(t: seq<limb>, l: nat, pos: nat)
    requires l <= |t|
    ensures GetBit(t, l, pos) == (V(t, 0, l) / Pow2(pos)) % 2
  {
    hide V, BP, Pow2;
    var i, s := pos / LIMB_BITS, pos % LIMB_BITS;
    BitPlace(pos, i, s);
    var v := V(t, 0, l);
    if l <= i {
      VBound(t, 0, l);
      BPUp(l, i);
      MulLe(1, Pow2(s), BP(i));
      QuotientIs(v, Pow2(pos), 0, v);
    } else {
      DivTwice(v, BP(i), Pow2(s));
      HighLimbs(t, 0, i, l);
      VLow(t, i, l - i - 1);
      LowBit(t[i], V(t, i + 1, l - i - 1), s);
    }
  }

  lemma BPUp(m: nat, n: nat)
    requires m <= n
    ensures BP(m) <= BP(n)
  {
    BPAdd(m, n - m);
    MulLe(1, BP(n - m), BP(m));
  }

  /** Bit s of a number is bit s of its lowest limb. */
  lemma LowBit(d: limb, high: nat, s: nat)
    requires s < LIMB_BITS
    ensures ((d + B * high) / Pow2(s)) % 2 == (d / Pow2(s)) % 2
  {
    hide Pow2;
    var p, h := Pow2(s), Pow2(LIMB_BITS - s - 1);
    LimbHalves(s);
    DivMod(d, p);
    // d + B * high == (d / p + 2 * (h * high)) * p + d % p
    Dist(d / p, 2 * (h * high), p);
    assert 2 * (h * high) * p == B * high by { assert 2 * (h * high) * p == (p * h * 2) * high; }
    QuotientIs(d + B * high, p, d / p + 2 * (h * high), d % p);
    EvenPart(h * high, d / p);
  }

  lemma LimbHalves(s: nat)
    requires s < LIMB_BITS
    ensures Pow2(s) * Pow2(LIMB_BITS - s - 1) * 2 == B
  {
    Pow2Add(s, LIMB_BITS - s - 1);
    Pow2Limb();
    assert Pow2(LIMB_BITS) == 2 * Pow2(LIMB_BITS - 1);
  }

  /** scan_bit_nz: whether a bit from 0 to `bitPos` is set. */
  method ScanBitNz(tab: array<limb>, ghost l: nat, bitPos: int) returns (nz: bool)
    requires l <= tab.Length && bitPos < LIMB_BITS * l
    ensures nz <==> 0 <= bitPos && V(tab[..], 0, l) % Pow2(bitPos + 1) != 0
  {
    hide V, BP, Pow2;
    var pos := bitPos / LIMB_BITS;
    if pos < 0 { return false; }
    ghost var t := tab[..];
    var s := bitPos % LIMB_BITS + 1;
    LowBits(t, l, pos, s);
    var v := tab[pos] % Pow2(s);
    if v != 0 { return true; }
    VZero(t, 0, pos);
    while pos > 0
      invariant 0 <= pos <= bitPos / LIMB_BITS && forall k :: pos <= k < bitPos / LIMB_BITS ==> tab[k] == 0
    {
      pos := pos - 1;
      if tab[pos] != 0 { return true; }
    }
    return false;
  }

  /** The bits below bit s of limb i, for 1 <= s <= 32. */
  lemma LowBits(t: seq<limb>, l: nat, i: nat, s: nat)
    requires i < l <= |t| && 1 <= s <= LIMB_BITS
    ensures 0 < Pow2(s) && 0 <= t[i] % Pow2(s) && LIMB_BITS * i + s >= 0
    ensures V(t, 0, l) % Pow2(LIMB_BITS * i + s) == V(t, 0, i) + BP(i) * (t[i] % Pow2(s))
    ensures V(t, 0, l) % Pow2(LIMB_BITS * i + s) == 0 <==> t[i] % Pow2(s) == 0 && V(t, 0, i) == 0
  {
    hide V, BP, Pow2;
    BitsOfLimbs(i);
    Pow2Add(LIMB_BITS * i, s);
    DivTwice(V(t, 0, l), BP(i), Pow2(s));
    HighLimbs(t, 0, i, l);
    VLow(t, i, l - i - 1);
    LowMod(t[i], V(t, i + 1, l - i - 1), s);
    if t[i] % Pow2(s) != 0 { MulLe(1, t[i] % Pow2(s), BP(i)); }
  }

  lemma LowMod(d: limb, high: nat, s: nat)
    requires 1 <= s <= LIMB_BITS
    ensures (d + B * high) % Pow2(s) == d % Pow2(s)
  {
    hide Pow2;
    var p, h := Pow2(s), Pow2(LIMB_BITS - s);
    Pow2Add(s, LIMB_BITS - s);
    Pow2Limb();
    DivMod(d, p);
    Dist(d / p, h * high, p);
    assert h * high * p == B * high by { assert h * high * p == (p * h) * high; }
    QuotientIs(d + B * high, p, d / p + h * high, d % p);
  }

  // ---------------------------------------------------------------- 32 bits anywhere

  /** Limb k of a number. */
  ghost function LimbOf(x: nat, k: nat): (d: int)
    ensures 0 <= d < B
  {
    x / BP(k) % B
  }

  /** get_limbz: 0 outside the limbs. */
  function GetLimbz(t: seq<limb>, idx: int): limb {
    if 0 <= idx < |t| then t[idx] else 0
  }

  /** get_bits: the 32 bits from bit `pos` on, with zeros outside the limbs. */
  function GetBits(t: seq<limb>, pos: int): (d: int)
    ensures 0 <= d < B
  {
    var i, p := pos / LIMB_BITS, pos % LIMB_BITS;
    var a0, a1 := GetLimbz(t, i), GetLimbz(t, i + 1);
    if p == 0 then a0 else BitsFit(a0, a1, p); a0 / Pow2(p) + Wrap(a1 * Pow2(LIMB_BITS - p))
  }

  lemma BitsFit(a0: limb, a1: limb, p: nat)
    requires 1 <= p < LIMB_BITS
    ensures 0 < Pow2(p) && 0 <= a0 / Pow2(p) + Wrap(a1 * Pow2(LIMB_BITS - p)) < B
    ensures a0 / Pow2(p) + Wrap(a1 * Pow2(LIMB_BITS - p)) == (a0 + a1 * B) / Pow2(p) % B
  {
    hide Pow2;
    LimbPow2(p);
    ShiftLimb(a0, a1, Pow2(p), Pow2(LIMB_BITS - p));
    var x := a0 / Pow2(p) + Wrap(a1 * Pow2(LIMB_BITS - p));
    ShiftedPair(a0, a1, Pow2(p), Pow2(LIMB_BITS - p), x);
  }

  lemma ShiftedPair(a0: limb, a1: limb, p: int, q: int, x: int)
    requires 1 < p && 1 < q && p * q == B && 0 <= x < B && x * p + a0 % p == (a1 % p) * B + a0
    ensures (a0 + a1 * B) / p % B == x
  {
    DivMod(a1, p);
    DivMod(a0, p);
    // a0 + a1 * B == (x + (a1 / p) * B) * p + a0 % p
    Dist(a1 / p * p, a1 % p, B);
    Dist(x, a1 / p * B, p);
    assert a1 / p * p * B == a1 / p * B * p;
    QuotientIs(a0 + a1 * B, p, x + a1 / p * B, a0 % p);
    QuotientIs(x + a1 / p * B, B, a1 / p, x);
  }

  /** Limb k of a number held in limbs. */
  lemma LimbIs(t: seq<limb>, k: nat)
    ensures LimbOf(V(t, 0, |t|), k) == GetLimbz(t, k)
  {
    hide V, BP;
    VBound(t, 0, |t|);
    if k < |t| {
      HighLimbs(t, 0, k, |t|);
      VLow(t, k, |t| - k - 1);
      QuotientIs(V(t, k, |t| - k), B, V(t, k + 1, |t| - k - 1), t[k]);
    } else {
      BPUp(|t|, k);
      QuotientIs(V(t, 0, |t|), BP(k), 0, V(t, 0, |t|));
    }
  }

  /** 32 bits of a number, from bit `pos` on. */
  lemma GetBitsIs(t: seq<limb>, pos: int)
    ensures 0 <= pos ==> GetBits(t, pos) == V(t, 0, |t|) / Pow2(pos) % B
    ensures pos < 0 ==> GetBits(t, pos) == V(t, 0, |t|) * Pow2(-pos) % B
  {
    hide V, BP, Pow2, GetBits;
    if 0 <= pos { PositiveBits(t, pos); } else { NegativeBits(t, pos); }
  }

  lemma PositiveBits(t: seq<limb>, pos: nat)
    ensures GetBits(t, pos) == V(t, 0, |t|) / Pow2(pos) % B
  {
    hide V, BP, Pow2, GetLimbz;
    var v, i, p := V(t, 0, |t|), pos / LIMB_BITS, pos % LIMB_BITS;
    BitPlace(pos, i, p);
    DivTwice(v, BP(i), Pow2(p));
    LimbPair(t, i);
    PairBits(v / BP(i), GetLimbz(t, i), GetLimbz(t, i + 1), p);
  }

  lemma LimbPair(t: seq<limb>, i: nat)
    ensures GetLimbz(t, i) == V(t, 0, |t|) / BP(i) % B && GetLimbz(t, i + 1) == V(t, 0, |t|) / BP(i) / B % B
  {
    hide V, BP, GetLimbz;
    LimbIs(t, i);
    LimbIs(t, i + 1);
    VNextPower(i);
    DivTwice(V(t, 0, |t|), BP(i), B);
  }

  lemma PairBits(x: nat, a0: limb, a1: limb, p: nat)
    requires p < LIMB_BITS && a0 == x % B && a1 == x / B % B
    ensures 0 < Pow2(p) && (if p == 0 then a0 else a0 / Pow2(p) + Wrap(a1 * Pow2(LIMB_BITS - p))) == x / Pow2(p) % B
  {
    hide Pow2, Wrap;
    if p == 0 {
      Pow2One();
      DivOne(x);
    } else {
      BitsFit(a0, a1, p);
      LowTwo(x, a0, a1, p);
    }
  }

  lemma DivOne(x: int)
    ensures x / 1 == x
  {
  }

  /** Two limbs decide 32 bits that start in the first. */
  lemma LowTwo(x: nat, a0: limb, a1: limb, p: nat)
    requires 1 <= p < LIMB_BITS && a0 == x % B && a1 == x / B % B
    ensures 0 < Pow2(p) && x / Pow2(p) % B == (a0 + a1 * B) / Pow2(p) % B
  {
    hide Pow2;
    LimbPow2(p);
    var h, y, u, q := x / B / B, a0 + a1 * B, Pow2(p), Pow2(LIMB_BITS - p);
    DivMod(x, B);
    DivMod(x / B, B);
    assert x == y + h * (B * B);
    DivMod(y, u);
    // B * B == B * q * u
    Dist(y / u, h * (B * q), u);
    assert h * (B * q) * u == h * (B * B) by { assert h * (B * q) * u == h * B * (u * q); }
    QuotientIs(x, u, y / u + h * (B * q), y % u);
    DivMod(y / u, B);
    assert h * (B * q) == h * q * B;
    QuotientIs(y / u + h * q * B, B, y / u / B + h * q, y / u % B);
  }

  /** Bits that start below the number. */
  lemma NegativeBits(t: seq<limb>, pos: int)
    requires pos < 0
    ensures GetBits(t, pos) == V(t, 0, |t|) * Pow2(-pos) % B
  {
    hide V, BP, Pow2;
    var v, i, p := V(t, 0, |t|), pos / LIMB_BITS, pos % LIMB_BITS;
    if -pos < LIMB_BITS {
      assert i == -1 && p == pos + LIMB_BITS;
      LimbIs(t, 0);
      BPSmall();
      DivOne(v);
      LimbPow2(p);
      WrapProduct(v, Pow2(-pos));
      QuotientIs(0, Pow2(p), 0, 0);
    } else {
      Pow2Add(-pos - LIMB_BITS, LIMB_BITS);
      Pow2Limb();
      Assoc(v, Pow2(-pos - LIMB_BITS), B);
      QuotientIs(v * Pow2(-pos), B, v * Pow2(-pos - LIMB_BITS), 0);
      if p != 0 { LimbPow2(p); QuotientIs(0, Pow2(p), 0, 0); ZeroWrap(Pow2(LIMB_BITS - p)); }
    }
  }

  lemma ZeroWrap(q: nat)
    ensures Wrap(0 * q) == 0
  {
  }

  lemma WrapProduct(v: nat, q: nat)
    ensures Wrap(v % B * q) == v * q % B
  {
    DivMod(v, B);
    DivMod(v % B * q, B);
    Dist(v / B * B, v % B, q);
    var z := v % B * q / B;
    Dist(v / B * q, z, B);
    assert v / B * B * q == v / B * q * B;
    QuotientIs(v * q, B, v / B * q + z, v % B * q % B);
  }

  lemma Pow2Up(m: nat, n: nat)
    requires m <= n
    ensures Pow2(m) <= Pow2(n)
  {
    Pow2Add(m, n - m);
    MulLe(1, Pow2(n - m), Pow2(m));
  }

  /** The number of leading zero bits. */
  function Clz(v: limb): (k: nat)
    requires v != 0
    ensures k < LIMB_BITS && HALF <= v * Pow2(k) < B
    decreases B - v
  {
    if HALF <= v then Pow2One(); 0
    else
      var k := Clz(2 * v);
      ClzStep(v, k);
      k + 1
  }

  lemma ClzStep(v: limb, k: nat)
    requires v != 0 && HALF <= 2 * v * Pow2(k) < B
    ensures HALF <= v * Pow2(k + 1) < B && k + 1 < LIMB_BITS
  {
    hide Pow2;
    Pow2Add(k, 1);
    Pow2One();
    Assoc(v, 2, Pow2(k));
    ShiftBelow(v, k + 1);
  }

  /** The least k with a <= 2^k. */
  function CeilLog2(a: limb): (k: nat)
    ensures a <= Pow2(k) && k <= LIMB_BITS
    ensures 0 < k ==> Pow2(k - 1) < a
  {
    if a <= 1 then Pow2One(); 0
    else LeadingOne(a - 1); LIMB_BITS - Clz(a - 1)
  }

  lemma {:induction false} PowersGrow(a: nat, b: nat)
    requires a < b
    ensures Pow2(a) < Pow2(b)
  {
    if a < b - 1 { PowersGrow(a, b - 1); }
  }

  lemma CeilLog2Is(a: limb, k: nat)
    requires a <= Pow2(k) && (0 < k ==> Pow2(k - 1) < a) && 0 < a
    ensures CeilLog2(a) == k
  {
    hide Pow2, CeilLog2;
    var l := CeilLog2(a);
    if l < k - 1 { PowersGrow(l, k - 1); } else if k < l - 1 { PowersGrow(k, l - 1); }
    Pow2One();
  }

  lemma LeadingOne(v: limb)
    requires v != 0
    ensures var k := LIMB_BITS - Clz(v); Pow2(k - 1) <= v < Pow2(k)
  {
    hide Pow2, Clz;
    var c := Clz(v);
    Pow2Limb();
    Pow2Add(LIMB_BITS - c, c);
    Pow2Add(LIMB_BITS - c - 1, c);
    Pow2Add(LIMB_BITS - c - 1, 1);
    Pow2One();
    Between(v, Pow2(LIMB_BITS - c - 1), Pow2(c));
  }

  lemma Between(v: limb, h: nat, p: nat)
    requires 0 < p && (2 * h) * p == B && HALF <= v * p < B
    ensures h <= v < 2 * h
  {
    assert (2 * h) * p == 2 * (h * p);
    LtMul(v, 2 * h, p);
    LeMul(h, v, p);
  }

  lemma ShiftBelow(v: limb, k: nat)
    requires v != 0 && v * Pow2(k) < B
    ensures k < LIMB_BITS
  {
    if LIMB_BITS <= k {
      Pow2Up(LIMB_BITS, k);
      Pow2Limb();
      MulLe(1, v, Pow2(k));
    }
  }
}
