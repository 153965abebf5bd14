/**
 From the transforms back to limbs (put_bits and ntt_to_limb in libbf.c): the
 Chinese remainder form of each coefficient, its limbs, and the carry from one
 digit to the next.
 */
module FftBack {
  import opened Limbs
  import opened MpBase
  import opened Congruence
  import opened Udiv
  import opened Dft
  import opened Rounding
  import opened BfBits
  import opened NttArith
  import opened NttPass
  import opened NttRoots
  import opened FftDigits
  import opened FftLimbs

  // ---------------------------------------------------------------- put_bits

  /** Adding to one limb. */
  lemma {:induction false} Bumped(s: seq<limb>, t: seq<limb>, o: nat, n: nat, i: nat, d: int)
    requires i < n && o + n <= |s| == |t| && t == s[o + i := t[o + i]] && t[o + i] == s[o + i] + d
    ensures V(t, o, n) == V(s, o, n) + d * BP(i)
    decreases n
  {
    hide BP;
    if i + 1 < n {
      Bumped(s, t, o, n - 1, i, d);
    } else {
      VOnly(s, t, o, i, o + i, 1);
      Dist(s[o + i], d, BP(i));
    }
  }

  /** Nothing is stored at bit pos or above. */
  lemma FreeBits(s: seq<limb>, o: nat, n: nat, pos: nat)
    requires o + n <= |s| && V(s, o, n) < Pow2(pos)
    ensures var i := pos / LIMB_BITS;
      && (i < n ==> s[o + i] < Pow2(pos % LIMB_BITS) && V(s, o + i, n - i) < Pow2(pos % LIMB_BITS))
      && (i + 1 < n ==> s[o + i + 1] == 0)
  {
    hide V, BP, Pow2;
    var i, p := pos / LIMB_BITS, pos % LIMB_BITS;
    BitPlace(pos, i, p);
    if i < n {
      VSplit(s, o, i, n - i);
      LtMul(V(s, o + i, n - i), Pow2(p), BP(i));
      VLow(s, o + i, n - i - 1);
      if i + 1 < n {
        SmallShift(p);
        VLow(s, o + i + 1, n - i - 2);
      }
    }
  }

  lemma SmallShift(p: nat)
    requires p < LIMB_BITS
    ensures Pow2(p) < B
  {
    hide Pow2;
    if p == 0 { Pow2One(); } else { LimbPow2(p); MulLe(2, Pow2(LIMB_BITS - p), Pow2(p)); }
  }

  /** A limb shifted up by p bits, as the part that stays and the part for the next limb. */
  lemma ShiftParts(val: limb, p: nat)
    requires 1 <= p < LIMB_BITS
    ensures 0 < Pow2(LIMB_BITS - p) && val * Pow2(p) == Wrap(val * Pow2(p)) + val / Pow2(LIMB_BITS - p) * B
    ensures 0 <= val / Pow2(LIMB_BITS - p) < Pow2(p)
    ensures Wrap(val * Pow2(p)) + Pow2(p) <= B
  {
    hide Pow2;
    LimbPow2(p);
    var u, q := Pow2(p), Pow2(LIMB_BITS - p);
    DivMod(val, q);
    var h, r := val / q, val % q;
    Dist(h * q, r, u);
    assert h * q * u == h * B by { assert h * q * u == h * (u * q); }
    MulLe(r + 1, q, u);
    MulLe(0, r, u);
    Dist(r, 1, u);
    Rem(val * u, h, r * u, B);
    LtMul(h, u, q);
  }

  /** The or of the source adds here, since the bits from `pos` on are free. */
  method PutBits(tab: array<limb>, o: nat, len: nat, pos: nat, val: limb)
    requires o + len <= tab.Length && V(tab[..], o, len) < Pow2(pos)
    modifies tab
    ensures Only(old(tab[..]), tab[..], o, len)
    ensures var sum := V(old(tab[..]), o, len) + val * Pow2(pos); sum < BP(len) ==> V(tab[..], o, len) == sum
  {
    hide V, BP, Pow2, Wrap;
    ghost var s := tab[..];
    var i, p := pos / LIMB_BITS, pos % LIMB_BITS;
    FreeBits(s, o, len, pos);
    BitPlace(pos, i, p);
    ghost var low: int, high: int := val, 0;
    if p == 0 { Pow2One(); } else { ShiftParts(val, p); low, high := Wrap(val * Pow2(p)), val / Pow2(LIMB_BITS - p); }
    if i < len {
      if p != 0 { tab[o + i] := tab[o + i] + Wrap(val * Pow2(p)); } else { tab[o + i] := tab[o + i] + val; }
      Bumped(s, tab[..], o, len, i, low);
    }
    ghost var t := tab[..];
    if p != 0 {
      if i + 1 < len {
        tab[o + i + 1] := tab[o + i + 1] + val / Pow2(LIMB_BITS - p);
        Bumped(t, tab[..], o, len, i + 1, high);
      }
    }
    Placed(V(s, o, len), val, low, high, i, Pow2(p), len);
  }

  /** Where the parts of a limb end up. */
  lemma Placed(v: nat, val: nat, low: int, high: int, i: nat, u: nat, len: nat)
    requires val * u == low + high * B && 0 <= low && 0 <= high && 0 < u
    ensures val * (BP(i) * u) == low * BP(i) + high * BP(i + 1)
    ensures v + val * (BP(i) * u) < BP(len) ==> (i < len || low == 0) && (i + 1 < len || high == 0)
  {
    hide BP;
    VNextPower(i);
    Assoc(val, BP(i), u);
    Dist(low, high * B, BP(i));
    assert val * (BP(i) * u) == (val * u) * BP(i);
    assert high * B * BP(i) == high * (B * BP(i));
    if len <= i { BPUp(len, i); if low != 0 { MulLe(1, low, BP(i)); MulLe(0, high, BP(i + 1)); } }
    if len <= i + 1 { BPUp(len, i + 1); if high != 0 { MulLe(1, high, BP(i + 1)); MulLe(0, low, BP(i)); } }
  }

  // ------------------------------------------------- Chinese remainder digits

  /** Inverses of one modulus modulo a later one, row by row. */
  const NTT_MODS_CR: seq<limb> := [
    0x0449559a, 0x1eba6ca9, 0x2ec18e46, 0x0860160b,
    0x0d321307, 0x0bf51120, 0x0f662938,
    0x0932ab3e, 0x2f40eef8,
    0x2e760905
  ]

  /** The place of the pair j < k in the table. */
  function CrIndex(j: nat, k: nat): (l: nat)
    requires j < k < NB_MODS
    ensures l < |NTT_MODS_CR|
  {
    match j {
      case 0 => k - 1
      case 1 => k + 2
      case 2 => k + 4
      case _ => 9
    }
  }

  lemma CrInverse(j: nat, k: nat)
    requires j < k < NB_MODS
    ensures NTT_MODS_CR[CrIndex(j, k)] < NTT_MODS[k] && NTT_MODS[j] < NTT_MODS[k]
    ensures Cong(NTT_MODS_CR[CrIndex(j, k)] as int * NTT_MODS[j], 1, NTT_MODS[k])
  {
    ghost var c, m, n := NTT_MODS_CR[CrIndex(j, k)] as int, NTT_MODS[j] as int, NTT_MODS[k];
    ghost var q := CrQuotient(j, k);
    assert c * m == q * n + 1;
    CongBy(c * m, 1, q, n);
  }

  ghost function CrQuotient(j: nat, k: nat): int
    requires j < k < NB_MODS
  {
    match j {
      case 0 => (match k { case 1 => 0x4395599 case 2 => 0x1c6a6ca8 case 3 => 0x2af18e45 case _ => 0x6d0160a })
      case 1 => (match k { case 2 => 0xc621306 case 3 => 0xb25111f case _ => 0xcb62937 })
      case 2 => (match k { case 3 => 0x922ab3d case _ => 0x2990eef7 })
      case _ => 0x29260904
    }
  }

  /** The last nb moduli, which are the ones in use. */
  function Mods(nb: nat): (ms: seq<limb>)
    requires nb <= NB_MODS
    ensures |ms| == nb
    ensures forall j :: 0 <= j < nb ==> Modulus(ms[j])
  {
    NTT_MODS[NB_MODS - nb..]
  }

  /** Entries lo to hi are the remainders of the same number. */
  ghost predicate Rests(y: seq<limb>, r: nat, ms: seq<limb>, lo: nat, hi: nat)
    requires hi <= |ms| <= |y| && forall e :: 0 <= e < |ms| ==> 0 < ms[e]
  {
    forall e :: lo <= e < hi ==> y[e] == r % ms[e]
  }

  /** The first n entries are mixed radix digits. */
  ghost predicate MixedTo(y: seq<limb>, v: nat, ms: seq<limb>, n: nat)
    requires n <= |ms| <= |y| && forall e :: 0 <= e < |ms| ==> 0 < ms[e]
  {
    forall e :: 0 <= e < n ==> y[e] == MixedRest(v, ms, e) % ms[e]
  }

  /** Garner's algorithm: remainders become mixed radix digits. */
  method MixedDigits(y: array<limb>, nb: nat, ghost v: nat)
    requires 2 <= nb <= NB_MODS == y.Length && Rests(y[..], v, Mods(nb), 0, nb)
    modifies y
    ensures MixedTo(y[..], v, Mods(nb), nb)
  {
    hide MixedRest, CrIndex;
    ghost var ms, first := Mods(nb), NB_MODS - nb;
    MixedStart(v, ms);
    var l := NB_MODS * (NB_MODS - 1) / 2 - nb * (nb - 1) / 2;
    FirstCr(nb);
    for j := 0 to nb - 1
      invariant first + j + 1 < NB_MODS ==> l == CrIndex(first + j, first + j + 1)
      invariant MixedTo(y[..], v, ms, j) && Rests(y[..], MixedRest(v, ms, j), ms, j, nb)
    {
      l := EliminateRow(y, nb, j, l, v);
    }
  }

  method EliminateRow(y: array<limb>, nb: nat, j: nat, l0: nat, ghost v: nat) returns (l: nat)
    requires 2 <= nb <= NB_MODS == y.Length && j + 1 < nb && l0 == CrIndex(NB_MODS - nb + j, NB_MODS - nb + j + 1)
    requires Rests(y[..], MixedRest(v, Mods(nb), j), Mods(nb), j, nb)
    modifies y
    ensures forall e :: 0 <= e <= j ==> y[e] == old(y[e])
    ensures Rests(y[..], MixedRest(v, Mods(nb), j + 1), Mods(nb), j + 1, nb)
    ensures var k := NB_MODS - nb + j + 1; k + 1 < NB_MODS ==> l == CrIndex(k, k + 1)
  {
    hide MixedRest, CrIndex, InitMulModFast2, MulModFast2, Mods;
    var ms := Mods(nb);
    ghost var first, was := NB_MODS - nb, y[..];
    l := l0;
    for k := j + 1 to nb
      invariant k < nb ==> l == CrIndex(first + j, first + k)
      invariant k == nb && first + j + 2 < NB_MODS ==> l == CrIndex(first + j + 1, first + j + 2)
      invariant forall e :: 0 <= e <= j ==> y[e] == was[e]
      invariant Rests(y[..], MixedRest(v, ms, j + 1), ms, j + 1, k) && Rests(y[..], MixedRest(v, ms, j), ms, k, nb)
    {
      var m := ms[k];
      var c := NTT_MODS_CR[l];
      assert was[j] == MixedRest(v, ms, j) % ms[j];
      EliminateListed(v, nb, j, k, y[j], y[k], c);
      y[k] := MulModFast2(y[k] as int - y[j] + m, c, m, InitMulModFast2(c, m));
      l := l + 1;
      NextCr(first + j, first + k);
    }
  }

  lemma MixedStart(v: nat, ms: seq<limb>)
    requires forall e :: 0 <= e < |ms| ==> 0 < ms[e]
    ensures MixedRest(v, ms, 0) == v
  {
  }

  lemma FirstCr(nb: nat)
    requires 2 <= nb <= NB_MODS
    ensures CrIndex(NB_MODS - nb, NB_MODS - nb + 1) == NB_MODS * (NB_MODS - 1) / 2 - nb * (nb - 1) / 2
  {
    assert nb == 2 || nb == 3 || nb == 4 || nb == 5;
  }

  /** The table is read in order. */
  lemma NextCr(j: nat, k: nat)
    requires j < k < NB_MODS
    ensures k + 1 < NB_MODS ==> CrIndex(j, k) + 1 == CrIndex(j, k + 1)
    ensures k + 1 == NB_MODS && j + 2 < NB_MODS ==> CrIndex(j, k) + 1 == CrIndex(j + 1, j + 2)
  {
  }

  lemma EliminateListed(v: nat, nb: nat, j: nat, k: nat, yj: limb, yk: limb, c: limb)
    requires j < k < nb <= NB_MODS && c == NTT_MODS_CR[CrIndex(NB_MODS - nb + j, NB_MODS - nb + k)]
    requires yj == MixedRest(v, Mods(nb), j) % Mods(nb)[j] && yk == MixedRest(v, Mods(nb), j) % Mods(nb)[k]
    ensures c < Mods(nb)[k] && 0 < yk as int - yj + Mods(nb)[k] < B
    ensures (yk as int - yj + Mods(nb)[k]) * c % Mods(nb)[k] == MixedRest(v, Mods(nb), j + 1) % Mods(nb)[k]
  {
    hide MixedRest, CrIndex, Cong;
    CrInverse(NB_MODS - nb + j, NB_MODS - nb + k);
    EliminateDigit(v, Mods(nb), j, k, yj, yk, c);
  }

  lemma EliminateDigit(v: nat, ms: seq<limb>, j: nat, k: nat, yj: limb, yk: limb, c: limb)
    requires j < k < |ms| && (forall e :: 0 <= e < |ms| ==> 0 < ms[e]) && ms[j] < ms[k] && c < ms[k]
    requires yj == MixedRest(v, ms, j) % ms[j] && yk == MixedRest(v, ms, j) % ms[k]
    requires Cong(c as int * ms[j], 1, ms[k])
    ensures 0 < yk as int - yj + ms[k] < 2 * ms[k] as int
    ensures (yk as int - yj + ms[k]) * c % ms[k] == MixedRest(v, ms, j + 1) % ms[k]
  {
    var r := MixedRest(v, ms, j);
    CongMod(r, ms[j]);
    CongMod(r, ms[k]);
    Eliminate(r, yj, yk, ms[j], ms[k], c);
  }

  // --------------------------------------------------------------- the limbs

  /** u := u * m + r0 + carry, one limb at a time. */
  method ScaleAddCarry(u: array<limb>, l: nat, m: limb, r0: limb, carry: array<limb>) returns (r: limb)
    requires l <= u.Length && l <= carry.Length && u != carry && m < P_MAX
    modifies u
    ensures Only(old(u[..]), u[..], 0, l)
    ensures V(u[..], 0, l) + r * BP(l) == V(old(u[..]), 0, l) * m + r0 + V(carry[..], 0, l)
  {
    ghost var s, c := u[..], carry[..];
    r := r0;
    for k := 0 to l
      invariant carry[..] == c && Only(s, u[..], 0, k)
      invariant V(u[..], 0, k) + r * BP(k) == V(s, 0, k) * m + r0 + V(c, 0, k)
    {
      ghost var before, r1 := u[..], r;
      var d := u[k];
      assert d == s[k];
      SmallProduct(d, m);
      var t := (d as int) * (m as int) + r + carry[k];
      r := t / B;
      u[k] := Wrap(t);
      Wrote(before, u[..], 0, k);
      Carry(t % B, r, t, BP(k));
      ScaledStep(V(s, 0, k), d, m, r1, c[k], BP(k));
    }
  }

  lemma SmallProduct(d: limb, m: limb)
    requires m < P_MAX
    ensures 0 <= (d as int) * (m as int) <= (B - 1) * (P_MAX - 1)
  {
    MulLe(d, B - 1, m);
    MulLe(m, P_MAX - 1, B - 1);
    MulLe(0, d, m);
  }

  lemma ScaledStep(v: int, d: int, m: int, r: int, c: int, p: int)
    ensures (d * m + r + c) * p == d * p * m + r * p + c * p && (v + d * p) * m == v * m + d * p * m
  {
    Dist(d * m + r, c, p);
    MulStep(v, d, m, r, p);
  }

  /** From mixed radix digits to limbs, adding the carry of the digit below. */
  method Recompose(y: array<limb>, nb: nat, carry: array<limb>, u: array<limb>, ghost v: nat)
    requires 2 <= nb <= NB_MODS == y.Length == carry.Length == u.Length && u != y && u != carry
    requires MixedTo(y[..], v, Mods(nb), nb) && v < ModProduct(Mods(nb), nb)
    requires v + V(carry[..], 0, nb) < BP(nb)
    modifies u
    ensures V(u[..], 0, nb) == v + V(carry[..], 0, nb)
  {
    hide V, BP, MixedRest, ModProduct, Mods;
    var ms := Mods(nb);
    ghost var ys := y[..];
    MixedLast(v, ms);
    u[0] := y[nb - 1];
    assert u[0] == MixedRest(v, ms, nb - 1) by { LastDigit(ys, v, ms, nb); }
    VOne(u[..], 0);
    var l, j := 1, nb - 2;
    while 1 <= j
      invariant 0 <= j && l == nb - 1 - j && y[..] == ys
      invariant V(u[..], 0, l) == MixedRest(v, ms, j + 1)
      decreases j
    {
      ghost var s := u[..];
      var r := MpMul1(u, 0, u, 0, l, ms[j], y[j]);
      MixedStep(ys, v, ms, j, nb);
      ghost var t := u[..];
      u[l] := r;
      Wrote(t, u[..], 0, l);
      l := l + 1;
      j := j - 1;
    }
    MixedStep(ys, v, ms, 0, nb);
    MixedStart(v, ms);
    var r := ScaleAddCarry(u, l, ms[0], y[0], carry);
    VNext(carry[..], 0, l);
    ghost var t := u[..];
    FitsTop(V(t, 0, l), r as int + carry[l], BP(l), v + V(carry[..], 0, nb));
    u[l] := r + carry[l];
    Wrote(t, u[..], 0, l);
  }

  lemma FitsTop(low: int, d: int, p: int, total: int)
    requires 0 <= low && 0 < p && low + d * p == total < B * p
    ensures d < B
  {
    LtMul(d, B, p);
  }

  lemma LastDigit(ys: seq<limb>, v: nat, ms: seq<limb>, nb: nat)
    requires 1 <= nb == |ms| <= |ys| && (forall e :: 0 <= e < |ms| ==> 0 < ms[e])
    requires MixedTo(ys, v, ms, nb) && MixedRest(v, ms, nb - 1) < ms[nb - 1]
    ensures ys[nb - 1] == MixedRest(v, ms, nb - 1)
  {
    hide MixedRest;
    assert ys[nb - 1] == MixedRest(v, ms, nb - 1) % ms[nb - 1];
    Rem(MixedRest(v, ms, nb - 1), 0, MixedRest(v, ms, nb - 1), ms[nb - 1]);
  }

  lemma MixedStep(ys: seq<limb>, v: nat, ms: seq<limb>, j: nat, nb: nat)
    requires j < nb == |ms| <= |ys| && (forall e :: 0 <= e < |ms| ==> 0 < ms[e]) && MixedTo(ys, v, ms, nb)
    ensures MixedRest(v, ms, j + 1) * ms[j] + ys[j] == MixedRest(v, ms, j)
  {
    assert ys[j] == MixedRest(v, ms, j) % ms[j];
    DivMod(MixedRest(v, ms, j), ms[j]);
  }

  // ------------------------------------------------- the digit and the carry

  /** The limbs of one digit, the last one masked. */
  method WriteDigit(tabr: array<limb>, o: nat, rLen: nat, pos0: nat, u: array<limb>, nb: nat, dpl: nat)
    requires tabr != u && o + rLen <= tabr.Length && nb <= u.Length && 1 <= dpl <= LIMB_BITS * nb
    requires V(tabr[..], o, rLen) < Pow2(pos0)
    requires V(tabr[..], o, rLen) + (V(u[..], 0, nb) % Pow2(dpl)) * Pow2(pos0) < BP(rLen)
    modifies tabr
    ensures Only(old(tabr[..]), tabr[..], o, rLen)
    ensures V(tabr[..], o, rLen) == old(V(tabr[..], o, rLen)) + (V(u[..], 0, nb) % Pow2(dpl)) * Pow2(pos0)
  {
    hide V, BP, Pow2, MaskBits;
    var nLimb1, shift := (dpl - 1) / LIMB_BITS, dpl % LIMB_BITS;
    ghost var us, s := u[..], tabr[..];
    ghost var v0, p := V(s, o, rLen), Pow2(pos0);
    DigitLimbs(us, nb, dpl, nLimb1);
    Empty(us, 0);
    var pos := pos0;
    for j := 0 to nLimb1
      invariant u[..] == us && pos == pos0 + LIMB_BITS * j && Only(s, tabr[..], o, rLen)
      invariant V(tabr[..], o, rLen) == v0 + V(us, 0, j) * p
    {
      PieceFits(us, nb, dpl, nLimb1, j, v0, pos0, BP(rLen));
      ghost var t := tabr[..];
      PutBits(tabr, o, rLen, pos, u[j]);
      OnlyThen(s, t, tabr[..], o, rLen);
      pos := pos + LIMB_BITS;
    }
    LastFits(us, nb, dpl, nLimb1, v0, pos0, BP(rLen));
    ghost var t := tabr[..];
    PutBits(tabr, o, rLen, pos, MaskBits(u[nLimb1], shift));
    OnlyThen(s, t, tabr[..], o, rLen);
  }

  /** A digit by its limbs. */
  lemma DigitLimbs(us: seq<limb>, nb: nat, dpl: nat, n: nat)
    requires nb <= |us| && 1 <= dpl <= LIMB_BITS * nb && n == (dpl - 1) / LIMB_BITS
    ensures n < nb
    ensures V(us, 0, nb) % Pow2(dpl) == V(us, 0, n) + MaskBits(us[n], dpl % LIMB_BITS) * BP(n)
  {
    hide V, BP, Pow2, MaskBits;
    var bits := dpl - LIMB_BITS * n;
    assert 1 <= bits <= LIMB_BITS && bits % LIMB_BITS == dpl % LIMB_BITS && n < nb;
    LowLimb(us, n, nb - n, bits);
    HighLimbs(us, 0, n, nb);
    LimbSplit(V(us, 0, nb), n, bits, V(us, 0, n), V(us, n, nb - n));
  }

  lemma LimbSplit(v: nat, n: nat, bits: nat, low: nat, high: nat)
    requires v / BP(n) == high && v % BP(n) == low
    ensures v % Pow2(LIMB_BITS * n + bits) == low + (high % Pow2(bits)) * BP(n)
  {
    hide BP, Pow2;
    LowSplit(v, LIMB_BITS * n, bits);
    BitsOfLimbs(n);
  }

  lemma LowLimb(us: seq<limb>, n: nat, h: nat, bits: nat)
    requires 1 <= h && n + h <= |us| && 1 <= bits <= LIMB_BITS
    ensures V(us, n, h) % Pow2(bits) == MaskBits(us[n], bits % LIMB_BITS)
  {
    hide V, BP, Pow2, MaskBits;
    VLow(us, n, h - 1);
    QuotientIs(V(us, n, h), B, V(us, n + 1, h - 1), us[n]);
    MaskedLimb(V(us, n, h), bits);
  }

  /** The next whole limb of a digit can be added. */
  lemma PieceFits(us: seq<limb>, nb: nat, dpl: nat, n: nat, j: nat, v0: nat, pos0: nat, bound: int)
    requires nb <= |us| && 1 <= dpl <= LIMB_BITS * nb && n == (dpl - 1) / LIMB_BITS && j < n < nb && v0 < Pow2(pos0)
    requires V(us, 0, nb) % Pow2(dpl) == V(us, 0, n) + MaskBits(us[n], dpl % LIMB_BITS) * BP(n)
    requires v0 + (V(us, 0, nb) % Pow2(dpl)) * Pow2(pos0) < bound
    ensures v0 + V(us, 0, j) * Pow2(pos0) < Pow2(pos0 + LIMB_BITS * j)
    ensures V(us, 0, j + 1) * Pow2(pos0) == V(us, 0, j) * Pow2(pos0) + us[j] * Pow2(pos0 + LIMB_BITS * j)
    ensures v0 + V(us, 0, j + 1) * Pow2(pos0) < bound
  {
    hide V, BP, Pow2, MaskBits;
    PiecePlace(us, j, v0, pos0);
    VPrefix(us, j + 1, n);
    MulLe(0, MaskBits(us[n], dpl % LIMB_BITS), BP(n));
    MulLe(V(us, 0, j + 1), V(us, 0, nb) % Pow2(dpl), Pow2(pos0));
    VNext(us, 0, j);
    Dist(V(us, 0, j), us[j] * BP(j), Pow2(pos0));
    Assoc(us[j], BP(j), Pow2(pos0));
  }

  lemma PiecePlace(us: seq<limb>, j: nat, v0: nat, pos0: nat)
    requires j <= |us| && v0 < Pow2(pos0)
    ensures Pow2(pos0 + LIMB_BITS * j) == BP(j) * Pow2(pos0)
    ensures v0 + V(us, 0, j) * Pow2(pos0) < Pow2(pos0 + LIMB_BITS * j)
  {
    hide V, BP, Pow2;
    Pow2Add(pos0, LIMB_BITS * j);
    BitsOfLimbs(j);
    VBound(us, 0, j);
    MulLe(V(us, 0, j) + 1, BP(j), Pow2(pos0));
    Dist(V(us, 0, j), 1, Pow2(pos0));
  }

  lemma {:induction false} VPrefix(us: seq<limb>, j: nat, n: nat)
    requires j <= n <= |us|
    ensures V(us, 0, j) <= V(us, 0, n)
  {
    if j < n {
      VPrefix(us, j, n - 1);
      MulLe(0, us[n - 1], BP(n - 1));
    }
  }

  lemma LastFits(us: seq<limb>, nb: nat, dpl: nat, n: nat, v0: nat, pos0: nat, bound: int)
    requires nb <= |us| && 1 <= dpl <= LIMB_BITS * nb && n == (dpl - 1) / LIMB_BITS && n < nb && v0 < Pow2(pos0)
    requires V(us, 0, nb) % Pow2(dpl) == V(us, 0, n) + MaskBits(us[n], dpl % LIMB_BITS) * BP(n)
    requires v0 + (V(us, 0, nb) % Pow2(dpl)) * Pow2(pos0) < bound
    ensures v0 + V(us, 0, n) * Pow2(pos0) < Pow2(pos0 + LIMB_BITS * n)
    ensures (V(us, 0, nb) % Pow2(dpl)) * Pow2(pos0) ==
      V(us, 0, n) * Pow2(pos0) + MaskBits(us[n], dpl % LIMB_BITS) * Pow2(pos0 + LIMB_BITS * n)
  {
    hide V, BP, Pow2, MaskBits;
    PiecePlace(us, n, v0, pos0);
    Dist(V(us, 0, n), MaskBits(us[n], dpl % LIMB_BITS) * BP(n), Pow2(pos0));
    Assoc(MaskBits(us[n], dpl % LIMB_BITS), BP(n), Pow2(pos0));
  }

  /** What is left of the coefficient above its digit becomes the carry. */
  method ShiftCarry(u: array<limb>, carry: array<limb>, nb: nat, dpl: nat)
    requires u != carry && nb <= u.Length && nb <= carry.Length && 1 <= dpl <= LIMB_BITS * nb
    requires forall e :: nb - (dpl - 1) / LIMB_BITS <= e < nb ==> carry[e] == 0
    requires dpl % LIMB_BITS == 0 ==> carry[nb - (dpl - 1) / LIMB_BITS - 1] == 0
    modifies carry
    ensures forall e :: nb - (dpl - 1) / LIMB_BITS <= e < nb ==> carry[e] == 0
    ensures dpl % LIMB_BITS == 0 ==> carry[nb - (dpl - 1) / LIMB_BITS - 1] == 0
    ensures V(carry[..], 0, nb) == V(u[..], 0, nb) / Pow2(dpl)
  {
    hide V, BP, Pow2;
    var nLimb1, shift := (dpl - 1) / LIMB_BITS, dpl % LIMB_BITS;
    if shift == 0 {
      ghost var us := u[..];
      for j := nLimb1 + 1 to nb
        invariant u[..] == us
        invariant forall e :: nb - nLimb1 - 1 <= e < nb ==> carry[e] == 0
        invariant forall e :: 0 <= e < j - nLimb1 - 1 ==> carry[e] == us[nLimb1 + 1 + e]
      {
        carry[j - (nLimb1 + 1)] := u[j];
      }
      CarryMoved(us, carry[..], nb, nLimb1 + 1);
      assert dpl == LIMB_BITS * (nLimb1 + 1);
    } else {
      ShiftLimbs(u, carry, nb, nLimb1, shift);
      assert dpl == LIMB_BITS * nLimb1 + shift;
    }
  }

  method ShiftLimbs(u: array<limb>, carry: array<limb>, nb: nat, nLimb1: nat, shift: nat)
    requires u != carry && nb <= u.Length && nb <= carry.Length && nLimb1 < nb && 1 <= shift < LIMB_BITS
    requires forall e :: nb - nLimb1 <= e < nb ==> carry[e] == 0
    modifies carry
    ensures forall e :: nb - nLimb1 <= e < nb ==> carry[e] == 0
    ensures V(carry[..], 0, nb) == V(u[..], 0, nb) / Pow2(LIMB_BITS * nLimb1 + shift)
  {
    hide V, BP, Pow2, Wrap;
    ghost var us := u[..];
    var p, q := Pow2(shift), Pow2(LIMB_BITS - shift);
    LimbPow2(shift);
    Empty(us, nLimb1);
    Empty(carry[..], 0);
    for j := nLimb1 to nb - 1
      invariant u[..] == us
      invariant forall e :: nb - nLimb1 <= e < nb ==> carry[e] == 0
      invariant ShiftedTo(us, carry[..], nLimb1, j - nLimb1, p)
    {
      ghost var before := carry[..];
      ShiftLimb(u[j], u[j + 1], p, q);
      carry[j - nLimb1] := u[j] / p + Wrap(u[j + 1] * q);
      ShiftedNext(us, before, carry[..], nLimb1, j - nLimb1, p, us[j + 1] % p);
    }
    ghost var before, h := carry[..], nb - 1 - nLimb1;
    TopCarry(u[nb - 1], p);
    carry[nb - 1 - nLimb1] := u[nb - 1] / p;
    ShiftedNext(us, before, carry[..], nLimb1, h, p, 0);
    Dist(0, 0, BP(h + 1));
    CarryShifted(us, carry[..], nb, nLimb1, shift);
  }

  lemma TopCarry(u: limb, p: nat)
    requires 0 < p
    ensures 0 <= u / p < B && (u / p) * p + u % p == u
  {
    DivMod(u, p);
    if B <= u / p { MulLe(B, u / p, p); MulLe(1, p, B); }
  }

  /** The first e limbs of the carry are in place. */
  ghost predicate ShiftedTo(us: seq<limb>, c: seq<limb>, n: nat, e: nat, p: nat)
    requires n + e < |us| && e <= |c| && 0 < p
  {
    V(c, 0, e) * p + us[n] % p == V(us, n, e) + (us[n + e] % p) * BP(e)
  }

  lemma ShiftedNext(us: seq<limb>, c: seq<limb>, c': seq<limb>, n: nat, e: nat, p: nat, r1: int)
    requires n + e < |us| && e < |c| == |c'| && 0 < p && ShiftedTo(us, c, n, e, p)
    requires c' == c[e := c'[e]] && c'[e] * p + us[n + e] % p == r1 * B + us[n + e]
    ensures V(c', 0, e + 1) * p + us[n] % p == V(us, n, e + 1) + r1 * BP(e + 1)
  {
    hide V, BP;
    Wrote(c, c', 0, e);
    CarryStep(V(c, 0, e), c'[e], us[n] % p, V(us, n, e), us[n + e], us[n + e] % p, r1, p, BP(e));
    VNext(us, n, e);
  }

  lemma CarryStep(vc: int, c: int, low: int, vu: int, u: int, r0: int, r1: int, p: int, b: int)
    requires vc * p + low == vu + r0 * b && c * p + r0 == r1 * B + u
    ensures (vc + c * b) * p + low == (vu + u * b) + r1 * (B * b)
  {
    Dist(vc, c * b, p);
    assert c * b * p == c * p * b;
    Dist(c * p, r0, b);
    Dist(r1 * B, u, b);
    Assoc(r1, B, b);
  }

  lemma ZeroTop(c: seq<limb>, m: nat, n: nat)
    requires m <= n <= |c| && forall e :: m <= e < n ==> c[e] == 0
    ensures V(c, 0, n) == V(c, 0, m)
  {
    hide V, BP;
    VSplit(c, 0, m, n - m);
    VZero(c, m, n - m);
  }

  lemma CarryMoved(us: seq<limb>, c: seq<limb>, nb: nat, n: nat)
    requires n <= nb <= |us| && nb <= |c| && (forall e :: nb - n <= e < nb ==> c[e] == 0)
    requires forall e :: 0 <= e < nb - n ==> c[e] == us[n + e]
    ensures V(c, 0, nb) == V(us, 0, nb) / Pow2(LIMB_BITS * n)
  {
    hide V, BP, Pow2;
    ZeroTop(c, nb - n, nb);
    assert c[0..0 + (nb - n)] == us[n..n + (nb - n)];
    VSame(c, 0, us, n, nb - n);
    HighLimbs(us, 0, n, nb);
    BitsOfLimbs(n);
  }

  lemma CarryShifted(us: seq<limb>, c: seq<limb>, nb: nat, n: nat, shift: nat)
    requires n < nb <= |us| && nb <= |c| && (forall e :: nb - n <= e < nb ==> c[e] == 0) && 1 <= shift < LIMB_BITS
    requires V(c, 0, nb - n) * Pow2(shift) + us[n] % Pow2(shift) == V(us, n, nb - n)
    ensures V(c, 0, nb) == V(us, 0, nb) / Pow2(LIMB_BITS * n + shift)
  {
    hide V, BP, Pow2;
    ZeroTop(c, nb - n, nb);
    HighLimbs(us, 0, n, nb);
    BitsOfLimbs(n);
    Pow2Add(LIMB_BITS * n, shift);
    DivTwice(V(us, 0, nb), BP(n), Pow2(shift));
    DivModAny(us[n], Pow2(shift));
    QuotientIs(V(us, n, nb - n), Pow2(shift), V(c, 0, nb), us[n] % Pow2(shift));
  }

  // ------------------------------------------------------------- ntt_to_limb

  /** The remainders of coefficient `v`, as the transforms give them. */
  ghost predicate Remainders(bufs: seq<seq<limb>>, c: seq<int>, nb: nat)
    requires nb <= NB_MODS
  {
    |bufs| == nb && forall j :: 0 <= j < nb ==> EntriesBelow(bufs[j], 2 * Mods(nb)[j]) && SameMod(bufs[j], c, Mods(nb)[j])
  }

  /** Coefficients that the moduli in use can tell apart. */
  ghost predicate InRange(c: seq<int>, nb: nat)
    requires nb <= NB_MODS
  {
    forall i :: 0 <= i < |c| ==> 0 <= c[i] < ModProduct(Mods(nb), nb)
  }

  method ReadRemainders(bufs: seq<seq<limb>>, i: nat, nb: nat, y: array<limb>, ghost c: seq<int>)
    requires 2 <= nb <= NB_MODS == y.Length && Remainders(bufs, c, nb) && i < |c| && 0 <= c[i]
    modifies y
    ensures Rests(y[..], c[i], Mods(nb), 0, nb)
  {
    hide Mods;
    var ms := Mods(nb);
    for j := 0 to nb
      invariant Rests(y[..], c[i], ms, 0, j)
    {
      assert SameMod(bufs[j], c, ms[j]) && EntriesBelow(bufs[j], 2 * ms[j]);
      assert Cong(bufs[j][i], c[i], ms[j]);
      y[j] := NttLimbToInt(bufs[j][i], ms[j]);
    }
  }

  /** Twice what the moduli can tell apart fits in as many limbs. */
  lemma {:induction false} ProductFits(ms: seq<limb>, n: nat)
    requires n <= |ms| && 2 <= n && forall e :: 0 <= e < |ms| ==> Modulus(ms[e])
    ensures 2 * ModProduct(ms, n) <= BP(n)
  {
    if n == 2 {
      BPSmall();
      assert ModProduct(ms, 0) == 1 && ModProduct(ms, 1) == ms[0] && ModProduct(ms, 2) == ms[0] as int * ms[1];
      MulLe(ms[0], P_MAX, ms[1]);
      MulLe(ms[1], P_MAX, P_MAX);
    } else {
      ProductFits(ms, n - 1);
      ModProductPositive(ms, n - 1);
      MulLe(ms[n - 1], B, ModProduct(ms, n - 1));
      MulLe(2 * ModProduct(ms, n - 1), BP(n - 1), B);
    }
  }

  /** One digit more of the sum of the coefficients. */
  ghost predicate CarryState(vr: nat, vc: nat, c: seq<int>, i: nat, dpl: nat, nb: nat)
    requires nb <= NB_MODS && i <= |c|
  {
    0 <= i * dpl && vr < Pow2(i * dpl) && vc < ModProduct(Mods(nb), nb) &&
    vr + vc * Pow2(i * dpl) == Eval(c[..i], Pow2(dpl))
  }

  lemma {:induction false} EvalNonneg(c: seq<int>, x: nat)
    requires forall i :: 0 <= i < |c| ==> 0 <= c[i]
    ensures 0 <= Eval(c, x)
  {
    if c != [] {
      EvalNonneg(c[1..], x);
      MulLe(0, x, Eval(c[1..], x));
    }
  }

  /** A prefix of the sum and the rest. */
  lemma PrefixSum(c: seq<int>, i: nat, dpl: nat)
    requires i <= |c| && forall k :: 0 <= k < |c| ==> 0 <= c[k]
    ensures 0 <= i * dpl && 0 <= Eval(c[..i], Pow2(dpl)) && 0 <= Eval(c[i..], Pow2(dpl))
    ensures Eval(c, Pow2(dpl)) == Eval(c[..i], Pow2(dpl)) + Pow2(i * dpl) * Eval(c[i..], Pow2(dpl))
    ensures Eval(c[..i], Pow2(dpl)) <= Eval(c, Pow2(dpl))
  {
    hide Eval, Pow, Pow2;
    var x := Pow2(dpl);
    assert c == c[..i] + c[i..];
    EvalConcat(c[..i], c[i..], x);
    Pow2IsPow(dpl, i);
    EvalNonneg(c[..i], x);
    EvalNonneg(c[i..], x);
    MulLe(0, Eval(c[i..], x), Pow2(i * dpl));
  }

  lemma NextSum(c: seq<int>, i: nat, dpl: nat)
    requires i < |c|
    ensures 0 <= i * dpl && Eval(c[..i + 1], Pow2(dpl)) == Eval(c[..i], Pow2(dpl)) + Pow2(i * dpl) * c[i]
  {
    hide Eval, Pow, Pow2;
    PrefixEval(c, i + 1, Pow2(dpl));
    Pow2IsPow(dpl, i);
  }

  /** Coefficient and carry together still fit in the limbs. */
  lemma SumFitsLimbs(vc: nat, c: seq<int>, i: nat, nb: nat)
    requires 2 <= nb <= NB_MODS && i < |c| && InRange(c, nb) && vc < ModProduct(Mods(nb), nb)
    ensures 0 <= c[i] && c[i] + vc < 2 * ModProduct(Mods(nb), nb) <= BP(nb)
  {
    hide ModProduct, BP;
    ProductFits(Mods(nb), nb);
  }

  lemma CarryNext(vr: nat, vc: nat, c: seq<int>, i: nat, dpl: nat, nb: nat, bound: int)
    requires 2 <= nb <= NB_MODS && 1 <= dpl && i < |c| && InRange(c, nb) && CarryState(vr, vc, c, i, dpl, nb)
    requires Eval(c, Pow2(dpl)) < bound
    ensures 0 <= i * dpl && vr < Pow2(i * dpl) && 0 <= c[i] && 0 < Pow2(dpl)
    ensures var sum := c[i] + vc; 0 <= sum / Pow2(dpl) && 0 <= sum % Pow2(dpl)
    ensures var sum := c[i] + vc; vr + (sum % Pow2(dpl)) * Pow2(i * dpl) < bound
    ensures var sum := c[i] + vc;
      CarryState(vr + (sum % Pow2(dpl)) * Pow2(i * dpl), sum / Pow2(dpl), c, i + 1, dpl, nb)
  {
    hide Eval, Pow2, ModProduct, Mods, BP;
    var x, p, sum := Pow2(dpl), Pow2(i * dpl), c[i] + vc;
    SumFitsLimbs(vc, c, i, nb);
    NextSum(c, i, dpl);
    PrefixSum(c, i + 1, dpl);
    DivMod(sum, x);
    Dist(i, 1, dpl);
    Pow2Add(i * dpl, dpl);
    CarryArithmetic(vr, vc, c[i], sum / x, sum % x, x, p);
    Pow2One();
    Pow2Up(1, dpl);
    MulLe(2, x, sum / x);
  }

  lemma CarryArithmetic(vr: nat, vc: nat, ci: nat, q: nat, r: nat, x: nat, p: nat)
    requires ci + vc == q * x + r && r < x && vr < p
    ensures vr + r * p < p * x && 0 <= q * (p * x)
    ensures vr + r * p + q * (p * x) == vr + vc * p + p * ci
  {
    MulLe(r + 1, x, p);
    Dist(r, 1, p);
    MulLe(0, p, x);
    MulLe(0, q, p * x);
    Dist(ci, vc, p);
    Dist(q * x, r, p);
    assert q * (p * x) == q * x * p;
  }

  /** At the end no carry is left. */
  lemma CarryEnds(vr: nat, vc: nat, c: seq<int>, n: nat, dpl: nat, nb: nat, rLen: nat)
    requires nb <= NB_MODS && n <= |c| && InRange(c, nb) && CarryState(vr, vc, c, n, dpl, nb)
    requires Eval(c, Pow2(dpl)) < BP(rLen) && LIMB_BITS * rLen <= n * dpl
    ensures vr == Eval(c, Pow2(dpl))
  {
    hide Eval, Pow2, ModProduct, Mods, BP;
    var p := Pow2(n * dpl);
    PrefixSum(c, n, dpl);
    BitsOfLimbs(rLen);
    Pow2Up(LIMB_BITS * rLen, n * dpl);
    var rest := Eval(c[n..], Pow2(dpl));
    if 0 < vc { MulLe(1, vc, p); }
    if 0 < rest { MulLe(1, rest, p); }
  }

  lemma CarryStarts(t: seq<limb>, o: nat, rLen: nat, z: seq<limb>, c: seq<int>, dpl: nat, nb: nat)
    requires nb <= NB_MODS && o + rLen <= |t| && nb <= |z|
    requires (forall k :: o <= k < o + rLen ==> t[k] == 0) && forall k :: 0 <= k < nb ==> z[k] == 0
    ensures CarryState(V(t, o, rLen), V(z, 0, nb), c, 0, dpl, nb)
  {
    hide V, Pow2, ModProduct;
    VZero(t, o, rLen);
    VZero(z, 0, nb);
    ModProductPositive(Mods(nb), nb);
    Pow2One();
    assert c[..0] == [];
    assert Eval([], Pow2(dpl)) == 0;
  }

  /** The number whose coefficients have the given remainders. */
  method NttToLimb(tabr: array<limb>, o: nat, rLen: nat, bufs: seq<seq<limb>>, fftLen: nat, dpl: nat, nb: nat, ghost c: seq<int>)
    requires o + rLen <= tabr.Length && 2 <= nb <= NB_MODS && 1 <= dpl <= LIMB_BITS * nb
    requires |c| == fftLen && Remainders(bufs, c, nb) && InRange(c, nb)
    requires LIMB_BITS * rLen <= fftLen * dpl && Eval(c, Pow2(dpl)) < BP(rLen)
    modifies tabr
    ensures Only(old(tabr[..]), tabr[..], o, rLen)
    ensures V(tabr[..], o, rLen) == Eval(c, Pow2(dpl))
  {
    hide V, BP, Pow2, Eval, Remainders, InRange, CarryState, Rests, MixedTo, Mods, ModProduct, Only;
    ghost var s := tabr[..];
    var y, u, carry := new limb[NB_MODS](_ => 0), new limb[NB_MODS](_ => 0), new limb[NB_MODS](_ => 0);
    forall k | o <= k < o + rLen { tabr[k] := 0; }
    assert Only(s, tabr[..], o, rLen) by { Cleared(s, tabr[..], o, rLen); }
    CarryStarts(tabr[..], o, rLen, carry[..], c, dpl, nb);
    var digits := (rLen * LIMB_BITS + dpl - 1) / dpl;
    DigitCount(rLen, dpl, fftLen, digits);
    var len := if fftLen < digits then fftLen else digits;
    for i := 0 to len
      invariant y != u && y != carry && u != carry && fresh(y) && fresh(u) && fresh(carry)
      invariant y.Length == u.Length == carry.Length == NB_MODS
      invariant Only(s, tabr[..], o, rLen)
      invariant CarryState(V(tabr[..], o, rLen), V(carry[..], 0, nb), c, i, dpl, nb)
      invariant forall e :: nb - (dpl - 1) / LIMB_BITS <= e < nb ==> carry[e] == 0
      invariant dpl % LIMB_BITS == 0 ==> carry[nb - (dpl - 1) / LIMB_BITS - 1] == 0
    {
      ghost var t, vr, vc := tabr[..], V(tabr[..], o, rLen), V(carry[..], 0, nb);
      CarryNext(vr, vc, c, i, dpl, nb, BP(rLen));
      CoefficientFits(vc, c, i, dpl, nb, vr);
      ReadRemainders(bufs, i, nb, y, c);
      MixedDigits(y, nb, c[i]);
      Recompose(y, nb, carry, u, c[i]);
      WriteDigit(tabr, o, rLen, i * dpl, u, nb, dpl);
      OnlyThen(s, t, tabr[..], o, rLen);
      ShiftCarry(u, carry, nb, dpl);
    }
    CarryEnds(V(tabr[..], o, rLen), V(carry[..], 0, nb), c, len, dpl, nb, rLen);
  }

  lemma CoefficientFits(vc: nat, c: seq<int>, i: nat, dpl: nat, nb: nat, vr: nat)
    requires 2 <= nb <= NB_MODS && i < |c| && InRange(c, nb) && CarryState(vr, vc, c, i, dpl, nb)
    ensures 0 <= c[i] < ModProduct(Mods(nb), nb) && c[i] + vc < BP(nb)
  {
    hide ModProduct, BP, Eval, Pow2;
    SumFitsLimbs(vc, c, i, nb);
  }

  lemma Cleared(s: seq<limb>, t: seq<limb>, o: nat, n: nat)
    requires |s| == |t| && forall k :: 0 <= k < |s| && (k < o || o + n <= k) ==> s[k] == t[k]
    ensures Only(s, t, o, n)
  {
  }

  lemma DigitCount(rLen: nat, dpl: nat, fftLen: nat, digits: int)
    requires 1 <= dpl && digits == (rLen * LIMB_BITS + dpl - 1) / dpl && LIMB_BITS * rLen <= fftLen * dpl
    ensures 0 <= digits <= fftLen && LIMB_BITS * rLen <= digits * dpl
  {
    DivMod(rLen * LIMB_BITS + dpl - 1, dpl);
    if fftLen < digits { MulLe(fftLen + 1, digits, dpl); Dist(fftLen, 1, dpl); }
  }
}
