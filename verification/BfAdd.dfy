/**
 bf_add_internal: addition and subtraction of floating point numbers.  Only as many limbs of the exact
 sum are kept as the rounding can need; the rest goes into one sticky bit.
 */
module BfAddition {
  import opened Limbs
  import opened MpBase
  import opened Udiv
  import opened MpDivBase
  import opened MpDiv
  import opened Rounding
  import opened BfBits
  import opened BfFloat
  import opened BfDivide

  // ---------------------------------------------------------------- limbs of aligned operands

  /** A number moved up by `j` limbs. */
  lemma LimbMoved(x: nat, j: nat, k: nat)
    ensures LimbOf(x * BP(j), k) == if k < j then 0 else LimbOf(x, k - j)
  {
    hide BP;
    if k < j {
      ZeroBelow(x, j, k);
    } else {
      BPAdd(j, k - j);
      DivTwice(x * BP(j), BP(j), BP(k - j));
      QuotientIs(x * BP(j), BP(j), x, 0);
    }
  }

  lemma ZeroBelow(x: nat, j: nat, k: nat)
    requires k < j
    ensures LimbOf(x * BP(j), k) == 0
  {
    hide BP;
    var p, y := BP(k), BP(j - k - 1);
    BPAdd(k, j - k);
    VNextPower(j - k - 1);
    assert x * (p * (B * y)) == x * y * B * p;
    QuotientIs(x * BP(j), p, x * y * B, 0);
    QuotientIs(x * y * B, B, x * y, 0);
  }

  /** The limbs of the larger operand, in a number of `tot` limbs. */
  lemma LimbOfA(t: seq<limb>, tot: nat, k: nat)
    requires |t| <= tot
    ensures LimbOf(V(t, 0, |t|) * BP(tot - |t|), k) == GetLimbz(t, k - (tot - |t|))
  {
    hide V, BP, LimbOf;
    LimbMoved(V(t, 0, |t|), tot - |t|, k);
    if tot - |t| <= k { LimbIs(t, k - (tot - |t|)); }
  }

  /** The smaller operand, `d` bits further down, in a number of `tot` limbs. */
  ghost function Aligned(t: seq<limb>, tot: nat, d: nat): nat
    requires d <= LIMB_BITS * (tot - |t|)
  {
    V(t, 0, |t|) * Pow2(LIMB_BITS * (tot - |t|) - d)
  }

  lemma LimbOfB(t: seq<limb>, tot: nat, d: nat, k: nat)
    requires d <= LIMB_BITS * (tot - |t|)
    ensures LimbOf(Aligned(t, tot, d), k) == GetBits(t, LIMB_BITS * (k - tot + |t|) + d)
  {
    hide V, BP, Pow2, GetBits;
    var v, q := V(t, 0, |t|), LIMB_BITS * (tot - |t|) - d;
    var pos := LIMB_BITS * k - q;
    GetBitsIs(t, pos);
    BitsOfLimbs(k);
    if 0 <= pos {
      Pow2Add(q, pos);
      DivTwice(v * Pow2(q), Pow2(q), Pow2(pos));
      QuotientIs(v * Pow2(q), Pow2(q), v, 0);
    } else {
      Pow2Add(-pos, LIMB_BITS * k);
      Assoc(v, Pow2(-pos), BP(k));
      QuotientIs(v * Pow2(q), BP(k), v * Pow2(-pos), 0);
    }
  }

  // ---------------------------------------------------------------- the sum, limb by limb

  function Sign(isSub: bool): int { if isSub then -1 else 1 }

  /** The low k limbs of the sum are `w`; the carry of a subtraction counts down from 1. */
  ghost predicate SumState(x: nat, y: nat, isSub: bool, k: nat, w: nat, carry: int) {
    && w < BP(k) && 0 <= carry <= 1
    && x % BP(k) + Sign(isSub) * (y % BP(k)) == w + (carry - if isSub then 1 else 0) * BP(k)
  }

  lemma StartSum(x: nat, y: nat, isSub: bool)
    ensures SumState(x, y, isSub, 0, 0, if isSub then 1 else 0)
  {
    assert BP(0) == 1;
  }

  /** What is added for a limb of the second operand. */
  function Masked2(bv: int, isSub: bool): int { if isSub then B - 1 - bv else bv }

  lemma SumStep(x: nat, y: nat, isSub: bool, k: nat, w: nat, carry: int, u: int, carry': int)
    requires SumState(x, y, isSub, k, w, carry) && 0 <= u < B && 0 <= carry' <= 1
    requires u + carry' * B == LimbOf(x, k) + Masked2(LimbOf(y, k), isSub) + carry
    ensures 0 <= u * BP(k) && SumState(x, y, isSub, k + 1, w + u * BP(k), carry')
  {
    hide BP, LimbOf;
    ModStep(x, k);
    ModStep(y, k);
    VNextPower(k);
    var j := if isSub then 1 else 0;
    SumInts(x % BP(k), y % BP(k), LimbOf(x, k), LimbOf(y, k), Sign(isSub), w, carry - j, u, carry' - j, BP(k));
    MulLe(u + 1, B, BP(k));
    Dist(u, 1, BP(k));
    MulLe(0, u, BP(k));
  }

  lemma SumInts(x: int, y: int, xv: int, yv: int, sg: int, w: int, c: int, u: int, c': int, p: int)
    requires x + sg * y == w + c * p && u + c' * B == xv + sg * yv + c
    ensures x + p * xv + sg * (y + p * yv) == w + u * p + c' * (B * p)
  {
    Carry(u, c', xv + sg * yv + c, p);
    Dist(xv + sg * yv, c, p);
    Dist(xv, sg * yv, p);
    Assoc(sg, yv, p);
    DistL(sg, y, yv * p);
  }

  /** Limbs of which both operands have only zeros, from `k` to `k'`. */
  lemma SkipLimbs(x: nat, y: nat, isSub: bool, k: nat, k': nat, w: nat, carry: int) returns (w': nat)
    requires SumState(x, y, isSub, k, w, carry) && k <= k' && x % BP(k') == x % BP(k) && y % BP(k') == y % BP(k)
    requires isSub && carry == 0 && k < k' ==> w != 0
    requires !isSub ==> carry == 0
    ensures SumState(x, y, isSub, k', w', carry) && (w' == 0 <==> w == 0)
  {
    hide BP;
    BPUp(k, k');
    w' := if isSub && carry == 0 then w + (BP(k') - BP(k)) else w;
  }

  /** One limb of the sum. */
  method SumLimb(v1: limb, v2: limb, carry: limb) returns (u: limb, carry': limb)
    requires carry <= 1
    ensures u + carry' * B == v1 as int + v2 + carry && carry' <= 1
  {
    AddLimb(v1, v2, carry);
    u := Wrap(v1 as int + v2);
    var carry1 := u < v1;
    u := Wrap(u as int + carry);
    carry' := if u < carry || carry1 then 1 else 0;
  }

  /** The limbs below the ones that are kept: their sum only matters as zero or not. */
  method SumBelow(a: Bf, b: Bf, d: nat, isSub: bool, tot: nat, rLen: nat) returns (carry: limb, z: bool, ghost w: nat)
    requires a.tab.Length <= tot && d <= LIMB_BITS * (tot - b.tab.Length) && rLen <= tot
    ensures SumState(a.Mant() * BP(tot - a.tab.Length), Aligned(b.tab[..], tot, d), isSub, tot - rLen, w, carry)
    ensures z <==> w != 0
  {
    hide V, BP, Pow2, SumState, LimbOf, GetBits, Aligned;
    var la, lb := a.tab.Length, b.tab.Length;
    ghost var x, y := a.Mant() * BP(tot - la), Aligned(b.tab[..], tot, d);
    var aOffset, bBitOffset := la - rLen, (lb - rLen) * LIMB_BITS + d;
    carry := if isSub then 1 else 0;
    z, w := false, 0;
    StartSum(x, y, isSub);
    var i := rLen - tot;
    while i < 0
      invariant rLen - tot <= i <= 0 && carry <= 1
      invariant SumState(x, y, isSub, i + tot - rLen, w, carry) && (z <==> w != 0)
      decreases -i
    {
      ghost var k := i + tot - rLen;
      var ap, bp := aOffset + i, bBitOffset + i * LIMB_BITS;
      var v1, v2, inflag := LimbsBelow(a.tab, b.tab, ap, bp);
      // where the numbers have no limbs, the sticky bit cannot change
      var next := i + 1;
      if !inflag {
        next := 0;
        if ap < 0 {
          next := if -aOffset < next then -aOffset else next;
        }
        if bp + LIMB_BITS <= 0 {
          next := if -bBitOffset / LIMB_BITS < next then -bBitOffset / LIMB_BITS else next;
        }
        SkipZeros(a.tab[..], b.tab[..], tot, d, k, next + tot - rLen);
      }
      var u;
      ghost var before := carry;
      u, carry := SumLimb(v1, Masked2(v2, isSub), carry);
      z := z || u != 0;
      w := SumAndSkip(a.tab[..], b.tab[..], tot, d, isSub, k, next + tot - rLen, w, before, u, carry);
      i := next;
    }
  }

  /** One limb and the zeros after it. */
  lemma SumAndSkip(s: seq<limb>, t: seq<limb>, tot: nat, d: nat, isSub: bool, k: nat, k': nat, w: nat, carry: int, u: limb, carry': int)
    returns (w': nat)
    requires |s| <= tot && d <= LIMB_BITS * (tot - |t|) && k < k' && 0 <= carry' <= 1
    requires SumState(V(s, 0, |s|) * BP(tot - |s|), Aligned(t, tot, d), isSub, k, w, carry)
    requires u + carry' * B == GetLimbz(s, k - (tot - |s|)) + Masked2(GetBits(t, LIMB_BITS * (k - tot + |t|) + d), isSub) + carry
    requires k' != k + 1 ==> GetLimbz(s, k - (tot - |s|)) == 0 && GetBits(t, LIMB_BITS * (k - tot + |t|) + d) == 0
    requires k' != k + 1 ==>
      && V(s, 0, |s|) * BP(tot - |s|) % BP(k') == V(s, 0, |s|) * BP(tot - |s|) % BP(k + 1)
      && Aligned(t, tot, d) % BP(k') == Aligned(t, tot, d) % BP(k + 1)
    ensures SumState(V(s, 0, |s|) * BP(tot - |s|), Aligned(t, tot, d), isSub, k', w', carry')
    ensures w' != 0 <==> w != 0 || u != 0
  {
    hide V, BP, Aligned, GetBits, GetLimbz, LimbOf;
    var x, y := V(s, 0, |s|) * BP(tot - |s|), Aligned(t, tot, d);
    LimbOfA(s, tot, k);
    LimbOfB(t, tot, d, k);
    SumStep(x, y, isSub, k, w, carry, u, carry');
    if u != 0 { MulLe(1, u, BP(k)); }
    w' := w + u * BP(k);
    if k' != k + 1 {
      w' := SkipLimbs(x, y, isSub, k + 1, k', w', carry');
    }
  }

  /** The limb of `a` at `ap` and the limb of `b` from bit `bp` on; not inside if both are outside. */
  method LimbsBelow(a: array<limb>, b: array<limb>, ap: int, bp: int) returns (v1: limb, v2: limb, inflag: bool)
    requires ap < a.Length
    ensures v1 == GetLimbz(a[..], ap) && v2 == GetBits(b[..], bp)
    ensures !inflag ==> ap < 0 && (bp + LIMB_BITS <= 0 || b.Length * LIMB_BITS <= bp) && v1 == 0 && v2 == 0
  {
    hide GetBits;
    v1, v2, inflag := 0, 0, false;
    if 0 <= ap {
      v1 := a[ap];
      inflag := true;
    }
    if 0 < bp + LIMB_BITS && bp < b.Length * LIMB_BITS {
      v2 := GetBits(b[..], bp);
      inflag := true;
    } else {
      OutsideBits(b[..], bp);
    }
  }

  /** There are no bits outside the limbs. */
  lemma OutsideBits(t: seq<limb>, pos: int)
    requires pos + LIMB_BITS <= 0 || |t| * LIMB_BITS <= pos
    ensures GetBits(t, pos) == 0
  {
    hide V;
    var i, p := pos / LIMB_BITS, pos % LIMB_BITS;
    if p != 0 {
      LimbPow2(p);
      QuotientIs(0, Pow2(p), 0, 0);
      ZeroWrap(Pow2(LIMB_BITS - p));
    }
  }

  lemma ModZero(x: nat, j: nat, k: nat)
    requires k <= j
    ensures x * BP(j) % BP(k) == 0
  {
    hide BP;
    BPAdd(k, j - k);
    assert x * BP(j) == x * BP(j - k) * BP(k);
    QuotientIs(x * BP(j), BP(k), x * BP(j - k), 0);
  }

  /** Between k and k' both operands have only zeros, or only what is below k. */
  lemma SkipZeros(s: seq<limb>, t: seq<limb>, tot: nat, d: nat, k: nat, k': nat)
    requires |s| <= tot && d <= LIMB_BITS * (tot - |t|) && k < k' <= tot - |s|
    requires var bp := LIMB_BITS * (k - tot + |t|) + d;
      |t| * LIMB_BITS <= bp || LIMB_BITS * k' <= LIMB_BITS * (tot - |t|) - d
    ensures V(s, 0, |s|) * BP(tot - |s|) % BP(k') == V(s, 0, |s|) * BP(tot - |s|) % BP(k + 1)
    ensures Aligned(t, tot, d) % BP(k') == Aligned(t, tot, d) % BP(k + 1)
  {
    hide V, BP, Pow2;
    ModZero(V(s, 0, |s|), tot - |s|, k');
    ModZero(V(s, 0, |s|), tot - |s|, k + 1);
    var v, q := V(t, 0, |t|), LIMB_BITS * (tot - |t|) - d;
    if |t| * LIMB_BITS <= LIMB_BITS * (k - tot + |t|) + d {
      VBound(t, 0, |t|);
      BitsOfLimbs(|t|);
      BitsOfLimbs(k);
      Pow2Add(LIMB_BITS * |t|, q);
      Pow2Up(LIMB_BITS * |t| + q, LIMB_BITS * k);
      MulLt(v, BP(|t|), Pow2(q));
      BPUp(k, k');
      BPUp(k, k + 1);
      QuotientIs(v * Pow2(q), BP(k'), 0, v * Pow2(q));
      QuotientIs(v * Pow2(q), BP(k + 1), 0, v * Pow2(q));
    } else {
      Pow2Add(q - LIMB_BITS * k', LIMB_BITS * k');
      BitsOfLimbs(k');
      Assoc(v, Pow2(q - LIMB_BITS * k'), BP(k'));
      ModZero(v * Pow2(q - LIMB_BITS * k'), k', k');
      ModZero(v * Pow2(q - LIMB_BITS * k'), k', k + 1);
    }
  }

  /** The limbs of the sum that are kept. */
  method SumKept(a: Bf, b: Bf, d: nat, isSub: bool, tot: nat, rLen: nat, carry0: limb, ghost w: nat) returns (t: array<limb>, carry: limb)
    requires a.tab.Length <= tot && d <= LIMB_BITS * (tot - b.tab.Length) && rLen <= tot && carry0 <= 1
    requires SumState(a.Mant() * BP(tot - a.tab.Length), Aligned(b.tab[..], tot, d), isSub, tot - rLen, w, carry0)
    ensures fresh(t) && t.Length == rLen && carry <= 1
    ensures 0 <= BP(tot - rLen) * V(t[..], 0, rLen)
    ensures SumState(a.Mant() * BP(tot - a.tab.Length), Aligned(b.tab[..], tot, d), isSub, tot, w + BP(tot - rLen) * V(t[..], 0, rLen), carry)
  {
    hide V, BP, Pow2, SumState, LimbOf, GetBits, Aligned, GetLimbz;
    var aOffset, bBitOffset := a.tab.Length - rLen, (b.tab.Length - rLen) * LIMB_BITS + d;
    ghost var x, y, kz := a.Mant() * BP(tot - a.tab.Length), Aligned(b.tab[..], tot, d), tot - rLen;
    t := new limb[rLen];
    carry := carry0;
    Empty(t[..], 0);
    MulZero(BP(kz));
    for i := 0 to rLen
      invariant carry <= 1 && 0 <= BP(kz) * V(t[..], 0, i)
      invariant SumState(x, y, isSub, kz + i, w + BP(kz) * V(t[..], 0, i), carry)
    {
      LimbOfA(a.tab[..], tot, kz + i);
      LimbOfB(b.tab[..], tot, d, kz + i);
      var v1 := GetLimbz(a.tab[..], aOffset + i);
      var v2 := GetBits(b.tab[..], bBitOffset + i * LIMB_BITS);
      var u;
      ghost var before, s := carry, t[..];
      u, carry := SumLimb(v1, Masked2(v2, isSub), carry);
      t[i] := u;
      SumStep(x, y, isSub, kz + i, w + BP(kz) * V(s, 0, i), before, u, carry);
      Wrote(s, t[..], 0, i);
      PartGrows(BP(kz), V(s, 0, i), u, BP(i), BP(kz + i)) by { BPAdd(kz, i); }
    }
  }

  lemma PartGrows(p: nat, v: nat, u: nat, q: nat, pq: nat)
    requires pq == p * q
    ensures p * (v + u * q) == p * v + u * pq && 0 <= p * (v + u * q)
  {
    DistL(p, v, u * q);
    Assoc(p, u, q);
    MulLe(0, u, pq);
    MulLe(0, v, p);
  }

  /** Both operands are below B^tot. */
  lemma OperandsFit(s: seq<limb>, t: seq<limb>, tot: nat, d: nat)
    requires |s| <= tot && d <= LIMB_BITS * (tot - |t|)
    ensures V(s, 0, |s|) * BP(tot - |s|) < BP(tot) && Aligned(t, tot, d) * Pow2(d) < BP(tot) && Aligned(t, tot, d) < BP(tot)
  {
    hide V, BP, Pow2;
    VBound(s, 0, |s|);
    VBound(t, 0, |t|);
    BPAdd(|s|, tot - |s|);
    MulLt(V(s, 0, |s|), BP(|s|), BP(tot - |s|));
    var q := LIMB_BITS * (tot - |t|) - d;
    BitsOfLimbs(|t|);
    BitsOfLimbs(tot);
    Pow2Add(q, d);
    Pow2Add(LIMB_BITS * |t|, q + d);
    Assoc(V(t, 0, |t|), Pow2(q), Pow2(d));
    MulLt(V(t, 0, |t|), BP(|t|), Pow2(q + d));
    MulLe(1, Pow2(d), Aligned(t, tot, d));
  }

  lemma SumFits(x: nat, y: nat, isSub: bool, k: nat, w: nat, carry: int)
    requires SumState(x, y, isSub, k, w, carry)
    ensures w < BP(k) && 0 <= carry <= 1
  {
  }

  /** What the whole sum is. */
  lemma SumIs(x: nat, y: nat, isSub: bool, tot: nat, w: nat, carry: int)
    requires SumState(x, y, isSub, tot, w, carry) && x < BP(tot) && y < BP(tot) && (isSub ==> y <= x)
    ensures x + Sign(isSub) * y == w + (if isSub then 0 else carry) * BP(tot) && w < BP(tot)
    ensures isSub ==> carry == 1
  {
    QuotientIs(x, BP(tot), 0, x);
    QuotientIs(y, BP(tot), 0, y);
  }

  // ---------------------------------------------------------------- comparison

  function Order(x: int, y: int): int { if x < y then -1 else if x > y then 1 else 0 }

  function Longer(a: nat, b: nat): nat { if a < b then b else a }

  /** bf_cmpu: the order of two magnitudes. */
  method BfCmpu(a: Bf, b: Bf) returns (c: int)
    ensures a.expn != b.expn ==> c == Order(a.expn, b.expn)
    ensures a.expn == b.expn ==>
      var n := Longer(a.tab.Length, b.tab.Length);
      c == Order(a.Mant() * BP(n - a.tab.Length), b.Mant() * BP(n - b.tab.Length))
  {
    hide V, BP, LimbOf, GetLimbz;
    if a.expn != b.expn {
      return if a.expn < b.expn then -1 else 1;
    }
    var len := Longer(a.tab.Length, b.tab.Length);
    ghost var x, y := a.Mant() * BP(len - a.tab.Length), b.Mant() * BP(len - b.tab.Length);
    SameExpn(a.tab[..], b.tab[..], len);
    for i := len downto 0
      invariant x - y == x % BP(i) - y % BP(i)
    {
      LimbOfA(a.tab[..], len, i);
      LimbOfA(b.tab[..], len, i);
      var v1 := GetLimbz(a.tab[..], a.tab.Length - len + i);
      var v2 := GetLimbz(b.tab[..], b.tab.Length - len + i);
      OrderStep(x, y, i);
      if v1 != v2 {
        return if v1 < v2 then -1 else 1;
      }
    }
    assert x % BP(0) == 0 && y % BP(0) == 0 by { BPSmall(); }
    return 0;
  }

  lemma SameExpn(s: seq<limb>, t: seq<limb>, n: nat)
    requires |s| <= n && |t| <= n
    ensures V(s, 0, |s|) * BP(n - |s|) % BP(n) == V(s, 0, |s|) * BP(n - |s|)
    ensures V(t, 0, |t|) * BP(n - |t|) % BP(n) == V(t, 0, |t|) * BP(n - |t|)
  {
    hide V, BP;
    VBound(s, 0, |s|);
    VBound(t, 0, |t|);
    BPAdd(|s|, n - |s|);
    BPAdd(|t|, n - |t|);
    MulLt(V(s, 0, |s|), BP(|s|), BP(n - |s|));
    MulLt(V(t, 0, |t|), BP(|t|), BP(n - |t|));
    QuotientIs(V(s, 0, |s|) * BP(n - |s|), BP(n), 0, V(s, 0, |s|) * BP(n - |s|));
    QuotientIs(V(t, 0, |t|) * BP(n - |t|), BP(n), 0, V(t, 0, |t|) * BP(n - |t|));
  }

  /** The order is decided by the highest limb that differs. */
  lemma OrderStep(x: nat, y: nat, i: nat)
    ensures LimbOf(x, i) == LimbOf(y, i) ==> x % BP(i + 1) - y % BP(i + 1) == x % BP(i) - y % BP(i)
    ensures LimbOf(x, i) < LimbOf(y, i) ==> x % BP(i + 1) < y % BP(i + 1)
    ensures LimbOf(y, i) < LimbOf(x, i) ==> y % BP(i + 1) < x % BP(i + 1)
  {
    hide BP, LimbOf;
    ModStep(x, i);
    ModStep(y, i);
    LargerLimb(x % BP(i), y % BP(i), LimbOf(x, i), LimbOf(y, i), BP(i));
  }

  lemma ModStep(x: nat, i: nat)
    ensures x % BP(i + 1) == x % BP(i) + BP(i) * LimbOf(x, i) && 0 <= x % BP(i) < BP(i)
  {
    hide BP;
    VNextPower(i);
    DivTwice(x, BP(i), B);
    DivMod(x, BP(i));
  }

  lemma LargerLimb(x: int, y: int, u: int, v: int, p: int)
    requires 0 <= x < p && 0 <= y < p
    ensures u < v ==> x + p * u < y + p * v
    ensures v < u ==> y + p * v < x + p * u
  {
    if u < v { MulLe(u + 1, v, p); Dist(u, 1, p); }
    if v < u { MulLe(v + 1, u, p); Dist(v, 1, p); }
  }

  // ---------------------------------------------------------------- cancelled bits

  /** The highest bit in which two numbers differ. */
  function TopDiff(x: nat, y: nat): (h: nat)
    requires x != y
    decreases x + y
  {
    if x / 2 == y / 2 then 0 else 1 + TopDiff(x / 2, y / 2)
  }

  lemma {:induction false} TopDiffIs(x: nat, y: nat)
    requires y < x
    ensures var p := Pow2(TopDiff(x, y)); x - y == p + x % p - y % p && 0 <= x % p < p && 0 <= y % p < p && p <= x
    decreases x
  {
    Pow2One();
    if x / 2 != y / 2 {
      TopDiffIs(x / 2, y / 2);
      var q := Pow2(TopDiff(x / 2, y / 2));
      Pow2Next(TopDiff(x / 2, y / 2));
      DivTwice(x, 2, q);
      DivTwice(y, 2, q);
    }
  }

  lemma TopDiffSmall(x: limb, y: limb)
    requires y < x
    ensures TopDiff(x, y) < LIMB_BITS
  {
    TopDiffIs(x, y);
    if LIMB_BITS <= TopDiff(x, y) {
      Pow2Up(LIMB_BITS, TopDiff(x, y));
      Pow2Limb();
    }
  }

  /** The number of leading zero bits; 32 for zero. */
  function Clz0(v: limb): (k: nat)
    ensures k <= LIMB_BITS && (v == 0 <==> k == LIMB_BITS)
  {
    if v == 0 then LIMB_BITS else Clz(v)
  }

  lemma ClzBound(v: limb)
    requires v != 0
    ensures Pow2(LIMB_BITS - 1 - Clz0(v)) <= v
  {
    hide Pow2, Clz;
    LimbHalves(Clz(v));
    LeMul(Pow2(LIMB_BITS - 1 - Clz(v)), v, Pow2(Clz(v)));
  }

  lemma ClzWithin(v: limb, h: nat)
    requires v < Pow2(h) && h <= LIMB_BITS
    ensures LIMB_BITS - h <= Clz0(v)
  {
    hide Pow2, Clz;
    if v != 0 {
      ClzBound(v);
      var e := LIMB_BITS - 1 - Clz0(v);
      if h <= e { Pow2Up(h, e); }
    }
  }

  function Smaller(a: nat, b: nat): nat { if a < b then a else b }

  /** Two numbers of h bits: the larger has its top bit at the place that the leading zeros tell. */
  lemma TopOfTwo(x: limb, y: limb, h: nat)
    requires x < Pow2(h) && y < Pow2(h) && 1 <= h <= LIMB_BITS
    ensures LIMB_BITS - h <= Smaller(Clz0(x), Clz0(y)) <= LIMB_BITS
    ensures Smaller(Clz0(x), Clz0(y)) == LIMB_BITS ==> x == 0 && y == 0
    ensures Smaller(Clz0(x), Clz0(y)) != LIMB_BITS ==> Pow2(LIMB_BITS - 1 - Smaller(Clz0(x), Clz0(y))) <= x + y
  {
    hide Pow2, Clz;
    ClzWithin(x, h);
    ClzWithin(y, h);
    if x != 0 { ClzBound(x); }
    if y != 0 { ClzBound(y); }
  }

  /** The difference of the top j limbs. */
  ghost function TopDelta(x: nat, y: nat, tot: nat, j: nat): int
    requires j <= tot
  {
    x / BP(tot - j) - y / BP(tot - j)
  }

  lemma DeltaStep(x: nat, y: nat, tot: nat, j: nat)
    requires j < tot
    ensures TopDelta(x, y, tot, j + 1) == B * TopDelta(x, y, tot, j) + LimbOf(x, tot - 1 - j) - LimbOf(y, tot - 1 - j)
  {
    hide BP, LimbOf;
    TopLimbs(x, tot - 1 - j);
    TopLimbs(y, tot - 1 - j);
    assert tot - 1 - j + 1 == tot - j;
  }

  lemma TopLimbs(x: nat, k: nat)
    ensures x / BP(k) == B * (x / BP(k + 1)) + LimbOf(x, k)
  {
    hide BP;
    VNextPower(k);
    assert B * BP(k) == BP(k) * B;
    DivTwice(x, BP(k), B);
    ByLimb(x / BP(k));
  }

  lemma ByLimb(q: nat)
    ensures q == B * (q / B) + q % B
  {
  }

  /** When the top limbs differ by at least 1 + 2^e the difference has no more leading zeros than that. */
  lemma CancelledBound(x: nat, y: nat, tot: nat, j: nat, e: nat)
    requires j < tot && 1 + Pow2(e) <= TopDelta(x, y, tot, j + 1) && e < LIMB_BITS
    ensures BP(tot) <= (x - y) * Pow2(LIMB_BITS * (j + 1) - e)
  {
    hide BP, Pow2;
    var m := tot - j - 1;
    var p, q := BP(m), Pow2(LIMB_BITS * (j + 1) - e);
    DivMod(x, p);
    DivMod(y, p);
    var dx, dy := x / p, y / p;
    Dist(dx, dy, p);
    MulLe(1 + Pow2(e), dx - dy, p);
    Dist(1, Pow2(e), p);
    MulLe(Pow2(e) * p, x - y, q);
    Pow2Add(e, LIMB_BITS * (j + 1) - e);
    BitsOfLimbs(j + 1);
    BPAdd(m, j + 1);
    assert Pow2(e) * p * q == p * (Pow2(e) * q);
  }

  lemma DeltaEnds(x: nat, y: nat, tot: nat)
    requires x < BP(tot) && y < BP(tot)
    ensures TopDelta(x, y, tot, 0) == 0 && TopDelta(x, y, tot, tot) == x - y
  {
    QuotientIs(x, BP(tot), 0, x);
    QuotientIs(y, BP(tot), 0, y);
    BPSmall();
    DivOne(x);
    DivOne(y);
  }

  /** The operands without the differing top limbs. */
  ghost predicate Operands(a: Bf, b: Bf, d: nat, tot: nat, x: nat, y: nat)
    reads a, b, a.tab, b.tab
  {
    && 1 <= a.tab.Length <= tot && d <= LIMB_BITS * (tot - b.tab.Length)
    && x == a.Mant() * BP(tot - a.tab.Length) && y == Aligned(b.tab[..], tot, d)
  }

  /**
   count_cancelled_bits: the difference of the operands has at most so many leading zero bits.
   */
  method CountCancelledBits(a: Bf, b: Bf, d: nat, ghost tot: nat, ghost x: nat, ghost y: nat) returns (n: nat)
    requires Operands(a, b, d, tot, x, y) && y < x
    ensures BP(tot) <= (x - y) * Pow2(n + 1)
  {
    hide V, BP, Pow2, LimbOf, GetBits, GetLimbz, Aligned, TopDelta;
    var la, lb := a.tab.Length, b.tab.Length;
    OperandsFit(a.tab[..], b.tab[..], tot, d);
    DeltaEnds(x, y, tot);
    // the leading limbs that agree
    var j := 0;
    var v1, v2 := TopLimbsAt(a, b, d, 0, tot, x, y);
    while v1 == v2
      invariant j < tot && TopDelta(x, y, tot, j) == 0
      invariant v1 == LimbOf(x, tot - 1 - j) && v2 == LimbOf(y, tot - 1 - j)
      decreases tot - j
    {
      DeltaStep(x, y, tot, j);
      j := j + 1;
      v1, v2 := TopLimbsAt(a, b, d, j, tot, x, y);
    }
    DeltaStep(x, y, tot, j);
    DeltaNonneg(x, y, tot, j + 1);
    // skip what the two numbers have in common
    var h := TopDiff(v1, v2);
    TopDiffIs(v1, v2);
    TopDiffSmall(v1, v2);
    n := LIMB_BITS * j + (LIMB_BITS - h);
    // a difference of one can be cancelled by a run of zeros in a over ones in b
    if 0 < h {
      MaskFitsLimb(h);
      var x1, y1 := v1 % Pow2(h), Pow2(h) - 1 - v2 % Pow2(h);
      TopOfTwo(x1, y1, h);
      var p1 := Smaller(Clz0(x1), Clz0(y1)) - (LIMB_BITS - h);
      n := n + p1;
      if p1 != h {
        CancelledBound(x, y, tot, j, h - p1 - 1);
        return;
      }
    } else {
      Pow2One();
    }
    n := CancelledTail(a, b, d, j + 1, tot, x, y);
  }

  /** The limbs that are 0 in a and all ones in b. */
  method CancelledTail(a: Bf, b: Bf, d: nat, j0: nat, ghost tot: nat, ghost x: nat, ghost y: nat) returns (n: nat)
    requires Operands(a, b, d, tot, x, y) && x < BP(tot) && y < BP(tot) && j0 <= tot && TopDelta(x, y, tot, j0) == 1
    ensures BP(tot) <= (x - y) * Pow2(n + 1)
  {
    hide V, BP, Pow2, LimbOf, GetBits, GetLimbz, Aligned, TopDelta;
    n := LIMB_BITS * j0;
    var j := j0;
    var v1, v2 := TopLimbsAt(a, b, d, j, tot, x, y);
    while v1 == 0 && v2 == B - 1
      invariant j <= tot && TopDelta(x, y, tot, j) == 1 && n == LIMB_BITS * j
      invariant if j < tot then v1 == LimbOf(x, tot - 1 - j) && v2 == LimbOf(y, tot - 1 - j) else v1 == 0 && v2 == 0
      decreases tot - j
    {
      DeltaStep(x, y, tot, j);
      n := n + LIMB_BITS;
      j := j + 1;
      v1, v2 := TopLimbsAt(a, b, d, j, tot, x, y);
    }
    // the run ends in this limb
    Pow2Limb();
    TopOfTwo(v1, B - 1 - v2, LIMB_BITS);
    var p1 := Smaller(Clz0(v1), Clz0(B - 1 - v2));
    if j < tot {
      DeltaStep(x, y, tot, j);
      CancelledBound(x, y, tot, j, LIMB_BITS - 1 - p1);
    } else {
      DeltaEnds(x, y, tot);
      AllCancelled(tot, p1);
    }
    n := n + p1;
  }

  lemma AllCancelled(tot: nat, p1: nat)
    ensures BP(tot) <= 1 * Pow2(LIMB_BITS * tot + p1 + 1)
  {
    hide BP, Pow2;
    BitsOfLimbs(tot);
    Pow2Up(LIMB_BITS * tot, LIMB_BITS * tot + p1 + 1);
  }

  lemma MaskFitsLimb(h: nat)
    requires h < LIMB_BITS
    ensures 0 < Pow2(h) < B
  {
    MaskFits(h);
  }

  lemma DeltaNonneg(x: nat, y: nat, tot: nat, j: nat)
    requires y <= x && j <= tot
    ensures 0 <= TopDelta(x, y, tot, j)
  {
    hide BP;
    var p := BP(tot - j);
    DivMod(x, p);
    DivMod(y, p);
    if x / p < y / p { MulLe(x / p + 1, y / p, p); Dist(x / p, 1, p); }
  }

  /** The limbs of both operands at `j` limbs from the top. */
  method TopLimbsAt(a: Bf, b: Bf, d: nat, j: nat, ghost tot: nat, ghost x: nat, ghost y: nat) returns (v1: limb, v2: limb)
    requires Operands(a, b, d, tot, x, y)
    ensures if j < tot then v1 == LimbOf(x, tot - 1 - j) && v2 == LimbOf(y, tot - 1 - j) else v1 == 0 && v2 == 0
  {
    hide V, BP, Pow2, LimbOf, GetBits, Aligned;
    v1 := GetLimbz(a.tab[..], a.tab.Length - 1 - j);
    v2 := GetBits(b.tab[..], LIMB_BITS * (b.tab.Length - 1 - j) + d);
    if j < tot {
      LimbOfA(a.tab[..], tot, tot - 1 - j);
      LimbOfB(b.tab[..], tot, d, tot - 1 - j);
    } else {
      OutsideBits(b.tab[..], LIMB_BITS * (b.tab.Length - 1 - j) + d);
    }
  }

  // ---------------------------------------------------------------- bf_add_internal

  function MinInt(x: int, y: int): int { if x < y then x else y }

  function Abs(x: int): nat { if x < 0 then -x else x }

  /** m * 2^e, in units of 2^to. */
  function InUnits(m: nat, e: int, to: int): nat
    requires to <= e
  {
    m * Pow2(e - to)
  }

  /** The exact sum of two finite numbers, in units of their lowest bit. */
  ghost function ExactSum(a: Bf, b: Bf, bNeg: bool): int
    reads a, b, a.tab, b.tab
  {
    var e := MinInt(a.LowExp(), b.LowExp());
    Signed(a.sign, InUnits(a.Mant(), a.LowExp(), e)) + Signed(b.sign != bNeg, InUnits(b.Mant(), b.LowExp(), e))
  }

  /** The magnitude of `a` is not smaller than that of `b`, as bf_cmpu orders them. */
  ghost predicate NotSmaller(a: Bf, b: Bf, strictly: bool)
    reads a, b, a.tab, b.tab
  {
    b.expn < a.expn || (a.expn == b.expn &&
      var n := Longer(a.tab.Length, b.tab.Length);
      var x, y := a.Mant() * BP(n - a.tab.Length), b.Mant() * BP(n - b.tab.Length);
      if strictly then y < x else y <= x)
  }

  /** The number of limbs that hold the exact sum. */
  function TotLen(a: Bf, b: Bf): nat
    requires b.expn <= a.expn
    reads a, b
  {
    Longer(a.tab.Length, b.tab.Length + (a.expn - b.expn + LIMB_BITS - 1) / LIMB_BITS)
  }

  /** The operands, aligned: the larger one is the larger number. */
  lemma AlignedOrder(a: Bf, b: Bf, d: nat, tot: nat, isSub: bool)
    requires a.Finite() && b.Finite() && NotSmaller(a, b, isSub) && d == a.expn - b.expn && tot == TotLen(a, b)
    ensures Operands(a, b, d, tot, a.Mant() * BP(tot - a.tab.Length), Aligned(b.tab[..], tot, d))
    ensures var x, y := a.Mant() * BP(tot - a.tab.Length), Aligned(b.tab[..], tot, d);
      && x < BP(tot) && y < BP(tot) && BP(tot) <= 2 * x && (isSub ==> y < x)
      && (2 <= d ==> 4 * y < BP(tot))
  {
    hide V, BP, Pow2;
    var la, lb := a.tab.Length, b.tab.Length;
    var x, y := a.Mant() * BP(tot - la), Aligned(b.tab[..], tot, d);
    OperandsFit(a.tab[..], b.tab[..], tot, d);
    TopBound(a.tab[..], 0, la);
    BPAdd(la, tot - la);
    MulLe(BP(la), 2 * a.Mant(), BP(tot - la));
    Assoc(2, a.Mant(), BP(tot - la));
    if d == 0 {
      BitsOfLimbs(tot - lb);
    } else {
      Pow2One();
      Pow2Up(1, d);
      MulLe(2, Pow2(d), y);
      if 2 <= d { Pow2Two(); Pow2Up(2, d); MulLe(4, Pow2(d), y); }
    }
  }

  /** The leading zero bits of the sum. */
  method LeadingZeros(a: Bf, b: Bf, d: nat, isSub: bool, ghost tot: nat, ghost x: nat, ghost y: nat) returns (n: nat)
    requires Operands(a, b, d, tot, x, y) && BP(tot) <= 2 * x && (isSub ==> y < x) && (2 <= d ==> 4 * y < BP(tot))
    ensures BP(tot) <= (x + Sign(isSub) * y) * Pow2(n + 1)
  {
    hide V, BP, Aligned;
    Pow2Two();
    Pow2One();
    n := 0;
    if isSub {
      // a subtraction can lose leading bits; work out that many more
      if d <= 1 {
        n := CountCancelledBits(a, b, d, tot, x, y);
      } else {
        n := 1;
      }
    }
  }

  /** Put the sticky bit and the carry in place. */
  method StoreSum(t0: array<limb>, z: bool, carry: bool) returns (t: array<limb>)
    requires 1 <= t0.Length
    modifies t0
    ensures t == t0 || fresh(t)
    ensures t.Length == t0.Length + if carry then 1 else 0
    ensures V(t[..], 0, t.Length) == Jam(V(old(t0[..]), 0, t0.Length) + (if carry then BP(t0.Length) else 0), z)
  {
    hide V, BP, Jam;
    ghost var v := V(t0[..], 0, t0.Length);
    JamExact(v);
    if z {
      SetSticky(t0);
    }
    t := t0;
    if carry {
      t := new limb[t0.Length + 1];
      CopyLimbs(t, 0, t0, 0, t0.Length);
      ghost var s := t[..];
      t[t0.Length] := 1;
      VNext(t[..], 0, t0.Length);
      VOnly(s, t[..], 0, t0.Length, t0.Length, 1);
      JamEven(v, t0.Length, z);
    }
  }

  lemma JamEven(v: nat, l: nat, z: bool)
    requires 1 <= l
    ensures Jam(v + BP(l), z) == Jam(v, z) + BP(l)
  {
    VNextPower(l - 1);
    EvenPart(HALF * BP(l - 1), v);
  }

  /** The parts of the exact sum: what is kept, and what goes into the sticky bit. */
  lemma SumParts(s: nat, w: nat, r: nat, kz: nat, rLen: nat, c: nat)
    requires s == w + BP(kz) * r + c * BP(kz + rLen) && w < BP(kz)
    ensures s / BP(kz) == r + c * BP(rLen) && s % BP(kz) == w
  {
    hide BP;
    BPAdd(kz, rLen);
    DistL(BP(kz), r, c * BP(rLen));
    Assoc(c, BP(kz), BP(rLen));
    QuotientIs(s, BP(kz), r + c * BP(rLen), w);
  }

  /** The kept limbs have two bits to spare. */
  lemma KeptEnough(s: nat, kz: nat, rLen: nat, cancelled: nat, prec: nat)
    requires BP(kz + rLen) <= s * Pow2(cancelled + 1) && cancelled + prec + 2 <= LIMB_BITS * rLen
    ensures Pow2(prec + 1) <= s / BP(kz)
  {
    hide BP, Pow2;
    var m := LIMB_BITS * rLen - cancelled - 1;
    BPAdd(kz, rLen);
    BitsOfLimbs(rLen);
    Pow2Add(m, cancelled + 1);
    Assoc(BP(kz), Pow2(m), Pow2(cancelled + 1));
    LeMul(BP(kz) * Pow2(m), s, Pow2(cancelled + 1));
    Pow2Up(prec + 1, m);
    DivMod(s, BP(kz));
    if s / BP(kz) < Pow2(m) { MulLe(s / BP(kz) + 1, Pow2(m), BP(kz)); Dist(s / BP(kz), 1, BP(kz)); }
  }

  /** A power of two in the denominator can be moved into the exponent. */
  lemma DenominatorMoved(r: Bf, neg: bool, n: nat, j: nat, e: int, prec: nat, flags: Flags, st: Status)
    requires 1 <= flags.expBits && r.CorrectResult(neg, n, Pow2(j), e, prec, flags, st)
    ensures r.CorrectResult(neg, n, 1, e - j, prec, flags, st)
  {
    hide Pow2, Round, FracAt, Bf.ResultIs, EffectivePrec, UnitOf;
    var k: nat, w: nat, t: nat :| r.CorrectAt(neg, n, Pow2(j), e, prec, flags, st, k, w, t);
    UnitMoved(n, j, e, prec, flags, k, w, t);
    var x := Round(flags.mode, neg, n * Pow2(k), Pow2(j) * Pow2(t));
    ResultFiner(r, neg, x * Pow2(t), w, w - t, e - k, FracAt(n * Pow2(k), Pow2(j) * Pow2(t)) != Exact, j, prec, flags, st);
    Pow2Add(t, j);
    Assoc(x, Pow2(t), Pow2(j));
    assert r.CorrectAt(neg, n, 1, e - j, prec, flags, st, k, w + j, t + j);
  }

  lemma UnitMoved(n: nat, j: nat, e: int, prec: nat, flags: Flags, k: nat, w: nat, t: nat)
    requires 1 <= flags.expBits && UnitOf(n, Pow2(j), e, prec, flags, k, w, t)
    ensures UnitOf(n, 1, e - j, prec, flags, k, w + j, t + j) && 0 < Pow2(j) * Pow2(t) == 1 * Pow2(t + j)
  {
    hide Pow2, EffectivePrec;
    Pow2Add(j, t);
    Pow2Add(w, j);
  }

  /** The sum of two finite numbers, the larger magnitude first. */
  method AddFinite(r: Bf, a: Bf, b: Bf, aSign: bool, isSub: bool, prec: nat, flags: Flags) returns (st: Status)
    requires a.Finite() && b.Finite() && r != a && r != b && NotSmaller(a, b, isSub)
    requires 1 <= prec && 1 <= flags.expBits && !flags.radPnt && flags.mode != RNDF
    modifies r
    ensures var e := MinInt(a.LowExp(), b.LowExp());
      var n := InUnits(a.Mant(), a.LowExp(), e) + Sign(isSub) * InUnits(b.Mant(), b.LowExp(), e);
      0 < n && r.CorrectResult(aSign, n, 1, e, prec, flags, st)
  {
    hide V, BP, Pow2, Bf.CorrectResult, SumState, Aligned, Jam, Bf.Finite, InUnits, Sign;
    var d := a.expn - b.expn;
    var tot := TotLen(a, b);
    ghost var x, y := a.Mant() * BP(tot - a.tab.Length), Aligned(b.tab[..], tot, d);
    AlignedOrder(a, b, d, tot, isSub);
    var cancelled := LeadingZeros(a, b, d, isSub, tot, x, y);
    // the places below the precision decide the rounding
    var precl := (cancelled + prec + 2 + LIMB_BITS - 1) / LIMB_BITS;
    var rLen := if precl < tot then precl else tot;
    if rLen < tot { KeptEnough(x + Sign(isSub) * y, tot - rLen, rLen, cancelled, prec); } else { WholeSum(x + Sign(isSub) * y); }
    st := RoundSum(r, a, b, d, aSign, isSub, tot, rLen, prec, flags, x, y);
    SumRounded(r, a, b, aSign, isSub, tot, tot - rLen, x, y, prec, flags, st);
  }

  /** Compute the limbs that are kept, and round them. */
  method RoundSum(r: Bf, a: Bf, b: Bf, d: nat, aSign: bool, isSub: bool, tot: nat, rLen: nat, prec: nat, flags: Flags, ghost x: nat, ghost y: nat)
    returns (st: Status)
    requires r != a && r != b && Operands(a, b, d, tot, x, y) && x < BP(tot) && y < BP(tot) && (isSub ==> y < x) && 1 <= rLen <= tot
    requires 1 <= prec && 1 <= flags.expBits && !flags.radPnt && flags.mode != RNDF && 0 < x + Sign(isSub) * y
    requires (x + Sign(isSub) * y) % BP(tot - rLen) != 0 ==> Pow2(prec + 1) <= (x + Sign(isSub) * y) / BP(tot - rLen)
    modifies r
    ensures r.CorrectResult(aSign, x + Sign(isSub) * y, BP(tot - rLen), a.expn - LIMB_BITS * rLen, prec, flags, st)
  {
    hide V, BP, Pow2, Bf.CorrectResult, Aligned, Jam, Sign;
    var grown;
    r.tab, grown := SumLimbs(a, b, d, isSub, tot, rLen, x, y);
    r.sign := aSign;
    r.expn := a.expn + if grown then LIMB_BITS else 0;
    st := r.RoundSticky(prec, flags, x + Sign(isSub) * y, BP(tot - rLen));
  }

  /** The rounded sum, on the scale of the operands. */
  lemma SumRounded(r: Bf, a: Bf, b: Bf, aSign: bool, isSub: bool, tot: nat, kz: nat, x: nat, y: nat, prec: nat, flags: Flags, st: Status)
    requires a.expn >= b.expn && Operands(a, b, a.expn - b.expn, tot, x, y) && 0 < x + Sign(isSub) * y && 1 <= flags.expBits
    requires kz <= tot && r.CorrectResult(aSign, x + Sign(isSub) * y, BP(kz), a.expn - LIMB_BITS * (tot - kz), prec, flags, st)
    ensures var e := MinInt(a.LowExp(), b.LowExp());
      var n := InUnits(a.Mant(), a.LowExp(), e) + Sign(isSub) * InUnits(b.Mant(), b.LowExp(), e);
      0 < n && r.CorrectResult(aSign, n, 1, e, prec, flags, st)
  {
    hide V, BP, Pow2, Bf.CorrectResult, Aligned, InUnits, Sign;
    BitsOfLimbs(kz);
    DenominatorMoved(r, aSign, x + Sign(isSub) * y, LIMB_BITS * kz, a.expn - LIMB_BITS * (tot - kz), prec, flags, st);
    SumUnits(a, b, a.expn - b.expn, isSub, tot, x, y);
    var lo, e := MinInt(a.LowExp(), b.LowExp()), a.expn - LIMB_BITS * tot;
    var n := InUnits(a.Mant(), a.LowExp(), lo) + Sign(isSub) * InUnits(b.Mant(), b.LowExp(), lo);
    ScaledResult(r, aSign, n, 1, e, lo - e, prec, flags, st);
  }

  lemma WholeSum(s: nat)
    ensures s % BP(0) == 0
  {
    BPSmall();
  }

  /** The exact sum on the scale of the limbs and on the scale of the operands. */
  lemma SumUnits(a: Bf, b: Bf, d: nat, isSub: bool, tot: nat, x: nat, y: nat)
    requires Operands(a, b, d, tot, x, y) && d == a.expn - b.expn && 0 < x + Sign(isSub) * y
    ensures var lo, e := MinInt(a.LowExp(), b.LowExp()), a.expn - LIMB_BITS * tot;
      var n := InUnits(a.Mant(), a.LowExp(), lo) + Sign(isSub) * InUnits(b.Mant(), b.LowExp(), lo);
      e <= lo && 0 < n && x + Sign(isSub) * y == n * Pow2(lo - e)
  {
    hide V, BP, Pow2;
    var lo, e := MinInt(a.LowExp(), b.LowExp()), a.expn - LIMB_BITS * tot;
    BitsOfLimbs(tot - a.tab.Length);
    Pow2Add(a.LowExp() - lo, lo - e);
    Pow2Add(b.LowExp() - lo, lo - e);
    var p, q, s := Pow2(a.LowExp() - lo), Pow2(b.LowExp() - lo), Pow2(lo - e);
    Assoc(a.Mant(), p, s);
    Assoc(b.Mant(), q, s);
    var u, v := a.Mant() * p, b.Mant() * q;
    assert x == u * s && y == v * s;
    Dist(u, Sign(isSub) * v, s);
    Assoc(Sign(isSub), v, s);
    LtMul(0, u + Sign(isSub) * v, s);
  }

  /** The limbs that are kept of the exact sum, with the sticky bit. */
  method SumLimbs(a: Bf, b: Bf, d: nat, isSub: bool, tot: nat, rLen: nat, ghost x: nat, ghost y: nat) returns (t: array<limb>, grown: bool)
    requires Operands(a, b, d, tot, x, y) && x < BP(tot) && y < BP(tot) && (isSub ==> y < x) && 1 <= rLen <= tot
    ensures fresh(t) && t.Length == rLen + if grown then 1 else 0
    ensures var s, p := x + Sign(isSub) * y, BP(tot - rLen); 0 <= s && V(t[..], 0, t.Length) == Jam(s / p, s % p != 0)
  {
    hide V, BP, Pow2, SumState, Aligned, Jam;
    var carry, z;
    ghost var w;
    carry, z, w := SumBelow(a, b, d, isSub, tot, rLen);
    SumFits(x, y, isSub, tot - rLen, w, carry);
    t, carry := SumKept(a, b, d, isSub, tot, rLen, carry, w);
    ghost var kept := V(t[..], 0, rLen);
    SumIs(x, y, isSub, tot, w + BP(tot - rLen) * kept, carry);
    // a difference has no carry
    grown := !isSub && carry != 0;
    SumParts(x + Sign(isSub) * y, w, kept, tot - rLen, rLen, if grown then 1 else 0);
    t := StoreSum(t, z, grown);
  }

  /** The sum when an operand is a zero, an infinity or a NaN. */
  ghost predicate SpecialSum(r: Bf, a: Bf, b: Bf, bSign: bool, prec: nat, flags: Flags, st: Status)
    requires 1 <= flags.expBits
    reads r, a, b, r.tab, a.tab, b.tab
  {
    if a.IsNan() || b.IsNan() then r.IsNan() && st == OK
    else if a.IsInf() && b.IsInf() && a.sign != bSign then r.IsNan() && st == OK.(invalidOp := true)
    else if a.IsInf() then r.IsInf() && r.sign == a.sign && st == OK
    else if b.IsInf() then r.IsInf() && r.sign == bSign && st == OK
    else if a.IsZero() && b.IsZero() then
      r.IsZero() && r.sign == (if a.sign == bSign then a.sign else flags.mode == RNDD) && st == OK
    else if b.IsZero() then r.CorrectResult(a.sign, a.Mant(), 1, a.LowExp(), prec, flags, st)
    else a.IsZero() && r.CorrectResult(bSign, b.Mant(), 1, b.LowExp(), prec, flags, st)
  }

  /** The correctly rounded exact sum; a sum of zero is positive unless the rounding is downward. */
  ghost predicate SumResult(r: Bf, a: Bf, b: Bf, bNeg: bool, prec: nat, flags: Flags, st: Status)
    requires 1 <= flags.expBits
    reads r, a, b, r.tab, a.tab, b.tab
  {
    if a.Finite() && b.Finite() then
      var s := ExactSum(a, b, bNeg);
      if s == 0 then r.IsZero() && r.sign == (flags.mode == RNDD) && st == OK
      else r.CorrectResult(s < 0, Abs(s), 1, MinInt(a.LowExp(), b.LowExp()), prec, flags, st)
    else SpecialSum(r, a, b, b.sign != bNeg, prec, flags, st)
  }

  /**
   bf_add_internal: `bNeg` makes it a subtraction.  For finite operands the result is the exact sum,
   correctly rounded.
   */
  method BfAddInternal(r: Bf, a: Bf, b: Bf, prec: nat, flags: Flags, bNeg: bool) returns (st: Status)
    requires Regular(a) && Regular(b) && r != a && r != b
    requires 1 <= prec && 1 <= flags.expBits && !flags.radPnt && flags.mode != RNDF
    modifies r
    ensures unchanged(a) && unchanged(b)
    ensures SumResult(r, a, b, bNeg, prec, flags, st)
  {
    hide V, BP, Pow2, Bf.CorrectResult, SumResult, NotSmaller, InUnits, Sign, MinInt;
    var bSign := b.sign != bNeg;
    var isSub := a.sign != bSign;
    var cmpRes := BfCmpu(a, b);
    var x, y, xSign := a, b, a.sign;
    if cmpRes < 0 {
      x, y, xSign := b, a, bSign;
    }
    if cmpRes == 0 && isSub && x.expn < EXP_INF {
      // everything cancelled
      r.BfSetZero(flags.mode == RNDD);
      st := OK;
      EqualParts(a, b, bNeg);
      ZeroSum(r, a, b, bNeg, prec, flags, st);
    } else if x.tab.Length == 0 || y.tab.Length == 0 {
      WithoutLimbs(a, b);
      st := AddSpecial(r, x, y, xSign, isSub, prec, flags);
      SpecialCases(r, a, b, bNeg, cmpRes, prec, flags, st);
    } else {
      FiniteParts(a, b, bNeg, cmpRes);
      st := AddFinite(r, x, y, xSign, isSub, prec, flags);
      FiniteSum(r, a, b, bNeg, cmpRes, prec, flags, st);
    }
  }

  /** The sum when an operand has no limbs; `x` has the larger magnitude. */
  method AddSpecial(r: Bf, x: Bf, y: Bf, xSign: bool, isSub: bool, prec: nat, flags: Flags) returns (st: Status)
    requires Regular(x) && Regular(y) && r != x && r != y
    requires 1 <= prec && 1 <= flags.expBits && !flags.radPnt && flags.mode != RNDF
    modifies r
    ensures
      if x.expn >= EXP_INF then
        if x.expn == EXP_NAN then r.IsNan() && st == OK
        else if y.expn == EXP_INF && isSub then r.IsNan() && st == OK.(invalidOp := true)
        else r.IsInf() && r.sign == xSign && st == OK
      else if old(x.Finite()) then r.CorrectResult(xSign, x.Mant(), 1, x.LowExp(), prec, flags, st)
      else r.IsZero() && r.sign == xSign && st == OK
  {
    hide V, BP, Pow2, Bf.CorrectResult;
    st := OK;
    if x.expn >= EXP_INF {
      if x.expn == EXP_NAN {
        r.BfSetNan();
      } else if y.expn == EXP_INF && isSub {
        r.BfSetNan();
        st := OK.(invalidOp := true);
      } else {
        r.BfSetInf(xSign);
      }
    } else {
      // nothing to add to
      var t := new limb[x.tab.Length];
      CopyLimbs(t, 0, x.tab, 0, x.tab.Length);
      r.tab, r.expn, r.sign := t, x.expn, xSign;
      if x.tab.Length == 0 {
        Empty(t[..], 0);
        ghost var l, shift;
        st, l, shift := r.BfNormalizeAndRound(prec, flags);
      } else {
        TopBound(x.tab[..], 0, x.tab.Length);
        QuotientIs(x.Mant(), 1, x.Mant(), 0);
        JamExact(x.Mant());
        st := r.RoundSticky(prec, flags, x.Mant(), 1);
      }
    }
  }

  /** Two operands without limbs have equal magnitudes. */
  lemma WithoutLimbs(a: Bf, b: Bf)
    ensures a.tab.Length == 0 && b.tab.Length == 0 ==>
      var n := Longer(a.tab.Length, b.tab.Length); a.Mant() * BP(n - a.tab.Length) == b.Mant() * BP(n - b.tab.Length) == 0
  {
    Empty(a.tab[..], 0);
    Empty(b.tab[..], 0);
  }

  /** Equal magnitudes cancel. */
  lemma EqualParts(a: Bf, b: Bf, bNeg: bool)
    requires a.sign != (b.sign != bNeg) && a.expn == b.expn
    requires var n := Longer(a.tab.Length, b.tab.Length); a.Mant() * BP(n - a.tab.Length) == b.Mant() * BP(n - b.tab.Length)
    ensures ExactSum(a, b, bNeg) == 0
  {
    hide V, BP, Pow2;
    var n := Longer(a.tab.Length, b.tab.Length);
    BitsOfLimbs(n - a.tab.Length);
    BitsOfLimbs(n - b.tab.Length);
    assert MinInt(a.LowExp(), b.LowExp()) == a.expn - LIMB_BITS * n;
  }

  lemma ZeroSum(r: Bf, a: Bf, b: Bf, bNeg: bool, prec: nat, flags: Flags, st: Status)
    requires Regular(a) && Regular(b) && a.expn == b.expn < EXP_INF && a.sign != (b.sign != bNeg) && 1 <= flags.expBits
    requires r.IsZero() && r.sign == (flags.mode == RNDD) && st == OK && ExactSum(a, b, bNeg) == 0
    ensures SumResult(r, a, b, bNeg, prec, flags, st)
  {
    hide ExactSum;
  }

  lemma FiniteSum(r: Bf, a: Bf, b: Bf, bNeg: bool, cmpRes: int, prec: nat, flags: Flags, st: Status)
    requires a.Finite() && b.Finite() && 1 <= flags.expBits
    requires var x, y, xSign, isSub := if cmpRes < 0 then b else a, if cmpRes < 0 then a else b,
        if cmpRes < 0 then b.sign != bNeg else a.sign, a.sign != (b.sign != bNeg);
      var e := MinInt(x.LowExp(), y.LowExp());
      var n := InUnits(x.Mant(), x.LowExp(), e) + Sign(isSub) * InUnits(y.Mant(), y.LowExp(), e);
      0 < n && r.CorrectResult(xSign, n, 1, e, prec, flags, st)
    ensures SumResult(r, a, b, bNeg, prec, flags, st)
  {
    hide ExactSum, Bf.CorrectResult, InUnits, Sign;
    SumSign(a, b, bNeg);
  }

  lemma SpecialCases(r: Bf, a: Bf, b: Bf, bNeg: bool, cmpRes: int, prec: nat, flags: Flags, st: Status)
    requires Regular(a) && Regular(b) && 1 <= flags.expBits && (a.tab.Length == 0 || b.tab.Length == 0)
    requires a.expn != b.expn ==> cmpRes == Order(a.expn, b.expn)
    requires var x, y, xSign, isSub := if cmpRes < 0 then b else a, if cmpRes < 0 then a else b,
        if cmpRes < 0 then b.sign != bNeg else a.sign, a.sign != (b.sign != bNeg);
      && !(cmpRes == 0 && isSub && x.expn < EXP_INF)
      && if x.expn >= EXP_INF then
          if x.expn == EXP_NAN then r.IsNan() && st == OK
          else if y.expn == EXP_INF && isSub then r.IsNan() && st == OK.(invalidOp := true)
          else r.IsInf() && r.sign == xSign && st == OK
        else if x.Finite() then r.CorrectResult(xSign, x.Mant(), 1, x.LowExp(), prec, flags, st)
        else r.IsZero() && r.sign == xSign && st == OK
    requires a.expn == b.expn && a.tab.Length == 0 && b.tab.Length == 0 ==> cmpRes == 0
    ensures SumResult(r, a, b, bNeg, prec, flags, st)
  {
    hide V, BP, Pow2, Bf.CorrectResult;
  }

  /** The operands in the order in which they are added. */
  lemma FiniteParts(a: Bf, b: Bf, bNeg: bool, cmpRes: int)
    requires a.expn != b.expn ==> cmpRes == Order(a.expn, b.expn)
    requires a.expn == b.expn ==>
      var n := Longer(a.tab.Length, b.tab.Length);
      cmpRes == Order(a.Mant() * BP(n - a.tab.Length), b.Mant() * BP(n - b.tab.Length))
    requires Regular(a) && Regular(b) && a.tab.Length != 0 && b.tab.Length != 0
    requires !(cmpRes == 0 && a.sign != (b.sign != bNeg))
    ensures a.Finite() && b.Finite()
    ensures if cmpRes < 0 then NotSmaller(b, a, a.sign != (b.sign != bNeg)) else NotSmaller(a, b, a.sign != (b.sign != bNeg))
  {
    hide V, BP;
  }

  /** The sign of the exact sum is that of the larger operand. */
  lemma SumSign(a: Bf, b: Bf, bNeg: bool)
    ensures var lo, bSign := MinInt(a.LowExp(), b.LowExp()), b.sign != bNeg;
      var u, v, isSub, s := InUnits(a.Mant(), a.LowExp(), lo), InUnits(b.Mant(), b.LowExp(), lo), a.sign != bSign, ExactSum(a, b, bNeg);
      && (0 < u + Sign(isSub) * v ==> Abs(s) == u + Sign(isSub) * v && s != 0 && (s < 0 <==> a.sign))
      && (0 < v + Sign(isSub) * u ==> Abs(s) == v + Sign(isSub) * u && s != 0 && (s < 0 <==> bSign))
  {
    hide V, Pow2;
  }
}
