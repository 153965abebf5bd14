/**
 Multiplication of large numbers by number theoretic transforms modulo several
 primes (bf_get_fft_size and fft_mul in libbf.c).
 */
module FftMul {
  import opened Limbs
  import MpBase
  import opened Congruence
  import opened Udiv
  import opened Rounding
  import opened Dft
  import opened BfBits
  import opened NttArith
  import opened NttPass
  import opened NttRoots
  import opened NttState
  import opened FftDigits
  import opened FftLimbs
  import opened FftBack
  import opened Wrappers

  /** How many bits the last five, four, ... one moduli can hold. */
  const NTT_INT_BITS: seq<nat> := [148, 119, 89, 59, 29]

  lemma IntBits(nb: nat)
    requires 3 <= nb <= NB_MODS
    ensures Pow2(NTT_INT_BITS[NB_MODS - nb]) <= ModProduct(Mods(nb), nb)
  {
    hide Pow2;
    IntPowers();
    if nb == 3 {
      assert Mods(3) == [0x36d00001, 0x37300001, 0x3e500001];
      ThreeProduct(Mods(3));
    } else if nb == 4 {
      assert Mods(4) == [0x33700001, 0x36d00001, 0x37300001, 0x3e500001];
      ThreeProduct(Mods(4));
      assert ModProduct(Mods(4), 4) == ModProduct(Mods(4), 3) * Mods(4)[3];
    } else {
      assert Mods(5) == [0x32b00001, 0x33700001, 0x36d00001, 0x37300001, 0x3e500001];
      ThreeProduct(Mods(5));
      assert ModProduct(Mods(5), 4) == ModProduct(Mods(5), 3) * Mods(5)[3];
      assert ModProduct(Mods(5), 5) == ModProduct(Mods(5), 4) * Mods(5)[4];
    }
  }

  lemma ThreeProduct(ms: seq<limb>)
    requires 3 <= |ms|
    ensures ModProduct(ms, 3) == ms[0] as int * ms[1] * ms[2]
  {
    assert ModProduct(ms, 1) == ModProduct(ms, 0) * ms[0];
    assert ModProduct(ms, 2) == ModProduct(ms, 1) * ms[1];
    assert ModProduct(ms, 3) == ModProduct(ms, 2) * ms[2];
  }

  lemma IntPowers()
    ensures Pow2(89) == 0x2000_0000 * 0x4000_0000 * 0x4000_0000
    ensures Pow2(119) == Pow2(89) * 0x4000_0000 && Pow2(148) == Pow2(119) * 0x2000_0000
  {
    hide Pow2;
    Pow2Values();
    Pow2Add(MOD_LOG2_MIN, 1);
    Pow2Add(29, 30);
    Pow2Add(59, 30);
    Pow2Add(89, 30);
    Pow2Add(119, 29);
  }

  // --------------------------------------------------------------- fft sizes

  datatype FftSize = FftSize(fftLenLog2: nat, dpl: nat, nbMods: nat)

  /** The transform is long enough for the digits and the moduli can hold the coefficients. */
  ghost predicate Suits(z: FftSize, len: nat) {
    && 3 <= z.nbMods <= NB_MODS && 1 <= z.dpl <= MAX_DPL && z.fftLenLog2 <= PROOT_2EXP
    && z.fftLenLog2 + 2 * z.dpl <= NTT_INT_BITS[NB_MODS - z.nbMods]
    && len * LIMB_BITS <= z.dpl * Pow2(z.fftLenLog2)
  }

  /** The sizes that are looked at: digits leave four bits to the length of the transform. */
  ghost predicate Candidate(z: FftSize, len: nat) {
    Suits(z, len) && 2 * z.dpl + 4 <= NTT_INT_BITS[NB_MODS - z.nbMods]
  }

  /** No size of this many moduli has a shorter transform, with digits of more than `dpl` bits. */
  ghost predicate NoneLonger(len: nat, nbMods: nat, dpl: nat) {
    forall y: FftSize :: y.nbMods == nbMods && Candidate(y, len) ==> y.dpl <= dpl
  }

  /** The transform that digits of `dpl` bits need is the shortest that suits them. */
  lemma ShortestFor(len: nat, dpl: nat, digits: nat, k: nat, y: FftSize)
    requires 1 <= dpl && digits == (len * LIMB_BITS + dpl - 1) / dpl && (0 < k ==> Pow2(k - 1) < digits)
    requires Suits(y, len) && y.dpl <= dpl
    ensures k <= y.fftLenLog2
  {
    hide Pow2;
    var n := Pow2(y.fftLenLog2);
    MulLe(y.dpl, dpl, n);
    DivMod(len * LIMB_BITS + dpl - 1, dpl);
    if n < digits { MulLe(n + 1, digits, dpl); Dist(n, 1, dpl); }
    if y.fftLenLog2 < k { Pow2Up(y.fftLenLog2, k - 1); }
  }

  lemma NotThisLong(len: nat, nbMods: nat, dpl: nat, digits: nat, k: nat)
    requires 3 <= nbMods <= NB_MODS && 1 <= dpl && digits == (len * LIMB_BITS + dpl - 1) / dpl && (0 < k ==> Pow2(k - 1) < digits)
    requires NoneLonger(len, nbMods, dpl) && (PROOT_2EXP < k || NTT_INT_BITS[NB_MODS - nbMods] < k + 2 * dpl)
    ensures NoneLonger(len, nbMods, if PROOT_2EXP < k then 0 else dpl - 1)
  {
    forall y: FftSize | y.nbMods == nbMods && Candidate(y, len) ensures y.dpl <= if PROOT_2EXP < k then 0 else dpl - 1 {
      ShortestFor(len, dpl, digits, k, y);
    }
  }

  /** The number of digits, rounded up, and the size it needs. */
  lemma SizeHolds(len: nat, dpl: nat, digits: nat, k: nat)
    requires 1 <= dpl && digits == (len * LIMB_BITS + dpl - 1) / dpl && digits <= Pow2(k)
    ensures len * LIMB_BITS <= dpl * Pow2(k)
  {
    DivMod(len * LIMB_BITS + dpl - 1, dpl);
    MulLe(digits, Pow2(k), dpl);
  }

  /** Numbers up to this many limbs get a transform of at most 2^19 points. */
  const MAX_LEN := 0x10_0000

  /** The longest digits that fit with `nbMods` moduli, if the transform is not too long. */
  method FindDpl(len: nat, nbMods: nat) returns (z: Option<FftSize>)
    requires 3 <= nbMods <= NB_MODS && len * LIMB_BITS + MAX_DPL < B
    ensures z.Some? ==> z.value.nbMods == nbMods && Suits(z.value, len)
    ensures nbMods == NB_MODS && len <= MAX_LEN ==> z.Some? && z.value.fftLenLog2 <= TRIG_K_MAX
    ensures nbMods == NB_MODS && len <= 2 ==> z.Some? && z.value.fftLenLog2 == 0
    ensures z.Some? ==> forall y: FftSize :: y.nbMods == nbMods && Candidate(y, len) ==> z.value.fftLenLog2 <= y.fftLenLog2
    ensures z.Some? ==> Candidate(z.value, len)
    ensures z.None? ==> NoneLonger(len, nbMods, 0)
  {
    hide Pow2;
    var intBits := NTT_INT_BITS[NB_MODS - nbMods];
    var dpl := if (intBits - 4) / 2 < MAX_DPL then (intBits - 4) / 2 else MAX_DPL;
    while true
      invariant 1 <= dpl <= MAX_DPL && 2 * dpl + 4 <= intBits && NoneLonger(len, nbMods, dpl)
      invariant nbMods == NB_MODS && len <= MAX_LEN ==> 2 * LIMB_BITS <= dpl
      decreases dpl
    {
      var digits: nat := (len * LIMB_BITS + dpl - 1) / dpl;
      DigitsSmall(len * LIMB_BITS + dpl - 1, dpl);
      var k := CeilLog2(digits);
      if len <= MAX_LEN && 2 * LIMB_BITS <= dpl { ShortTransform(len, dpl, digits, k); }
      if len <= 2 && 2 * LIMB_BITS <= dpl { OneDigit(len, dpl, digits); }
      if PROOT_2EXP < k {
        NotThisLong(len, nbMods, dpl, digits, k);
        return None;
      }
      if k + 2 * dpl <= intBits {
        SizeHolds(len, dpl, digits, k);
        forall y: FftSize | y.nbMods == nbMods && Candidate(y, len) ensures k <= y.fftLenLog2 { ShortestFor(len, dpl, digits, k, y); }
        return Some(FftSize(k, dpl, nbMods));
      }
      NotThisLong(len, nbMods, dpl, digits, k);
      dpl := dpl - 1;
      if dpl == 0 {
        return None;
      }
    }
  }

  /** Two limbs fit in one digit. */
  lemma OneDigit(len: nat, dpl: nat, digits: nat)
    requires len <= 2 && 2 * LIMB_BITS <= dpl && digits == (len * LIMB_BITS + dpl - 1) / dpl
    ensures digits <= 1 && CeilLog2(digits) == 0
  {
    DivMod(len * LIMB_BITS + dpl - 1, dpl);
    if 2 <= digits { MulLe(2, digits, dpl); }
  }

  lemma DigitsSmall(x: nat, d: nat)
    requires 1 <= d && x < B
    ensures 0 <= x / d < B
  {
    DivMod(x, d);
    if B <= x / d { MulLe(B, x / d, d); MulLe(1, d, B); }
  }

  lemma ShortTransform(len: nat, dpl: nat, digits: nat, k: nat)
    requires len <= MAX_LEN && 2 * LIMB_BITS <= dpl && digits == (len * LIMB_BITS + dpl - 1) / dpl
    requires 0 < k ==> Pow2(k - 1) < digits
    ensures k <= TRIG_K_MAX
  {
    hide Pow2;
    LongPowers();
    DivMod(len * LIMB_BITS + dpl - 1, dpl);
    if 0x8_0000 < digits { MulLe(0x8_0001, digits, dpl); MulLe(2 * LIMB_BITS, dpl, 0x8_0000); }
    if TRIG_K_MAX < k { Pow2Up(TRIG_K_MAX, k - 1); }
  }

  lemma LongPowers()
    ensures Pow2(19) == 0x8_0000 && Pow2(20) == 0x10_0000
  {
    hide Pow2;
    Pow2Small();
    Pow2One();
    Pow2Add(8, 8);
    Pow2Add(1, 1);
    Pow2Add(2, 1);
    Pow2Add(16, 3);
    Pow2Add(19, 1);
  }

  /** The work of a transform and its inverse, for all the moduli. */
  function Cost(z: FftSize): nat {
    (z.fftLenLog2 + 1) * Pow2(z.fftLenLog2) * z.nbMods
  }

  /** The longest transform costs more with three moduli than any shorter one with five. */
  lemma LongCosts(y: FftSize, z: FftSize)
    requires y.fftLenLog2 <= TRIG_K_MAX && y.nbMods <= NB_MODS && 3 <= z.nbMods && z.fftLenLog2 <= PROOT_2EXP
    ensures Cost(y) < B - 1
    ensures Cost(z) <= Cost(y) ==> z.fftLenLog2 <= TRIG_K_MAX
  {
    hide Pow2;
    LongPowers();
    var k := y.fftLenLog2;
    Pow2Up(k, TRIG_K_MAX);
    MulLe(k + 1, 20, Pow2(k));
    MulLe(0, k + 1, Pow2(k));
    MulLe(y.nbMods, 5, (k + 1) * Pow2(k));
    if z.fftLenLog2 == PROOT_2EXP { MulLe(3, z.nbMods, 21 * Pow2(20)); }
  }

  /** One point with five moduli costs less than two points with three. */
  lemma OnePoint(y: FftSize, z: FftSize)
    requires y.fftLenLog2 == 0 && y.nbMods == NB_MODS && 3 <= z.nbMods && Cost(z) <= Cost(y)
    ensures z.fftLenLog2 == 0
  {
    hide Pow2;
    Pow2One();
    var k := z.fftLenLog2;
    if k != 0 {
      Pow2Up(1, k);
      MulLe(2, k + 1, Pow2(k));
      MulLe(3, z.nbMods, (k + 1) * Pow2(k));
    }
  }

  lemma SuitsSize(z: FftSize, len: nat)
    requires Suits(z, len)
    ensures 3 <= z.nbMods <= NB_MODS && z.fftLenLog2 <= PROOT_2EXP
  {
  }

  lemma FewerBits(z: FftSize, len: nat)
    requires Suits(z, len) && FAST_DPL < z.dpl && len * LIMB_BITS <= FAST_DPL * Pow2(z.fftLenLog2)
    ensures Suits(z.(dpl := FAST_DPL), len)
  {
    hide Pow2;
  }

  lemma Dearer(y: FftSize, z: FftSize)
    requires y.nbMods == z.nbMods && y.fftLenLog2 <= z.fftLenLog2
    ensures Cost(y) <= Cost(z)
  {
    hide Pow2;
    Pow2Up(y.fftLenLog2, z.fftLenLog2);
    MulLe(y.fftLenLog2 + 1, z.fftLenLog2 + 1, Pow2(y.fftLenLog2));
    MulLe(Pow2(y.fftLenLog2), Pow2(z.fftLenLog2), z.fftLenLog2 + 1);
    MulLe((y.fftLenLog2 + 1) * Pow2(y.fftLenLog2), (z.fftLenLog2 + 1) * Pow2(z.fftLenLog2), z.nbMods);
  }

  /** No candidate with fewer than `nb` moduli costs less. */
  ghost predicate Cheapest(len: nat, nb: nat, minCost: nat) {
    forall y: FftSize :: y.nbMods < nb && Candidate(y, len) ==> minCost <= Cost(y)
  }

  lemma NextCheapest(len: nat, nb: nat, minCost: nat, found: Option<FftSize>, minCost': nat)
    requires Cheapest(len, nb, minCost) && minCost' <= minCost
    requires found.Some? ==> found.value.nbMods == nb && minCost' <= Cost(found.value)
    requires found.Some? ==> forall y: FftSize :: y.nbMods == nb && Candidate(y, len) ==> found.value.fftLenLog2 <= y.fftLenLog2
    requires found.None? ==> NoneLonger(len, nb, 0)
    ensures Cheapest(len, nb + 1, minCost')
  {
    hide Cost;
    forall y: FftSize | y.nbMods < nb + 1 && Candidate(y, len) ensures minCost' <= Cost(y) {
      if y.nbMods == nb { Dearer(found.value, y); }
    }
  }

  lemma NoFewer(len: nat, minCost: nat)
    ensures Cheapest(len, 3, minCost)
  {
  }

  /** All candidates have been looked at. */
  lemma Concluded(len: nat, z: Option<FftSize>, minCost: nat)
    requires Cheapest(len, NB_MODS + 1, minCost)
    requires z.Some? ==> Candidate(z.value, len) && minCost == Cost(z.value)
    requires z.None? ==> minCost == B - 1
    ensures z.Some? ==> Suits(z.value, len) && forall y: FftSize :: Candidate(y, len) ==>
      (z.value.fftLenLog2 + 1) * Pow2(z.value.fftLenLog2) * z.value.nbMods <= (y.fftLenLog2 + 1) * Pow2(y.fftLenLog2) * y.nbMods
    ensures z.None? <==> forall y: FftSize :: !Candidate(y, len)
  {
    hide Pow2, Cost;
    if z.Some? { CostIs(z.value); }
    forall y: FftSize | Candidate(y, len)
      ensures z.Some? && (z.value.fftLenLog2 + 1) * Pow2(z.value.fftLenLog2) * z.value.nbMods <= (y.fftLenLog2 + 1) * Pow2(y.fftLenLog2) * y.nbMods
    {
      CandidateCost(y, len);
      CostIs(y);
    }
  }

  lemma CostIs(z: FftSize)
    ensures Cost(z) == (z.fftLenLog2 + 1) * Pow2(z.fftLenLog2) * z.nbMods
  {
  }

  lemma CandidateCost(z: FftSize, len: nat)
    requires Suits(z, len)
    ensures Cost(z) < B - 1
  {
    hide Pow2;
    LongPowers();
    var k := z.fftLenLog2;
    Pow2Up(k, PROOT_2EXP);
    MulLe(k + 1, 21, Pow2(k));
    MulLe(0, k + 1, Pow2(k));
    MulLe(z.nbMods, 5, (k + 1) * Pow2(k));
  }

  /**
   The cheapest choice; none when the number is too long for every choice.  The transform has a single
   point exactly for numbers of at most two limbs.
   */
  method BfGetFftSize(len: nat) returns (z: Option<FftSize>)
    requires len * LIMB_BITS + MAX_DPL < B
    ensures z.Some? ==> Suits(z.value, len)
    ensures z.Some? ==> forall y: FftSize :: Candidate(y, len) ==>
      (z.value.fftLenLog2 + 1) * Pow2(z.value.fftLenLog2) * z.value.nbMods <= (y.fftLenLog2 + 1) * Pow2(y.fftLenLog2) * y.nbMods
    ensures z.None? <==> forall y: FftSize :: !Candidate(y, len)
    ensures len <= MAX_LEN ==> z.Some? && z.value.fftLenLog2 <= TRIG_K_MAX
    ensures z.Some? ==> (z.value.fftLenLog2 == 0 <==> len <= 2)
  {
    hide Pow2, Cost, Suits, Candidate, NoneLonger;
    var minCost := B - 1;
    NoFewer(len, minCost);
    z := None;
    ghost var last: Option<FftSize> := None;
    for nbMods := 3 to NB_MODS + 1
      invariant z.Some? ==> Candidate(z.value, len) && minCost == Cost(z.value)
      invariant z.None? ==> minCost == B - 1
      invariant Cheapest(len, nbMods, minCost)
      invariant 3 < nbMods && last.Some? ==> minCost <= Cost(last.value)
      invariant NB_MODS < nbMods && len <= MAX_LEN ==>
        last.Some? && last.value.fftLenLog2 <= TRIG_K_MAX && last.value.nbMods == NB_MODS && (len <= 2 ==> last.value.fftLenLog2 == 0)
    {
      var found := FindDpl(len, nbMods);
      last := found;
      ghost var before := minCost;
      if found.Some? {
        var cost := Cost(found.value);
        if cost < minCost {
          minCost := cost;
          z := found;
        }
      }
      NextCheapest(len, nbMods, before, found, minCost);
    }
    Concluded(len, z, minCost);
    if z.Some? { SuitsSize(z.value, len); }
    if len <= MAX_LEN { LongCosts(last.value, if z.Some? then z.value else last.value); }
    if z.Some? {
      SuitsSize(z.value, len);
      if len <= 2 { OnePoint(last.value, z.value); } else { SuitsFacts(z.value, len); }
    }
    if z.Some? && FAST_DPL < z.value.dpl && len * LIMB_BITS <= FAST_DPL * Pow2(z.value.fftLenLog2) {
      FewerBits(z.value, len);
      CostIs(z.value);
      z := Some(z.value.(dpl := FAST_DPL));
    }
  }

  // ----------------------------------------------------------------- product

  /** The tables of all the moduli. */
  ghost predicate Tables(s: seq<NttModulus>)
    reads s
  {
    |s| == NB_MODS && (forall j :: 0 <= j < NB_MODS ==> s[j].Valid() && s[j].m == NTT_MODS[j]) &&
    forall i, j :: 0 <= i < j < NB_MODS ==> s[i] != s[j]
  }

  /** Coefficients of the product that the moduli can hold. */
  lemma CoefficientsInRange(u: nat, v: nat, z: FftSize, len: nat)
    requires Suits(z, len)
    ensures var x, n := Pow2(z.dpl), Pow2(z.fftLenLog2);
      InRange(Conv(Digits(u, x, n), Digits(v, x, n)), z.nbMods)
  {
    hide Pow2, Digits, Conv, ModProduct, Mods;
    var x, n := Pow2(z.dpl), Pow2(z.fftLenLog2);
    var c := Conv(Digits(u, x, n), Digits(v, x, n));
    IntBits(z.nbMods);
    Pow2Up(z.fftLenLog2 + 2 * z.dpl, NTT_INT_BITS[NB_MODS - z.nbMods]);
    Pow2Add(z.fftLenLog2, 2 * z.dpl);
    Pow2Add(z.dpl, z.dpl);
    forall i | 0 <= i < |c| ensures 0 <= c[i] < ModProduct(Mods(z.nbMods), z.nbMods) {
      CoefficientBound(u, v, x, n, i);
      SquareSmaller(x, n);
    }
  }

  lemma SquareSmaller(x: nat, n: nat)
    requires 1 <= x && 1 <= n
    ensures n * ((x - 1) * (x - 1)) < n * (x * x)
  {
    MulLe(x - 1, x, x - 1);
    MulLt(x - 1, x, x);
    MulLt((x - 1) * (x - 1), x * x, n);
  }

  /** The digits of the factors leave room for the product. */
  lemma ProductHeld(u: nat, v: nat, aLen: nat, bLen: nat, z: FftSize)
    requires Suits(z, aLen + bLen) && 1 <= aLen && 1 <= bLen && u < BP(aLen) && v < BP(bLen)
    ensures var x, n := Pow2(z.dpl), Pow2(z.fftLenLog2);
      Eval(Conv(Digits(u, x, n), Digits(v, x, n)), x) == u * v
    ensures 0 <= u * v < BP(aLen + bLen)
  {
    hide Pow2, BP, Digits, Conv, Eval, Pow;
    var x, n := Pow2(z.dpl), Pow2(z.fftLenLog2);
    var na, nb: nat := CeilDiv(aLen, z.dpl), CeilDiv(bLen, z.dpl);
    DigitRoom(u, aLen, z.dpl);
    DigitRoom(v, bLen, z.dpl);
    RoomForBoth(aLen, bLen, z.dpl, n);
    ConvIsProduct(u, v, x, n, na, nb);
    BPAdd(aLen, bLen);
    MulLe(0, u, v);
    MulLe(u, BP(aLen), v);
    MulLt(v, BP(bLen), BP(aLen));
  }

  function CeilDiv(len: nat, dpl: nat): (d: nat)
    requires 1 <= dpl
    ensures d * dpl >= len * LIMB_BITS && d * dpl < len * LIMB_BITS + dpl
  {
    DivMod(len * LIMB_BITS + dpl - 1, dpl);
    (len * LIMB_BITS + dpl - 1) / dpl
  }

  lemma DigitRoom(u: nat, len: nat, dpl: nat)
    requires 1 <= dpl && u < BP(len)
    ensures 1 < Pow2(dpl) && u < Pow(Pow2(dpl), CeilDiv(len, dpl))
  {
    hide Pow2, BP, Pow;
    var d := CeilDiv(len, dpl);
    BitsOfLimbs(len);
    Pow2IsPow(dpl, d);
    Pow2Up(len * LIMB_BITS, d * dpl);
    Pow2One();
    Pow2Up(1, dpl);
  }

  lemma RoomForBoth(aLen: nat, bLen: nat, dpl: nat, n: nat)
    requires 1 <= dpl && 1 <= aLen && 1 <= bLen && (aLen + bLen) * LIMB_BITS <= dpl * n
    ensures var na, nb := CeilDiv(aLen, dpl), CeilDiv(bLen, dpl); na + nb <= n + 1 && 1 <= na <= n && 1 <= nb <= n
  {
    var na, nb := CeilDiv(aLen, dpl), CeilDiv(bLen, dpl);
    Dist(na, nb, dpl);
    if n + 2 <= na + nb { MulLe(n + 2, na + nb, dpl); Dist(n, 2, dpl); }
  }

  /** Congruent factors have congruent convolutions. */
  lemma {:induction false} ConvSumCong(a: seq<int>, a': seq<int>, b: seq<int>, b': seq<int>, i: int, t: nat, m: int)
    requires 0 < m && SameMod(a, a', m) && SameMod(b, b', m) && t <= |a| && 0 < |b|
    ensures Cong(ConvSum(a, b, i, t), ConvSum(a', b', i, t), m)
  {
    if t != 0 {
      ConvSumCong(a, a', b, b', i, t - 1, m);
      var k := (i - (t - 1)) % |b|;
      assert Cong(a[t - 1], a'[t - 1], m) && Cong(b[k], b'[k], m);
      CongMul(a[t - 1], a'[t - 1], b[k], b'[k], m);
      CongAdd(ConvSum(a, b, i, t - 1), ConvSum(a', b', i, t - 1), a[t - 1] * b[k], a'[t - 1] * b'[k], m);
    }
  }

  lemma ConvCong(r: seq<int>, a: seq<int>, a': seq<int>, b: seq<int>, b': seq<int>, m: int)
    requires 0 < m && SameMod(a, a', m) && SameMod(b, b', m) && |a| == |b| && 0 < |b| && SameMod(r, Conv(a, b), m)
    ensures SameMod(r, Conv(a', b'), m)
  {
    hide ConvSum, Cong;
    forall i | 0 <= i < |r| ensures Cong(r[i], Conv(a', b')[i], m) {
      ConvSumCong(a, a', b, b', i, |a|, m);
      assert Cong(r[i], Conv(a, b)[i], m);
      CongTrans(r[i], ConvSum(a, b, i, |a|), ConvSum(a', b', i, |a|), m);
    }
  }

  lemma CongTrans(a: int, b: int, c: int, m: int)
    requires 0 < m && Cong(a, b, m) && Cong(b, c, m)
    ensures Cong(a, c, m)
  {
  }

  lemma DigitsRemain(t: seq<limb>, u: nat, x: nat, n: nat, m: int)
    requires 0 < x && 0 < m && |t| == n && forall i :: 0 <= i < n ==> t[i] == Digit(u, x, i) % m
    ensures SameMod(t, Digits(u, x, n), m)
  {
    hide Digit;
    forall i | 0 <= i < n ensures Cong(t[i], Digits(u, x, n)[i], m) {
      CongMod(Digit(u, x, i), m);
    }
  }

  /** One modulus: the remainders of the coefficients of the product. */
  method ConvOne(st: NttModulus, a: array<limb>, ao: nat, aLen: nat, b: array<limb>, bo: nat, bLen: nat, dpl: nat, k: nat)
    returns (buf: seq<limb>)
    requires st.Valid() && ao + aLen <= a.Length && bo + bLen <= b.Length && 1 <= dpl <= MAX_DPL && 1 <= k <= TRIG_K_MAX
    modifies st`trig
    ensures st.Valid()
    ensures EntriesBelow(buf, 2 * st.m)
    ensures SameMod(buf, Conv(Digits(V(a[..], ao, aLen), Pow2(dpl), Pow2(k)), Digits(V(b[..], bo, bLen), Pow2(dpl), Pow2(k))), st.m)
  {
    hide V, Pow2, Digit, Digits, Conv, Cong, RootTable, LengthTable, EntriesBelow;
    var n := Pow2(k);
    ghost var u, v, x := V(a[..], ao, aLen), V(b[..], bo, bLen), Pow2(dpl);
    var buf1 := LimbToNtt(st, n, a, ao, aLen, dpl);
    var buf2 := LimbToNtt(st, n, b, bo, bLen, dpl);
    ghost var t1, t2: seq<limb> := buf1[..], buf2[..];
    DigitsRemain(t1, u, x, n, st.m);
    DigitsRemain(t2, v, x, n, st.m);
    Doubled(t1, st.m);
    Doubled(t2, st.m);
    var ok := st.NttConv(buf1, buf2, k, k);
    buf := buf1[..];
    ConvCong(buf, t1, Digits(u, x, n), t2, Digits(v, x, n), st.m);
  }

  lemma Doubled(t: seq<limb>, m: int)
    requires 0 < m && EntriesBelow(t, m)
    ensures EntriesBelow(t, 2 * m)
  {
  }

  /**
   The product, by transforms modulo three to five primes.  A number whose
   transform would have more than 2^19 points is not multiplied.
   */
  method FftMultiply(s: seq<NttModulus>, res: array<limb>, ro: nat, a: array<limb>, ao: nat, aLen: nat, b: array<limb>, bo: nat, bLen: nat)
    returns (ok: bool)
    requires Tables(s) && 1 <= aLen && 1 <= bLen && 3 <= aLen + bLen && (aLen + bLen) * LIMB_BITS + MAX_DPL < B
    requires ao + aLen <= a.Length && bo + bLen <= b.Length && ro + aLen + bLen <= res.Length && res != a && res != b
    modifies s, res
    ensures Tables(s) && Only(old(res[..]), res[..], ro, aLen + bLen)
    ensures aLen + bLen <= MAX_LEN ==> ok
    ensures ok ==> V(res[..], ro, aLen + bLen) == V(a[..], ao, aLen) * V(b[..], bo, bLen)
  {
    hide V, BP, Pow2, Digits, Conv, Eval, Suits, Remainders, InRange, Tables, Only;
    ghost var r0 := res[..];
    OnlySelf(r0, ro, aLen + bLen);
    var size := BfGetFftSize(aLen + bLen);
    if size.None? || TRIG_K_MAX < size.value.fftLenLog2 {
      return false;
    }
    var z := size.value;
    SuitsFacts(z, aLen + bLen);
    ghost var u, v := V(a[..], ao, aLen), V(b[..], bo, bLen);
    ghost var c := Conv(Digits(u, Pow2(z.dpl), Pow2(z.fftLenLog2)), Digits(v, Pow2(z.dpl), Pow2(z.fftLenLog2)));
    var bufs := ConvAll(s, a, ao, aLen, b, bo, bLen, z);
    CoefficientsInRange(u, v, z, aLen + bLen);
    VBound(a[..], ao, aLen);
    VBound(b[..], bo, bLen);
    ProductHeld(u, v, aLen, bLen, z);
    NttToLimb(res, ro, aLen + bLen, bufs, Pow2(z.fftLenLog2), z.dpl, z.nbMods, c);
    ok := true;
  }

  /** The remainders of the coefficients for every modulus in use. */
  method ConvAll(s: seq<NttModulus>, a: array<limb>, ao: nat, aLen: nat, b: array<limb>, bo: nat, bLen: nat, z: FftSize)
    returns (bufs: seq<seq<limb>>)
    requires Tables(s) && ao + aLen <= a.Length && bo + bLen <= b.Length
    requires 2 <= z.nbMods <= NB_MODS && 1 <= z.dpl <= MAX_DPL && 1 <= z.fftLenLog2 <= TRIG_K_MAX
    modifies s
    ensures Tables(s)
    ensures var x, n := Pow2(z.dpl), Pow2(z.fftLenLog2);
      Remainders(bufs, Conv(Digits(V(a[..], ao, aLen), x, n), Digits(V(b[..], bo, bLen), x, n)), z.nbMods)
  {
    hide V, Pow2, Digits, Conv, EntriesBelow, NttModulus.Valid, SameMod;
    var k, dpl, nb := z.fftLenLog2, z.dpl, z.nbMods;
    ghost var c := Conv(Digits(V(a[..], ao, aLen), Pow2(dpl), Pow2(k)), Digits(V(b[..], bo, bLen), Pow2(dpl), Pow2(k)));
    bufs := [];
    for j := 0 to nb
      invariant Tables(s) && |bufs| == j
      invariant forall e :: 0 <= e < j ==> EntriesBelow(bufs[e], 2 * Mods(nb)[e]) && SameMod(bufs[e], c, Mods(nb)[e])
    {
      var st := s[NB_MODS - nb + j];
      var buf := ConvOne(st, a, ao, aLen, b, bo, bLen, dpl, k);
      bufs := bufs + [buf];
    }
    AllRemainders(bufs, c, nb);
  }

  lemma AllRemainders(bufs: seq<seq<limb>>, c: seq<int>, nb: nat)
    requires nb <= NB_MODS && |bufs| == nb
    requires forall e :: 0 <= e < nb ==> EntriesBelow(bufs[e], 2 * Mods(nb)[e]) && SameMod(bufs[e], c, Mods(nb)[e])
    ensures Remainders(bufs, c, nb)
  {
  }

  lemma SuitsFacts(z: FftSize, len: nat)
    requires Suits(z, len) && 3 <= len
    ensures 3 <= z.nbMods <= NB_MODS && 1 <= z.dpl <= LIMB_BITS * z.nbMods && z.dpl <= MAX_DPL && 1 <= z.fftLenLog2
    ensures LIMB_BITS * len <= Pow2(z.fftLenLog2) * z.dpl
  {
    hide Pow2;
    Pow2One();
    BitsPerModulus(z.dpl, z.nbMods, z.fftLenLog2);
  }

  lemma BitsPerModulus(dpl: nat, nbMods: nat, k: nat)
    requires 3 <= nbMods <= NB_MODS && k + 2 * dpl <= NTT_INT_BITS[NB_MODS - nbMods]
    ensures dpl <= LIMB_BITS * nbMods
  {
  }

  /** The length of the shorter factor from which transforms are used. */
  const FFT_MUL_THRESHOLD := 100

  /** mp_mul: the schoolbook product for short factors, transforms for long ones. */
  method MpMul(s: seq<NttModulus>, result: array<limb>, ro: nat, op1: array<limb>, o1: nat, n1: nat, op2: array<limb>, o2: nat, n2: nat)
    returns (ok: bool)
    requires Tables(s) && 1 <= n2 && (n1 + n2) * LIMB_BITS + MAX_DPL < B
    requires ro + n1 + n2 <= result.Length && o1 + n1 <= op1.Length && o2 + n2 <= op2.Length
    requires result != op1 && result != op2
    modifies s, result
    ensures Tables(s) && Only(old(result[..]), result[..], ro, n1 + n2)
    ensures n1 < FFT_MUL_THRESHOLD || n2 < FFT_MUL_THRESHOLD || n1 + n2 <= MAX_LEN ==> ok
    ensures ok ==> V(result[..], ro, n1 + n2) == V(op1[..], o1, n1) * V(op2[..], o2, n2)
  {
    hide V, BP, Tables, Only;
    if FFT_MUL_THRESHOLD <= n1 && FFT_MUL_THRESHOLD <= n2 {
      ok := FftMultiply(s, result, ro, op1, o1, n1, op2, o2, n2);
    } else {
      MpBase.MpMulBasecase(result, ro, op1, o1, n1, op2, o2, n2);
      ok := true;
    }
  }
}
