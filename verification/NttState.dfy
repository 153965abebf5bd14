/**
 The tables of the number theoretic transform for one of the moduli, and the
 transform, pointwise product and cyclic convolution that use them (libbf.c).
 */
module NttState {
  import opened Limbs
  import opened Congruence
  import opened Udiv
  import opened Dft
  import opened NttArith
  import opened NttPass
  import opened NttRoots
  import opened Wrappers

  const TRIG_K_MAX := 19

  /** pow[e] has order 2^e. */
  ghost predicate RootEntry(pow: seq<limb>, powInv: seq<limb>, m: limb, e: nat)
    requires 0 < m && e < |pow| == |powInv|
  {
    pow[e] < m && Root(pow[e], e, m) && powInv[e] == InitMulModFast2(pow[e], m)
  }

  ghost predicate SquareOf(c: int, d: int, m: int)
    requires 0 < m
  {
    Cong(c, d * d, m)
  }

  ghost predicate SquareLink(pow: seq<limb>, m: limb, e: nat)
    requires 0 < m && 1 <= e < |pow|
  {
    SquareOf(pow[e - 1], pow[e], m)
  }

  ghost predicate RootsFrom(pow: seq<limb>, powInv: seq<limb>, m: limb, lo: nat)
    requires 0 < m
  {
    |pow| == |powInv| == PROOT_2EXP + 1 &&
    (forall e :: lo <= e <= PROOT_2EXP ==> RootEntry(pow, powInv, m, e)) &&
    (forall e :: lo < e <= PROOT_2EXP ==> SquareLink(pow, m, e))
  }

  /** Roots of order 2^1, ..., 2^20, each the square of the next, with their fixed-point inverses. */
  ghost predicate RootTable(pow: seq<limb>, powInv: seq<limb>, m: limb)
    requires 0 < m
  {
    RootsFrom(pow, powInv, m, 1)
  }

  ghost predicate LengthEntry(entry: (limb, limb), i: nat, m: limb)
    requires 0 < m
  {
    entry.0 < m && Cong(entry.0 * Pow2(i), 1, m) && entry.1 == InitMulModFast2(entry.0, m)
  }

  /** 1 / 2^i with its fixed-point inverse. */
  ghost predicate LengthTable(len: seq<(limb, limb)>, m: limb)
    requires 0 < m
  {
    |len| == PROOT_2EXP + 1 && forall i :: 0 <= i <= PROOT_2EXP ==> LengthEntry(len[i], i, m)
  }

  /** out is the transform of x with root w. */
  ghost predicate IsTransform(out: seq<limb>, x: seq<int>, w: int, m: int)
    requires 0 < m
  {
    |out| == |x| && forall q :: 0 <= q < |out| ==> Cong(out[q], Eval(x, Pow(w, q)), m)
  }

  method RootPowers(c0: limb, m: limb, mInv: limb) returns (pow: seq<limb>, powInv: seq<limb>)
    requires Modulus(m) && mInv == InitMulModFast(m) && c0 < m && Squared(c0, PROOT_2EXP - 1, m) == m - 1
    ensures RootTable(pow, powInv, m) && pow[PROOT_2EXP] == c0
  {
    hide Squared, RootsFrom, InitMulModFast2, MulModFast, InitMulModFast, SquareOf;
    pow, powInv := seq(PROOT_2EXP + 1, i => 0), seq(PROOT_2EXP + 1, i => 0);
    var c: limb := c0;
    assert RootsFrom(pow, powInv, m, PROOT_2EXP + 1) by { NoRootsYet(pow, powInv, m); }
    for i := 0 to PROOT_2EXP
      invariant |pow| == |powInv| == PROOT_2EXP + 1 && RootsFrom(pow, powInv, m, PROOT_2EXP + 1 - i) && c < m
      invariant if i == 0 then c == c0 else pow[PROOT_2EXP] == c0 && SquareOf(c, pow[PROOT_2EXP + 1 - i], m)
      invariant i < PROOT_2EXP ==> Squared(c, PROOT_2EXP - 1 - i, m) == m - 1
    {
      ghost var pow0, powInv0 := pow, powInv;
      pow := pow[PROOT_2EXP - i := c];
      powInv := powInv[PROOT_2EXP - i := InitMulModFast2(c, m)];
      RootStored(pow0, powInv0, pow, powInv, m, PROOT_2EXP - i);
      NextRoot(c, PROOT_2EXP - 1 - i, m);
      c := MulModFast(c, c, m, mInv);
    }
  }

  lemma NextRoot(c: limb, e: nat, m: limb)
    requires Modulus(m) && c < m && Squared(c, e, m) == m - 1
    ensures 0 <= c as int * c < P_MIN * B && SquareOf(c as int * c % m, c, m)
    ensures 0 < e ==> Squared(c as int * c % m, e - 1, m) == m - 1
  {
    ProductBound(c, c, m);
    CongMod(c as int * c, m);
    SquareNext(c, e, m);
  }

  lemma NoRootsYet(pow: seq<limb>, powInv: seq<limb>, m: limb)
    requires 0 < m && |pow| == |powInv| == PROOT_2EXP + 1
    ensures RootsFrom(pow, powInv, m, PROOT_2EXP + 1)
  {
  }

  lemma RootStored(pow: seq<limb>, powInv: seq<limb>, pow': seq<limb>, powInv': seq<limb>, m: limb, e: nat)
    requires 0 < m && 0 < e <= PROOT_2EXP && RootsFrom(pow, powInv, m, e + 1)
    requires |pow'| == |pow| && |powInv'| == |powInv|
    requires pow' == pow[e := pow'[e]] && powInv' == powInv[e := powInv'[e]]
    requires pow'[e] < m && Squared(pow'[e], e - 1, m) == m - 1 && powInv'[e] == InitMulModFast2(pow'[e], m)
    requires e < PROOT_2EXP ==> SquareOf(pow'[e], pow[e + 1], m)
    ensures RootsFrom(pow', powInv', m, e)
  {
    hide Root, SquareOf, Squared, InitMulModFast2;
    RootBySquaring(pow'[e], e, m);
    forall d | e <= d <= PROOT_2EXP ensures RootEntry(pow', powInv', m, d) {
      if e < d { assert RootEntry(pow, powInv, m, d); }
    }
    forall d | e < d <= PROOT_2EXP ensures SquareLink(pow', m, d) {
      if e + 1 < d { assert SquareLink(pow, m, d); }
    }
  }

  lemma SquareNext(c: int, i: nat, m: int)
    requires 0 < m
    ensures 0 < i ==> Squared(c * c % m, i - 1, m) == Squared(c, i, m)
  {
  }

  method LengthInverses(m: limb, mInv: limb) returns (len: seq<(limb, limb)>)
    requires Modulus(m) && mInv == InitMulModFast(m) && m % 2 == 1
    ensures LengthTable(len, m)
  {
    hide Cong, InitMulModFast2, MulModFast, InitMulModFast, Pow2;
    var cInv2: limb := (m + 1) / 2;
    len := seq(PROOT_2EXP + 1, i => (0, 0));
    var cInv: limb := 1;
    assert Pow2(0) == 1 by { Pow2One(); }
    assert Cong(1, 1, m) by { CongMod(1, m); CongChain(1, 1 % m, 1, m); }
    for i := 0 to PROOT_2EXP + 1
      invariant |len| == PROOT_2EXP + 1 && cInv < m && Cong(cInv * Pow2(i), 1, m)
      invariant forall e :: 0 <= e < i ==> LengthEntry(len[e], e, m)
    {
      len := len[i := (cInv, InitMulModFast2(cInv, m))];
      assert 0 <= cInv as int * cInv2 < P_MIN * B by { ProductBound(cInv, cInv2, m); }
      Halved(cInv, cInv2, i, m);
      cInv := MulModFast(cInv, cInv2, m, mInv);
    }
  }

  lemma ProductBound(a: limb, b: limb, m: limb)
    requires Modulus(m) && a < m && b < 2 * m
    ensures 0 <= a as int * b < P_MIN * B
  {
    MulLe(a, P_MAX, b);
    MulLe(b, 2 * P_MAX, P_MAX);
    MulLe(0, a, b);
    if a == 0 {
    } else {
      MulLt(a, P_MAX, 2 * P_MAX);
      MulLt(b, 2 * P_MAX, a);
    }
  }

  lemma Halved(c: int, half: int, i: nat, m: int)
    requires 0 < m && 2 * half == m + 1 && Cong(c * Pow2(i), 1, m)
    ensures 0 <= c * half % m < m && Cong((c * half % m) * Pow2(i + 1), 1, m)
  {
    var p := Pow2(i);
    CongMod(c * half, m);
    CongMul(c * half % m, c * half, 2 * p, 2 * p, m);
    Rearrange2(c, half, p);
    CongBy(m + 1, 1, 1, m);
    CongMul(c * p, 1, 2 * half, 1, m);
  }

  lemma Rearrange2(c: int, h: int, p: int)
    ensures c * h * (2 * p) == (c * p) * (2 * h)
  {
    Rearrange(c, h, 2, p);
    assert c * p * (h * 2) == (c * p) * (2 * h);
  }

  /** The slice of the transform state that belongs to one modulus. */
  class NttModulus {
    const m: limb
    const div: limb
    const prootPow: seq<seq<limb>>
    const prootPowInv: seq<seq<limb>>
    const lenInv: seq<(limb, limb)>
    /** The twiddle factors found so far, by inverse and size. */
    var trig: map<(nat, nat), seq<limb>>

    ghost predicate Static() {
      && Modulus(m) && div == InitMulModFast(m)
      && |prootPow| == |prootPowInv| == 2
      && RootTable(prootPow[0], prootPowInv[0], m) && RootTable(prootPow[1], prootPowInv[1], m)
      && LengthTable(lenInv, m)
      && forall i :: 1 <= i <= PROOT_2EXP ==> Cong(prootPow[0][i] as int * prootPow[1][i], 1, m)
    }

    ghost predicate Valid()
      reads this
    {
      Static() && forall key :: key in trig ==>
        key.0 < 2 && 1 <= key.1 <= TRIG_K_MAX && TrigTable(trig[key], prootPow[key.0][key.1], Pow2(key.1 - 1), m)
    }

    constructor (mIdx: nat)
      requires mIdx < NB_MODS
      ensures Valid() && m == NTT_MODS[mIdx] && trig == map[]
      ensures forall inverse :: 0 <= inverse < 2 ==> prootPow[inverse][PROOT_2EXP] == NTT_PROOT[inverse][mIdx]
    {
      hide RootTable, LengthTable, Cong;
      var m0 := NTT_MODS[mIdx];
      var mInv, len, pow, powInv, pow', powInv' := StaticTables(mIdx);
      m, div, lenInv := m0, mInv, len;
      prootPow, prootPowInv := [pow, pow'], [powInv, powInv'];
      trig := map[];
    }

    lemma RootsOf(inverse: nat)
      requires Static() && inverse < 2
      ensures |prootPow[inverse]| == |prootPowInv[inverse]| == PROOT_2EXP + 1
      ensures forall k :: 1 <= k <= PROOT_2EXP ==>
        prootPow[inverse][k] < m && Root(prootPow[inverse][k], k, m) && prootPowInv[inverse][k] == InitMulModFast2(prootPow[inverse][k], m)
      ensures forall k :: 1 < k <= PROOT_2EXP ==> SquareOf(prootPow[inverse][k - 1], prootPow[inverse][k], m)
    {
      hide RootTable, LengthTable;
      if inverse == 0 {
        RootsAll(prootPow[0], prootPowInv[0], m);
      } else {
        RootsAll(prootPow[1], prootPowInv[1], m);
      }
    }

    lemma LengthOf(i: nat)
      requires Static() && i <= PROOT_2EXP
      ensures |lenInv| == PROOT_2EXP + 1 && LengthEntry(lenInv[i], i, m)
    {
    }

    /** The twiddle factors of size 2^k, from the cache or computed now. */
    method GetTrig(k: nat, inverse: nat) returns (tab: Option<seq<limb>>)
      requires Valid() && 1 <= k <= PROOT_2EXP && inverse < 2
      modifies this`trig
      ensures Valid() && tab.Some? == (k <= TRIG_K_MAX)
      ensures tab.Some? ==> TrigTable(tab.value, prootPow[inverse][k], Pow2(k - 1), m)
    {
      hide TrigTable, LengthTable, RootTable, InitMulModFast2, Root, SquareOf;
      if TRIG_K_MAX < k {
        return None;
      }
      if (inverse, k) in trig {
        return Some(trig[(inverse, k)]);
      }
      RootsOf(inverse);
      var t := TrigPowers(prootPow[inverse][k], prootPowInv[inverse][k], k, m);
      trig := trig[(inverse, k) := t];
      return Some(t);
    }

    /**
     The transform of `inBuf` in `outBuf`, which may be the same buffer.  It
     fails when the twiddle factors are too many to keep.
     */
    method NttFft(outBuf: array<limb>, inBuf: array<limb>, tmpBuf: array<limb>, fftLenLog2: nat, inverse: nat) returns (ok: bool)
      requires Valid() && 1 <= fftLenLog2 <= PROOT_2EXP && inverse < 2
      requires outBuf.Length == inBuf.Length == tmpBuf.Length == Pow2(fftLenLog2) && tmpBuf != inBuf && tmpBuf != outBuf
      requires EntriesBelow(inBuf[..], 2 * m)
      modifies this`trig, outBuf, inBuf, tmpBuf
      ensures Valid() && ok == (fftLenLog2 <= TRIG_K_MAX)
      ensures ok ==> EntriesBelow(outBuf[..], 2 * m)
      ensures ok ==> IsTransform(outBuf[..], old(inBuf[..]), prootPow[inverse][fftLenLog2], m)
    {
      hide TrigTable, LengthTable, RootTable, InitMulModFast2, Pow, Eval, Root, Cong, Stage, EntriesBelow, PassDone, Pow2, IsTransform;
      RootsOf(inverse);
      ghost var x: seq<int> := inBuf[..];
      ghost var w := prootPow[inverse][fftLenLog2];
      var n := outBuf.Length;
      var nbBlocks, fftPerBlock, strideIn, l := n, 1, n / 2, fftLenLog2;
      var tabIn, tabOut := inBuf, tmpBuf;
      FirstStage(inBuf[..], w, n, m);
      while nbBlocks != 2
        invariant Valid() && 1 <= l <= fftLenLog2 && nbBlocks == Pow2(l) && nbBlocks * fftPerBlock == n
        invariant (tabIn == inBuf && tabOut == tmpBuf) || (tabIn == tmpBuf && tabOut == inBuf)
        invariant EntriesBelow(tabIn[..], 2 * m) && Stage(tabIn[..], x, w, prootPow[inverse][l], fftPerBlock, nbBlocks, m)
        invariant TRIG_K_MAX < fftLenLog2 ==> l == fftLenLog2
        decreases l
      {
        LongerThanTwo(l);
        nbBlocks := nbBlocks / 2;
        var trigTab := GetTrig(l, inverse);
        if trigTab.None? {
          return false;
        }
        FftPass(tabIn, tabOut, trigTab.value, nbBlocks, fftPerBlock, m, prootPow[inverse][l]);
        NextStage(tabIn[..], tabOut[..], x, w, prootPow[inverse][l], prootPow[inverse][l - 1], l, fftPerBlock, m);
        fftPerBlock := fftPerBlock * 2;
        l := l - 1;
        tabIn, tabOut := tabOut, tabIn;
      }
      LengthTwo(l);
      ghost var t := tabIn[..];
      LastPass(tabIn, outBuf, strideIn, m, prootPow[inverse][1]);
      Finished(t, outBuf[..], x, w, prootPow[inverse][1], strideIn, m);
      ok := true;
    }

    /** tab1 := tab1 * tab2 / 2^kTot, entry by entry. */
    method NttVecMul(tab1: array<limb>, tab2: array<limb>, fftLenLog2: nat, kTot: nat)
      requires Static() && kTot <= PROOT_2EXP && tab1 != tab2 && tab1.Length == tab2.Length == Pow2(fftLenLog2)
      requires EntriesBelow(tab1[..], 2 * m) && EntriesBelow(tab2[..], 2 * m)
      modifies tab1
      ensures EntriesBelow(tab1[..], 2 * m)
      ensures forall i :: 0 <= i < tab1.Length ==> Cong(tab1[i], old(tab1[i]) as int * tab2[i] * lenInv[kTot].0, m)
    {
      hide RootTable, InitMulModFast2, InitMulModFast, Cong, MulModFast, MulModFast3;
      ghost var x, y := tab1[..], tab2[..];
      assert LengthEntry(lenInv[kTot], kTot, m);
      var norm, normInv := lenInv[kTot].0, lenInv[kTot].1;
      for i := 0 to tab1.Length
        invariant tab2[..] == y && forall e :: i <= e < tab1.Length ==> tab1[e] == x[e]
        invariant forall e :: 0 <= e < i ==> tab1[e] < 2 * m && Cong(tab1[e], x[e] as int * y[e] * norm, m)
      {
        var a := tab1[i];
        assert x[i] < 2 * m && y[i] < 2 * m;
        a := NttLimbToInt(a, m);
        ProductBound(a, tab2[i], m);
        a := MulModFast(a, tab2[i], m, div);
        a := MulModFast3(a, norm, m, normInv);
        ScaledProduct(x[i], y[i], norm, a, m);
        tab1[i] := a;
      }
    }

    /** buf1 := the cyclic convolution of buf1 and buf2 modulo m. */
    method NttConv(buf1: array<limb>, buf2: array<limb>, k: nat, kTot: nat) returns (ok: bool)
      requires Valid() && 1 <= k == kTot <= TRIG_K_MAX
      requires buf1 != buf2 && buf1.Length == buf2.Length == Pow2(k) && EntriesBelow(buf1[..], 2 * m) && EntriesBelow(buf2[..], 2 * m)
      modifies this`trig, buf1, buf2
      ensures Valid() && ok && EntriesBelow(buf1[..], 2 * m)
      ensures SameMod(buf1[..], Conv(old(buf1[..]), old(buf2[..])), m)
    {
      hide RootTable, LengthTable, InitMulModFast2, Root, Cong, Conv, Eval, Pow, EntriesBelow;
      ghost var a: seq<int>, b: seq<int> := buf1[..], buf2[..];
      var tmp := new limb[Pow2(k)];
      RootsOf(0);
      RootsOf(1);
      ok := NttFft(buf1, buf1, tmp, k, 0);
      assert buf2[..] == old(buf2[..]);
      ok := NttFft(buf2, buf2, tmp, k, 0);
      ghost var x, y := buf1[..], buf2[..];
      NttVecMul(buf1, buf2, k, kTot);
      ghost var z := buf1[..];
      ok := NttFft(buf1, buf1, tmp, k, 1);
      LengthOf(k);
      Convolved(a, b, x, y, z, buf1[..], prootPow[0][k], prootPow[1][k], lenInv[k].0, k, m);
    }
  }

  method StaticTables(mIdx: nat) returns (mInv: limb, len: seq<(limb, limb)>, pow: seq<limb>, powInv: seq<limb>, pow': seq<limb>, powInv': seq<limb>)
    requires mIdx < NB_MODS
    ensures Modulus(NTT_MODS[mIdx]) && mInv == InitMulModFast(NTT_MODS[mIdx]) && LengthTable(len, NTT_MODS[mIdx])
    ensures RootTable(pow, powInv, NTT_MODS[mIdx]) && RootTable(pow', powInv', NTT_MODS[mIdx])
    ensures forall i :: 1 <= i <= PROOT_2EXP ==> Cong(pow[i] as int * pow'[i], 1, NTT_MODS[mIdx])
    ensures pow[PROOT_2EXP] == NTT_PROOT[0][mIdx] && pow'[PROOT_2EXP] == NTT_PROOT[1][mIdx]
  {
    hide Squared, Cong, RootEntry, SquareLink, LengthTable, InitMulModFast;
    ListedRoots(mIdx);
    var m := NTT_MODS[mIdx];
    assert m % 2 == 1;
    mInv := InitMulModFast(m);
    len := LengthInverses(m, mInv);
    pow, powInv := RootPowers(NTT_PROOT[0][mIdx], m, mInv);
    pow', powInv' := RootPowers(NTT_PROOT[1][mIdx], m, mInv);
    forall i | 1 <= i <= PROOT_2EXP ensures Cong(pow[i] as int * pow'[i], 1, m) {
      InversePowers(pow, powInv, pow', powInv', i, m);
    }
  }

  lemma {:induction false} InversePowers(pow: seq<limb>, powInv: seq<limb>, pow': seq<limb>, powInv': seq<limb>, i: nat, m: limb)
    requires 0 < m && RootTable(pow, powInv, m) && RootTable(pow', powInv', m) && 1 <= i <= PROOT_2EXP
    requires Cong(pow[PROOT_2EXP] as int * pow'[PROOT_2EXP], 1, m)
    ensures Cong(pow[i] as int * pow'[i], 1, m)
    decreases PROOT_2EXP - i
  {
    hide Root, Cong;
    if i < PROOT_2EXP {
      InversePowers(pow, powInv, pow', powInv', i + 1, m);
      var a, b := pow[i + 1] as int, pow'[i + 1] as int;
      assert SquareLink(pow, m, i + 1) && SquareLink(pow', m, i + 1);
      SquaresCancel(pow[i], a, pow'[i], b, m);
    }
  }

  lemma SquaresCancel(c: int, a: int, d: int, b: int, m: int)
    requires 0 < m && Cong(c, a * a, m) && Cong(d, b * b, m) && Cong(a * b, 1, m)
    ensures Cong(c * d, 1, m)
  {
    CongMul(c, a * a, d, b * b, m);
    CongMul(a * b, 1, a * b, 1, m);
    Rearrange(a, a, b, b);
    assert a * b * (a * b) == (a * b) * (a * b);
  }

  lemma RootsAll(pow: seq<limb>, powInv: seq<limb>, m: limb)
    requires 0 < m && RootTable(pow, powInv, m)
    ensures |pow| == |powInv| == PROOT_2EXP + 1
    ensures forall k :: 1 <= k <= PROOT_2EXP ==> pow[k] < m && Root(pow[k], k, m) && powInv[k] == InitMulModFast2(pow[k], m)
    ensures forall k :: 1 < k <= PROOT_2EXP ==> SquareOf(pow[k - 1], pow[k], m)
  {
    hide Root, SquareOf;
    forall k | 1 <= k <= PROOT_2EXP
      ensures pow[k] < m && Root(pow[k], k, m) && powInv[k] == InitMulModFast2(pow[k], m)
    {
      assert RootEntry(pow, powInv, m, k);
    }
    forall k | 1 < k <= PROOT_2EXP ensures SquareOf(pow[k - 1], pow[k], m) {
      assert SquareLink(pow, m, k);
    }
  }

  method TrigPowers(cMul: limb, cMulInv: limb, k: nat, m: limb) returns (tab: seq<limb>)
    requires Modulus(m) && 1 <= k && cMul < m && cMulInv == InitMulModFast2(cMul, m)
    ensures TrigTable(tab, cMul, Pow2(k - 1), m)
  {
    hide InitMulModFast2, MulModFast2, Factor, Pow;
    var n2 := Pow2(k - 1);
    tab := [];
    var c: limb := 1;
    StartPower(cMul, m);
    for i := 0 to n2
      invariant |tab| == 2 * i && c < m && Cong(c, Pow(cMul, i), m)
      invariant forall e :: 0 <= e < i ==> Factor(tab[2 * e], tab[2 * e + 1], cMul, e, m)
    {
      tab := tab + [c, InitMulModFast2(c, m)];
      assert Factor(tab[2 * i], tab[2 * i + 1], cMul, i, m) by { FactorIs(c, cMul, i, m); }
      NextPower(c, cMul, i, m);
      c := MulModFast2(c, cMul, m, cMulInv);
    }
  }

  lemma FactorIs(c: limb, w: int, i: nat, m: limb)
    requires 0 < m && c < m && Cong(c, Pow(w, i), m)
    ensures Factor(c, InitMulModFast2(c, m), w, i, m)
  {
  }

  lemma StartPower(w: int, m: int)
    requires 0 < m
    ensures Cong(1, Pow(w, 0), m)
  {
  }

  lemma NextPower(c: int, w: int, i: nat, m: int)
    requires 0 < m && Cong(c, Pow(w, i), m)
    ensures 0 <= c * w % m < m && Cong(c * w % m, Pow(w, i + 1), m)
  {
    CongMod(c * w, m);
    CongMul(c, Pow(w, i), w, w, m);
  }

  /** Before the first pass there is one column. */
  lemma FirstStage(t: seq<limb>, w: int, n: nat, m: int)
    requires 0 < m && |t| == n
    ensures |t| == n * 1 && Stage(t, t, w, w, 1, n, m)
  {
    hide Eval, Pow;
    assert Col(t, 1, n, 0) == t;
    forall j, q | 0 <= j < 1 && 0 <= q < n ensures ColumnDone(t, t, w, w, 1, n, m, j, q) {
      assert 1 * q + 0 == q;
    }
  }

  lemma LongerThanTwo(l: nat)
    requires 1 <= l && Pow2(l) != 2
    ensures 2 <= l && Pow2(l) == 2 * Pow2(l - 1) && Pow2(l) / 2 == Pow2(l - 1)
  {
    assert Pow2(0) == 1 && Pow2(1) == 2;
  }

  lemma LengthTwo(l: nat)
    requires 1 <= l
    ensures Pow2(l) == 2 <==> l == 1
    ensures Pow2(0) == 1
  {
    assert Pow2(l) == 2 * Pow2(l - 1);
    if 2 <= l {
      assert Pow2(l - 1) == 2 * Pow2(l - 2);
    }
  }

  /** After the last pass every column has one entry, which is an output. */
  lemma Finished(t: seq<limb>, u: seq<limb>, x: seq<int>, w: int, w1: int, f: nat, m: int)
    requires 0 < m && Root(w1, 1, m) && |t| == |u| == |x| == 2 * f && Pow2(0) == 1
    requires Stage(t, x, w, w1, f, 2, m) && PassDone(t, u, f, 1, w1, m)
    ensures IsTransform(u, x, w, m)
  {
    hide Pow, Root, Eval, PassDone;
    assert Pow2(1) == 2;
    CongMod(w1 * w1, m);
    NextStage(t, u, x, w, w1, w1 * w1, 1, f, m);
    forall q | 0 <= q < |u| ensures Cong(u[q], Eval(x, Pow(w, q)), m) {
      assert ColumnDone(u, x, w, w1 * w1, 2 * f, 1, m, q, 0);
      OneEntry(u, 2 * f, q, Pow(w1 * w1, 0));
      assert (2 * f) * 0 == 0;
    }
  }

  lemma OneEntry(u: seq<limb>, f: nat, q: nat, x: int)
    requires |u| == 1 * f && q < f
    ensures Eval(Col(u, f, 1, q), x) == u[q]
  {
    var y := Col(u, f, 1, q);
    assert y == [u[0 * f + q] as int];
    assert Eval(y[1..], x) == 0;
  }

  lemma ScaledProduct(x: limb, y: limb, norm: limb, r: limb, m: limb)
    requires 0 < m && Cong(r, ((x % m) * y % m) * norm, m)
    ensures Cong(r, x as int * y * norm, m)
  {
    CongMod(x, m);
    CongMul(x % m, x, y, y, m);
    CongMod((x % m) * y, m);
    CongMul((x % m) * y % m, x * y, norm, norm, m);
  }

  /** Multiplying the transforms and transforming back gives the convolution. */
  lemma Convolved(a: seq<int>, b: seq<int>, x: seq<limb>, y: seq<limb>, z: seq<limb>, r: seq<limb>, w: int, v: int, norm: int, k: nat, m: int)
    requires 0 < m && Root(w, k, m) && Cong(w * v, 1, m) && Cong(norm * Pow2(k), 1, m)
    requires |a| == |b| == |x| == |y| == |z| == Pow2(k)
    requires IsTransform(x, a, w, m) && IsTransform(y, b, w, m) && IsTransform(r, z, v, m)
    requires forall i :: 0 <= i < |z| ==> Cong(z[i], x[i] as int * y[i] * norm, m)
    ensures SameMod(r, Conv(a, b), m)
  {
    hide Root, Cong, Conv, Eval, Pow;
    var n, c := Pow2(k), Conv(a, b);
    var d := Mix(Zeros(n), norm, c);
    forall q | 0 <= q < n ensures Cong(z[q], Eval(d, Pow(w, q)), m) {
      EvalMix(Zeros(n), norm, c, Pow(w, q));
      EvalZeros(n, Pow(w, q));
      ConvolutionTheorem(a, b, w, k, q, m);
      ProductEntry(x[q], y[q], z[q], Eval(a, Pow(w, q)), Eval(b, Pow(w, q)), Eval(c, Pow(w, q)), norm, m);
    }
    forall i | 0 <= i < n ensures Cong(r[i], c[i], m) {
      InverseTransform(d, z, w, v, k, i, m);
      assert d[i] == norm * c[i];
      Unscaled(r[i], Eval(z, Pow(v, i)), n, norm, c[i], m);
    }
  }

  lemma ProductEntry(x: int, y: int, z: int, a: int, b: int, c: int, norm: int, m: int)
    requires 0 < m && Cong(x, a, m) && Cong(y, b, m) && Cong(z, x * y * norm, m) && Cong(c, a * b, m)
    ensures Cong(z, norm * c, m)
  {
    CongMul(x, a, y, b, m);
    CongMul(norm, norm, x * y, c, m);
    assert x * y * norm == norm * (x * y);
  }

  lemma Unscaled(r: int, e: int, n: int, norm: int, c: int, m: int)
    requires 0 < m && Cong(r, e, m) && Cong(e, n * (norm * c), m) && Cong(norm * n, 1, m)
    ensures Cong(r, c, m)
  {
    Assoc(n, norm, c);
    assert n * norm == norm * n;
    CongMul(norm * n, 1, c, c, m);
  }
}
