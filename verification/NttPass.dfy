/**
 The passes of the number theoretic transform (ntt_fft in libbf.c): a
 self-sorting transform that moves the data between two buffers.
 */
module NttPass {
  import opened Limbs
  import opened MpBase
  import opened Congruence
  import opened Udiv
  import opened Dft
  import opened NttArith

  ghost predicate EntriesBelow(s: seq<limb>, bound: int) {
    forall k :: 0 <= k < |s| ==> s[k] < bound
  }

  /** The entries whose index is j modulo f. */
  ghost function Col(t: seq<limb>, f: nat, n: nat, j: nat): (y: seq<int>)
    requires |t| == n * f && j < f
    ensures |y| == n
  {
    seq(n, i requires 0 <= i < n => (Cell(i, f, n, j); t[i * f + j] as int))
  }

  lemma Cell(i: int, f: int, n: int, j: int)
    requires 0 <= i < n && 0 <= j < f
    ensures 0 <= i * f <= i * f + j < i * f + f <= n * f
  {
    MulLe(0, i, f);
    MulLe(i + 1, n, f);
    Dist(i, 1, f);
  }

  /** Transforming column j of `t` with root wl gives the outputs of the transform of `x` at f * q + j. */
  ghost predicate ColumnDone(t: seq<limb>, x: seq<int>, w: int, wl: int, f: nat, n: nat, m: int, j: nat, q: nat)
    requires |t| == n * f && j < f && 0 < m
  {
    0 <= f * q && Cong(Eval(Col(t, f, n, j), Pow(wl, q)), Eval(x, Pow(w, f * q + j)), m)
  }

  ghost predicate Stage(t: seq<limb>, x: seq<int>, w: int, wl: int, f: nat, n: nat, m: int)
    requires |t| == n * f && 0 < m
  {
    forall j, q :: 0 <= j < f && 0 <= q < n ==> ColumnDone(t, x, w, wl, f, n, m, j, q)
  }

  /** The butterfly of entries i * f + j of the two halves. */
  ghost predicate Butterfly(t: seq<limb>, u: seq<limb>, f: nat, h: nat, wl: int, m: int, i: nat, j: nat)
    requires 0 < m
  {
    0 <= i * f && i * f + j + h * f < |t| && 2 * (i * f) + f + j < |u| && 0 <= h * f &&
    var a0, a1 := t[i * f + j], t[i * f + j + h * f];
    Cong(u[2 * (i * f) + j], a0 + a1, m) && Cong(u[2 * (i * f) + f + j], (a0 - a1) * Pow(wl, i), m)
  }

  ghost predicate PassDone(t: seq<limb>, u: seq<limb>, f: nat, h: nat, wl: int, m: int)
    requires 0 < m
  {
    forall i, j :: 0 <= i < h && 0 <= j < f ==> Butterfly(t, u, f, h, wl, m, i, j)
  }

  /** Where the butterfly's four entries are in the columns. */
  lemma Entries(t: seq<limb>, u: seq<limb>, f: nat, h: nat, i: nat, j: nat)
    requires |t| == |u| == (2 * h) * f == h * (2 * f) && j < f && i < h
    ensures 0 <= i * f && 0 <= h * f && i * f + j + h * f < |t| && 2 * (i * f) + f + j < |u|
    ensures Col(t, f, 2 * h, j)[i] == t[i * f + j]
    ensures Col(t, f, 2 * h, j)[i + h] == t[i * f + j + h * f]
    ensures Col(u, 2 * f, h, j)[i] == u[2 * (i * f) + j]
    ensures Col(u, 2 * f, h, f + j)[i] == u[2 * (i * f) + f + j]
  {
    Cell(i, f, 2 * h, j);
    Cell(i + h, f, 2 * h, j);
    Cell(i, 2 * f, h, f + j);
    assert i * (2 * f) == 2 * (i * f);
    Dist(i, h, f);
    MulLe(0, h, f);
  }

  lemma EvenColumn(t: seq<limb>, u: seq<limb>, wl: int, f: nat, h: nat, m: int, j: nat)
    requires 0 < m && |t| == |u| == (2 * h) * f == h * (2 * f) && j < f && PassDone(t, u, f, h, wl, m)
    ensures SameMod(Col(u, 2 * f, h, j), Mix(Col(t, f, 2 * h, j)[..h], 1, Col(t, f, 2 * h, j)[h..]), m)
  {
    hide Pow, Cong, Col;
    var y := Col(t, f, 2 * h, j);
    forall i | 0 <= i < h ensures Cong(Col(u, 2 * f, h, j)[i], Mix(y[..h], 1, y[h..])[i], m) {
      assert Butterfly(t, u, f, h, wl, m, i, j);
      Entries(t, u, f, h, i, j);
      assert Mix(y[..h], 1, y[h..])[i] == y[i] + y[i + h];
    }
  }

  lemma OddColumn(t: seq<limb>, u: seq<limb>, wl: int, f: nat, h: nat, m: int, j: nat)
    requires 0 < m && |t| == |u| == (2 * h) * f == h * (2 * f) && j < f && PassDone(t, u, f, h, wl, m)
    ensures SameMod(Col(u, 2 * f, h, f + j), Twist(Mix(Col(t, f, 2 * h, j)[..h], -1, Col(t, f, 2 * h, j)[h..]), wl), m)
  {
    hide Pow, Cong, Col;
    var y := Col(t, f, 2 * h, j);
    forall i | 0 <= i < h ensures Cong(Col(u, 2 * f, h, f + j)[i], Twist(Mix(y[..h], -1, y[h..]), wl)[i], m) {
      assert Butterfly(t, u, f, h, wl, m, i, j);
      Entries(t, u, f, h, i, j);
      TwistAt(y, h, wl, i);
    }
  }

  lemma TwistAt(y: seq<int>, h: nat, wl: int, i: nat)
    requires |y| == 2 * h && i < h
    ensures Twist(Mix(y[..h], -1, y[h..]), wl)[i] == (y[i] - y[i + h]) * Pow(wl, i)
  {
    hide Pow;
    assert Mix(y[..h], -1, y[h..])[i] == y[i] - y[i + h];
  }

  /** A pass halves the length of the transforms still to do. */
  lemma NextStage(t: seq<limb>, u: seq<limb>, x: seq<int>, w: int, wl: int, wl': int, l: nat, f: nat, m: int)
    requires 0 < m && 0 < l && Root(wl, l, m) && Cong(wl', wl * wl, m)
    requires |t| == |u| == Pow2(l) * f && Stage(t, x, w, wl, f, Pow2(l), m)
    requires PassDone(t, u, f, Pow2(l - 1), wl, m)
    ensures |u| == Pow2(l - 1) * (2 * f) && Stage(u, x, w, wl', 2 * f, Pow2(l - 1), m)
  {
    hide Pow, Root, Cong, PassDone, ColumnDone;
    var h := Pow2(l - 1);
    assert Pow2(l) == 2 * h;
    assert (2 * h) * f == h * (2 * f);
    forall j, q | 0 <= j < 2 * f && 0 <= q < h ensures ColumnDone(u, x, w, wl', 2 * f, h, m, j, q) {
      assert ColumnDone(t, x, w, wl, f, 2 * h, m, if j < f then j else j - f, if j < f then 2 * q else 2 * q + 1);
      NextColumn(t, u, x, w, wl, wl', l, f, m, j, q);
    }
  }

  lemma NextColumn(t: seq<limb>, u: seq<limb>, x: seq<int>, w: int, wl: int, wl': int, l: nat, f: nat, m: int, j: nat, q: nat)
    requires 0 < m && 0 < l && Root(wl, l, m) && Cong(wl', wl * wl, m)
    requires var h := Pow2(l - 1); |t| == |u| == (2 * h) * f == h * (2 * f) && PassDone(t, u, f, h, wl, m)
    requires j < 2 * f && q < Pow2(l - 1)
    requires ColumnDone(t, x, w, wl, f, 2 * Pow2(l - 1), m, if j < f then j else j - f, if j < f then 2 * q else 2 * q + 1)
    ensures ColumnDone(u, x, w, wl', 2 * f, Pow2(l - 1), m, j, q)
  {
    hide Pow, Root, Cong, PassDone, Col, Eval;
    var h := Pow2(l - 1);
    var j0 := if j < f then j else j - f;
    var q0 := if j < f then 2 * q else 2 * q + 1;
    BothOutputs(t, u, wl, wl', l, f, m, j0, q);
    OutputIndex(f, q, j);
    CongChain(Eval(Col(u, 2 * f, h, j), Pow(wl', q)), Eval(Col(t, f, 2 * h, j0), Pow(wl, q0)), Eval(x, Pow(w, f * q0 + j0)), m);
  }

  lemma BothOutputs(t: seq<limb>, u: seq<limb>, wl: int, wl': int, l: nat, f: nat, m: int, j: nat, q: nat)
    requires 0 < m && 0 < l && Root(wl, l, m) && Cong(wl', wl * wl, m)
    requires var h := Pow2(l - 1); |t| == |u| == (2 * h) * f == h * (2 * f) && PassDone(t, u, f, h, wl, m)
    requires j < f
    ensures var h := Pow2(l - 1); var y := Col(t, f, 2 * h, j);
      && Cong(Eval(y, Pow(wl, 2 * q)), Eval(Col(u, 2 * f, h, j), Pow(wl', q)), m)
      && Cong(Eval(y, Pow(wl, 2 * q + 1)), Eval(Col(u, 2 * f, h, f + j), Pow(wl', q)), m)
  {
    hide Pow, Root, Cong, PassDone, Col, SameMod, Mix, Twist, Eval;
    var h := Pow2(l - 1);
    EvenColumn(t, u, wl, f, h, m, j);
    OddColumn(t, u, wl, f, h, m, j);
    var y := Col(t, f, 2 * h, j);
    assert |y| == Pow2(l);
    FastPass(y, Col(u, 2 * f, h, j), Col(u, 2 * f, h, f + j), wl, wl', l, q, m);
  }

  lemma OutputIndex(f: nat, q: nat, j: nat)
    requires j < 2 * f
    ensures 0 <= (2 * f) * q && (2 * f) * q + j == if j < f then f * (2 * q) + j else f * (2 * q + 1) + (j - f)
  {
    MulLe(0, 2 * f, q);
    DistL(f, 2 * q, 1);
  }

  lemma CongChain(a: int, b: int, c: int, m: int)
    requires 0 < m && Cong(b, a, m) && Cong(b, c, m)
    ensures Cong(a, c, m)
  {
  }

  // ------------------------------------------------------------ the two loops

  /** Twiddle factors wl^i, each followed by its fixed-point inverse. */
  ghost predicate TrigTable(tab: seq<limb>, wl: int, h: nat, m: limb)
    requires 0 < m
  {
    |tab| == 2 * h && forall i :: 0 <= i < h ==> Factor(tab[2 * i], tab[2 * i + 1], wl, i, m)
  }

  ghost predicate Factor(c: limb, cInv: limb, wl: int, i: nat, m: limb)
    requires 0 < m
  {
    c < m && Cong(c, Pow(wl, i), m) && cInv == InitMulModFast2(c, m)
  }

  /** The butterflies of the first `hi` blocks are in `u`. */
  ghost predicate Blocks(t: seq<limb>, u: seq<limb>, f: nat, h: nat, wl: int, m: int, hi: int)
    requires 0 < m
  {
    forall i, j :: 0 <= i < hi && 0 <= j < f ==> Butterfly(t, u, f, h, wl, m, i, j)
  }

  /** Later writes leave finished blocks alone. */
  lemma BlocksKept(t: seq<limb>, u: seq<limb>, u': seq<limb>, f: nat, h: nat, wl: int, m: int, hi: nat, n: nat)
    requires 0 < m && Blocks(t, u, f, h, wl, m, hi) && 0 <= hi * f && Only(u, u', 2 * (hi * f), n)
    ensures Blocks(t, u', f, h, wl, m, hi)
  {
    hide Cong, Pow;
    forall i, j | 0 <= i < hi && 0 <= j < f ensures Butterfly(t, u', f, h, wl, m, i, j) {
      assert Butterfly(t, u, f, h, wl, m, i, j);
      Cell(i, f, hi, j);
    }
  }

  lemma ButterflyStored(t: seq<limb>, u: seq<limb>, f: nat, h: nat, wl: int, m: limb, i: nat, j: nat, c: limb, cInv: limb)
    requires Modulus(m) && |t| == |u| && j < f && i < h && 0 <= i * f && 0 <= h * f
    requires i * f + j + h * f < |t| && 2 * (i * f) + f + j < |u| && Factor(c, cInv, wl, i, m)
    requires var a0, a1 := t[i * f + j], t[i * f + j + h * f];
      a0 < 2 * m && a1 < 2 * m && u[2 * (i * f) + j] == AddMod(a0, a1, 2 * m) &&
      u[2 * (i * f) + f + j] == MulModFast3(a0 - a1 + 2 * m, c, m, cInv)
    ensures Butterfly(t, u, f, h, wl, m, i, j)
    ensures u[2 * (i * f) + j] < 2 * m && u[2 * (i * f) + f + j] < 2 * m
  {
    hide Pow;
    var a0, a1 := t[i * f + j], t[i * f + j + h * f];
    TwiceMod(a0 + a1, m);
    ButterflyDiff(a0, a1, c, cInv, wl, i, m);
  }

  /** Reducing modulo 2m does not change the value modulo m. */
  lemma TwiceMod(a: int, m: int)
    requires 0 < m
    ensures Cong(a % (2 * m), a, m) && 0 <= a % (2 * m) < 2 * m
  {
    var k := a / (2 * m);
    assert a == k * (2 * m) + a % (2 * m);
    assert k * (2 * m) == (2 * k) * m;
    CongBy(a, a % (2 * m), 2 * k, m);
  }

  lemma ButterflyDiff(a0: limb, a1: limb, c: limb, cInv: limb, wl: int, i: nat, m: limb)
    requires Modulus(m) && a0 < 2 * m && a1 < 2 * m && Factor(c, cInv, wl, i, m)
    ensures Cong(MulModFast3(a0 - a1 + 2 * m, c, m, cInv), (a0 - a1) * Pow(wl, i), m)
  {
    hide Pow;
    var d: limb := a0 - a1 + 2 * m;
    CongBy(d, a0 - a1, 2, m);
    CongMul(d, a0 - a1, c, Pow(wl, i), m);
  }

  method FftBlock(tabIn: array<limb>, tabOut: array<limb>, h: nat, f: nat, i: nat, k: nat, p: nat,
                  c: limb, cInv: limb, m: limb, ghost wl: int)
    requires Modulus(m) && tabIn != tabOut && tabIn.Length == tabOut.Length == (2 * h) * f == h * (2 * f)
    requires i < h && k == i * f && p == 2 * k && Factor(c, cInv, wl, i, m) && EntriesBelow(tabIn[..], 2 * m)
    modifies tabOut
    ensures Only(old(tabOut[..]), tabOut[..], p, 2 * f)
    ensures forall j :: 0 <= j < f ==> Butterfly(tabIn[..], tabOut[..], f, h, wl, m, i, j)
    ensures forall e :: p <= e < p + 2 * f && e < tabOut.Length ==> tabOut[e] < 2 * m
  {
    hide Cong, Pow, Factor;
    var strideIn := tabIn.Length / 2;
    assert strideIn == h * f;
    assert p + 2 * f <= tabOut.Length && k + f + strideIn <= tabIn.Length && 0 <= strideIn by { BlockRoom(h, f, i); }
    ghost var t, was := tabIn[..], tabOut[..];
    var j := 0;
    while j < f
      invariant 0 <= j <= f && tabIn[..] == t && Only(was, tabOut[..], p, 2 * f)
      invariant forall e :: 0 <= e < j ==> Butterfly(t, tabOut[..], f, h, wl, m, i, e)
      invariant forall e :: p <= e < p + j || p + f <= e < p + f + j ==> tabOut[e] < 2 * m
    {
      ghost var u := tabOut[..];
      var a0, a1 := tabIn[k + j], tabIn[k + j + strideIn];
      assert t[k + j] < 2 * m && t[k + j + strideIn] < 2 * m;
      tabOut[p + j] := AddMod(a0, a1, 2 * m);
      tabOut[p + j + f] := Butterfly1(a0, a1, c, cInv, m, wl, i);
      ghost var u' := tabOut[..];
      assert u' == u[p + j := u'[p + j]][p + j + f := u'[p + j + f]];
      StoreOne(t, u, u', f, h, wl, m, i, j, c, cInv);
      j := j + 1;
    }
  }

  /** The difference, kept positive, times the twiddle factor. */
  function Butterfly1(a0: limb, a1: limb, c: limb, cInv: limb, m: limb, ghost wl: int, ghost i: nat): (b1: limb)
    requires Modulus(m) && a0 < 2 * m && a1 < 2 * m && Factor(c, cInv, wl, i, m)
    ensures b1 == MulModFast3(a0 - a1 + 2 * m, c, m, cInv)
  {
    MulModFast3(a0 - a1 + 2 * m, c, m, cInv)
  }

  lemma BlockRoom(h: nat, f: nat, i: nat)
    requires i < h
    ensures 0 <= i * f && 0 <= h * f && 2 * (i * f) + 2 * f <= h * (2 * f) && i * f + f + h * f <= (2 * h) * f
  {
    MulLe(i + 1, h, f);
    Dist(i, 1, f);
    MulLe(0, h, f);
    MulLe(0, i, f);
  }

  lemma StoreOne(t: seq<limb>, u: seq<limb>, u': seq<limb>, f: nat, h: nat, wl: int, m: limb, i: nat, j: nat, c: limb, cInv: limb)
    requires Modulus(m) && |t| == |u| == |u'| == (2 * h) * f == h * (2 * f) && j < f && i < h && 0 <= i * f && 0 <= h * f
    requires i * f + j + h * f < |t| && 2 * (i * f) + f + j < |u| && Factor(c, cInv, wl, i, m)
    requires forall e :: 0 <= e < j ==> Butterfly(t, u, f, h, wl, m, i, e)
    requires var p := 2 * (i * f); u' == u[p + j := u'[p + j]][p + j + f := u'[p + j + f]]
    requires var a0, a1 := t[i * f + j], t[i * f + j + h * f];
      a0 < 2 * m && a1 < 2 * m && u'[2 * (i * f) + j] == AddMod(a0, a1, 2 * m) &&
      u'[2 * (i * f) + f + j] == MulModFast3(a0 - a1 + 2 * m, c, m, cInv)
    ensures forall e :: 0 <= e < j + 1 ==> Butterfly(t, u', f, h, wl, m, i, e)
    ensures u'[2 * (i * f) + j] < 2 * m && u'[2 * (i * f) + f + j] < 2 * m
  {
    hide Cong, Pow, Factor;
    ButterflyStored(t, u', f, h, wl, m, i, j, c, cInv);
    forall e | 0 <= e < j ensures Butterfly(t, u', f, h, wl, m, i, e) {
      assert Butterfly(t, u, f, h, wl, m, i, e);
    }
  }

  /** One pass over the whole buffer. */
  method FftPass(tabIn: array<limb>, tabOut: array<limb>, trig: seq<limb>, nbBlocks: nat, fftPerBlock: nat, m: limb, ghost wl: int)
    requires Modulus(m) && tabIn != tabOut
    requires tabIn.Length == tabOut.Length == (2 * nbBlocks) * fftPerBlock == nbBlocks * (2 * fftPerBlock)
    requires EntriesBelow(tabIn[..], 2 * m) && TrigTable(trig, wl, nbBlocks, m)
    modifies tabOut
    ensures PassDone(tabIn[..], tabOut[..], fftPerBlock, nbBlocks, wl, m) && EntriesBelow(tabOut[..], 2 * m)
  {
    hide Cong, Pow, Factor, Butterfly;
    ghost var t := tabIn[..];
    var p, k := 0, 0;
    for i := 0 to nbBlocks
      invariant tabIn[..] == t && k == i * fftPerBlock && p == 2 * k && k <= nbBlocks * fftPerBlock
      invariant Blocks(t, tabOut[..], fftPerBlock, nbBlocks, wl, m, i)
      invariant forall e :: 0 <= e < p && e < tabOut.Length ==> tabOut[e] < 2 * m
    {
      var c, cInv := trig[2 * i], trig[2 * i + 1];
      ghost var u := tabOut[..];
      FftBlock(tabIn, tabOut, nbBlocks, fftPerBlock, i, k, p, c, cInv, m, wl);
      BlocksKept(t, u, tabOut[..], fftPerBlock, nbBlocks, wl, m, i, 2 * fftPerBlock);
      BlockRoom(nbBlocks, fftPerBlock, i);
      Dist(i, 1, fftPerBlock);
      k := k + fftPerBlock;
      p := p + 2 * fftPerBlock;
    }
  }

  /** The last pass, whose only twiddle factor is 1; it may work in place. */
  method LastPass(tabIn: array<limb>, tabOut: array<limb>, strideIn: nat, m: limb, ghost wl: int)
    requires Modulus(m) && tabIn.Length == tabOut.Length == 2 * strideIn && EntriesBelow(tabIn[..], 2 * m)
    modifies tabOut
    ensures PassDone(old(tabIn[..]), tabOut[..], strideIn, 1, wl, m) && EntriesBelow(tabOut[..], 2 * m)
  {
    hide Cong, Butterfly;
    ghost var t := tabIn[..];
    for k := 0 to strideIn
      invariant tabIn != tabOut ==> tabIn[..] == t
      invariant forall e :: k <= e < strideIn || strideIn + k <= e < 2 * strideIn ==> tabIn[e] == t[e]
      invariant forall e :: 0 <= e < k || strideIn <= e < strideIn + k ==> tabOut[e] < 2 * m
      invariant forall e :: 0 <= e < k ==> Butterfly(t, tabOut[..], strideIn, 1, wl, m, 0, e)
    {
      var a0, a1 := tabIn[k], tabIn[k + strideIn];
      assert t[k] < 2 * m && t[k + strideIn] < 2 * m;
      ghost var u := tabOut[..];
      tabOut[k] := AddMod(a0, a1, 2 * m);
      tabOut[k + strideIn] := SubMod(a0, a1, 2 * m);
      ghost var u' := tabOut[..];
      assert u' == u[k := u'[k]][k + strideIn := u'[k + strideIn]];
      LastOne(t, u, u', strideIn, m, wl, k);
    }
  }

  lemma LastOne(t: seq<limb>, u: seq<limb>, u': seq<limb>, f: nat, m: limb, wl: int, k: nat)
    requires Modulus(m) && |t| == |u| == |u'| == 2 * f && k < f && t[k] < 2 * m && t[k + f] < 2 * m
    requires forall e :: 0 <= e < k ==> Butterfly(t, u, f, 1, wl, m, 0, e)
    requires u' == u[k := u'[k]][k + f := u'[k + f]]
    requires u'[k] == AddMod(t[k], t[k + f], 2 * m) && u'[k + f] == SubMod(t[k], t[k + f], 2 * m)
    ensures forall e :: 0 <= e < k + 1 ==> Butterfly(t, u', f, 1, wl, m, 0, e)
    ensures u'[k] < 2 * m && u'[k + f] < 2 * m
  {
    hide Cong, Butterfly, AddMod, SubMod;
    TwiceMod(t[k] as int + t[k + f], m);
    TwiceMod(t[k] as int - t[k + f], m);
    SingleBlock(t, u', f, wl, m, k);
    SingleKept(t, u, u', f, m, wl, k);
  }

  lemma SingleKept(t: seq<limb>, u: seq<limb>, u': seq<limb>, f: nat, m: limb, wl: int, k: nat)
    requires 0 < m && |t| == |u| == |u'| == 2 * f && k < f
    requires forall e :: 0 <= e < k ==> Butterfly(t, u, f, 1, wl, m, 0, e)
    requires u' == u[k := u'[k]][k + f := u'[k + f]]
    ensures forall e :: 0 <= e < k ==> Butterfly(t, u', f, 1, wl, m, 0, e)
  {
    hide Cong, Butterfly;
    forall e | 0 <= e < k ensures Butterfly(t, u', f, 1, wl, m, 0, e) {
      assert Butterfly(t, u, f, 1, wl, m, 0, e);
      SingleBlock(t, u, f, wl, m, e);
      SingleBlock(t, u', f, wl, m, e);
    }
  }

  /** With one block of butterflies the twiddle factor is 1. */
  lemma SingleBlock(t: seq<limb>, u: seq<limb>, f: nat, wl: int, m: int, j: nat)
    requires 0 < m && j < f && |t| == |u| == 2 * f
    ensures Butterfly(t, u, f, 1, wl, m, 0, j) <==> Cong(u[j], t[j] as int + t[j + f], m) && Cong(u[f + j], t[j] as int - t[j + f], m)
  {
    hide Cong;
    assert Pow(wl, 0) == 1;
  }
}
