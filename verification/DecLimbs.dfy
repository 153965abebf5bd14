/**
 Decimal numbers of libbf.c as runs of limbs in base 10^9, and the carry loops on them.
 */
module DecLimbs {
  import opened Limbs
  import opened MpBase
  import opened FastDiv

  /** (10^9)^n */
  ghost function DP(n: nat): (p: nat)
    ensures 0 < p
  {
    if n == 0 then 1 else BF_DEC_BASE * DP(n - 1)
  }

  /** The number held by the `n` limbs from `lo` on. */
  ghost function D(s: seq<limb>, lo: nat, n: nat): (v: nat)
    requires lo + n <= |s|
  {
    if n == 0 then 0 else D(s, lo, n - 1) + s[lo + n - 1] * DP(n - 1)
  }

  /** These limbs are decimal. */
  ghost predicate Dec(s: seq<limb>, lo: nat, n: nat) {
    lo + n <= |s| && forall k :: lo <= k < lo + n ==> s[k] < BF_DEC_BASE
  }

  lemma DNext(s: seq<limb>, lo: nat, i: nat)
    requires lo + i < |s|
    ensures D(s, lo, i + 1) == D(s, lo, i) + s[lo + i] * DP(i) && DP(i + 1) == BF_DEC_BASE * DP(i)
  {
  }

  lemma DEmpty(s: seq<limb>, lo: nat)
    requires lo <= |s|
    ensures D(s, lo, 0) == 0 && DP(0) == 1 && Dec(s, lo, 0)
  {
  }

  lemma {:induction false} DPAdd(m: nat, n: nat)
    ensures DP(m + n) == DP(m) * DP(n)
  {
    if n == 0 {
    } else {
      DPAdd(m, n - 1);
      assert DP(m + n) == BF_DEC_BASE * DP(m + (n - 1));
      Assoc(BF_DEC_BASE, DP(m), DP(n - 1));
    }
  }

  lemma {:induction false} DBound(s: seq<limb>, lo: nat, n: nat)
    requires Dec(s, lo, n)
    ensures D(s, lo, n) < DP(n)
  {
    if n != 0 {
      DBound(s, lo, n - 1);
      MulLe(s[lo + n - 1] as int + 1, BF_DEC_BASE, DP(n - 1));
      Dist(s[lo + n - 1], 1, DP(n - 1));
    }
  }

  lemma {:induction false} DSame(s: seq<limb>, t: seq<limb>, lo: nat, n: nat)
    requires lo + n <= |s| && lo + n <= |t| && forall k :: lo <= k < lo + n ==> s[k] == t[k]
    ensures D(s, lo, n) == D(t, lo, n)
  {
    if n != 0 { DSame(s, t, lo, n - 1); }
  }

  /** Changes elsewhere do not matter. */
  lemma DOnly(s: seq<limb>, t: seq<limb>, lo: nat, n: nat, wo: int, wn: int)
    requires Only(s, t, wo, wn) && lo + n <= |s| && (lo + n <= wo || wo + wn <= lo)
    ensures D(s, lo, n) == D(t, lo, n) && (Dec(s, lo, n) <==> Dec(t, lo, n))
  {
    DSame(s, t, lo, n);
  }

  lemma {:induction false} DSplit(s: seq<limb>, lo: nat, m: nat, n: nat)
    requires lo + m + n <= |s|
    ensures D(s, lo, m + n) == D(s, lo, m) + DP(m) * D(s, lo + m, n)
  {
    if n == 0 {
      assert D(s, lo + m, 0) == 0;
    } else {
      DSplit(s, lo, m, n - 1);
      DPAdd(m, n - 1);
      var d := s[lo + m + n - 1];
      DNext(s, lo, m + (n - 1));
      DNext(s, lo + m, n - 1);
      Assoc(d, DP(m), DP(n - 1));
      DistL(DP(m), D(s, lo + m, n - 1), d * DP(n - 1));
    }
  }

  /** A number by its lowest limb. */
  lemma DLow(s: seq<limb>, lo: nat, n: nat)
    requires lo + n + 1 <= |s|
    ensures D(s, lo, n + 1) == s[lo] + BF_DEC_BASE * D(s, lo + 1, n) && DP(n + 1) == BF_DEC_BASE * DP(n)
  {
    DSplit(s, lo, 1, n);
    DNext(s, lo, 0);
    DEmpty(s, lo);
    assert DP(1) == BF_DEC_BASE * DP(0);
  }

  /** What a loop that goes up has written so far. */
  lemma DWrote(s: seq<limb>, t: seq<limb>, lo: nat, i: nat)
    requires lo + i < |s| == |t| && t == s[lo + i := t[lo + i]] && Dec(s, lo, i) && t[lo + i] < BF_DEC_BASE
    ensures D(t, lo, i + 1) == D(s, lo, i) + t[lo + i] * DP(i) && Dec(t, lo, i + 1)
  {
    DSame(s, t, lo, i);
  }

  /** One limb of a loop, scaled to its position. */
  lemma DCarry(r: int, c: int, x: int, p: int)
    requires r + c * BF_DEC_BASE == x
    ensures r * p + c * (BF_DEC_BASE * p) == x * p
  {
    Dist(r, c * BF_DEC_BASE, p);
    Assoc(c, BF_DEC_BASE, p);
  }

  /** mp_add_dec */
  method MpAddDec(res: array<limb>, ro: nat, op1: array<limb>, o1: nat, op2: array<limb>, o2: nat, n: nat, carry: limb)
    returns (k: limb)
    requires ro + n <= res.Length && Dec(op1[..], o1, n) && Dec(op2[..], o2, n) && carry <= 1
    requires NoClash(res, ro, op1, o1, n) && NoClash(res, ro, op2, o2, n)
    modifies res
    ensures k <= 1 && Only(old(res[..]), res[..], ro, n) && Dec(res[..], ro, n)
    ensures D(res[..], ro, n) + k * DP(n) == D(old(op1[..]), o1, n) + D(old(op2[..]), o2, n) + carry
  {
    hide D, DP, Wrap;
    ghost var s, s1, s2 := res[..], op1[..], op2[..];
    k := carry;
    DEmpty(s1, o1);
    DEmpty(s2, o2);
    DEmpty(s, ro);
    for i := 0 to n
      invariant k <= 1 && Only(s, res[..], ro, i) && Dec(res[..], ro, i)
      invariant D(res[..], ro, i) + k * DP(i) == D(s1, o1, i) + D(s2, o2, i) + carry
    {
      ghost var before, k0 := res[..], k;
      var v := op1[o1 + i];
      var w := op2[o2 + i];
      assert v == s1[o1 + i] && w == s2[o2 + i];
      AddDigit(v, w, k);
      var a := Wrap(v as int + w + k - BF_DEC_BASE);
      k := if a <= v then 1 else 0;
      if k == 0 {
        a := Wrap(a as int + BF_DEC_BASE);
      }
      res[ro + i] := a;
      DNext(s1, o1, i);
      DNext(s2, o2, i);
      DWrote(before, res[..], ro, i);
      DCarry(a, k, v as int + w + k0, DP(i));
      Dist(v as int + w, k0, DP(i));
      Dist(v, w, DP(i));
    }
  }

  lemma AddDigit(v: limb, w: limb, k: limb)
    requires v < BF_DEC_BASE && w < BF_DEC_BASE && k <= 1
    ensures var a := Wrap(v as int + w + k - BF_DEC_BASE); var c := if a <= v then 1 else 0;
      var r := if c == 0 then Wrap(a as int + BF_DEC_BASE) else a;
      r + c * BF_DEC_BASE == v as int + w + k && r < BF_DEC_BASE
  {
  }

  /** One limb of a difference: the wrapped difference, moved up by the base after a borrow. */
  lemma SubDigit(v: limb, w: int)
    requires v < BF_DEC_BASE && 0 <= w <= BF_DEC_BASE
    ensures var a := Wrap(v as int - w); var c := if a > v then 1 else 0;
      var r := if c == 1 then Wrap(a as int + BF_DEC_BASE) else a;
      r - c * BF_DEC_BASE == v as int - w && r < BF_DEC_BASE && (w == 0 ==> c == 0)
  {
  }

  /** mp_sub_dec */
  method MpSubDec(res: array<limb>, ro: nat, op1: array<limb>, o1: nat, op2: array<limb>, o2: nat, n: nat, carry: limb)
    returns (k: limb)
    requires ro + n <= res.Length && Dec(op1[..], o1, n) && Dec(op2[..], o2, n) && carry <= 1
    requires NoClash(res, ro, op1, o1, n) && NoClash(res, ro, op2, o2, n)
    modifies res
    ensures k <= 1 && Only(old(res[..]), res[..], ro, n) && Dec(res[..], ro, n)
    ensures D(res[..], ro, n) - k * DP(n) == D(old(op1[..]), o1, n) - D(old(op2[..]), o2, n) - carry
  {
    hide D, DP, Wrap;
    ghost var s, s1, s2 := res[..], op1[..], op2[..];
    k := carry;
    DEmpty(s1, o1);
    DEmpty(s2, o2);
    DEmpty(s, ro);
    for i := 0 to n
      invariant k <= 1 && Only(s, res[..], ro, i) && Dec(res[..], ro, i)
      invariant D(res[..], ro, i) - k * DP(i) == D(s1, o1, i) - D(s2, o2, i) - carry
    {
      ghost var before, k0 := res[..], k;
      var v := op1[o1 + i];
      var w := op2[o2 + i];
      assert v == s1[o1 + i] && w == s2[o2 + i];
      SubDigit(v, w as int + k);
      var a := Wrap(v as int - (w as int + k));
      k := if a > v then 1 else 0;
      if k == 1 {
        a := Wrap(a as int + BF_DEC_BASE);
      }
      res[ro + i] := a;
      DNext(s1, o1, i);
      DNext(s2, o2, i);
      DWrote(before, res[..], ro, i);
      DCarry(a, -(k as int), v as int - (w as int + k0), DP(i));
      Dist(v as int - w, k0, DP(i));
      Dist(v, w, DP(i));
    }
  }

  /** A double limb that is small enough for divdq_base. */
  lemma ProductFits(d: limb, b: limb, l: limb)
    requires d < BF_DEC_BASE && b < BF_DEC_BASE && l < BF_DEC_BASE
    ensures var t := d as int * b as int + l; 0 <= t / B < 0x2000_0000 && t == t / B * B + t % B
    ensures d as int * b as int + l <= BF_DEC_BASE * (BF_DEC_BASE - 1)
  {
    MulLe(d, BF_DEC_BASE - 1, b);
    MulLe(b, BF_DEC_BASE - 1, BF_DEC_BASE - 1);
    MulLe(0, d, b);
  }

  /** mp_mul1_dec */
  method MpMul1Dec(tabr: array<limb>, ro: nat, taba: array<limb>, ao: nat, n: nat, b: limb, l0: limb) returns (l: limb)
    requires ro + n <= tabr.Length && Dec(taba[..], ao, n) && NoClash(tabr, ro, taba, ao, n)
    requires b < BF_DEC_BASE && l0 < BF_DEC_BASE
    modifies tabr
    ensures Only(old(tabr[..]), tabr[..], ro, n) && Dec(tabr[..], ro, n) && l < BF_DEC_BASE
    ensures D(tabr[..], ro, n) + l * DP(n) == D(old(taba[..]), ao, n) * b + l0
  {
    hide D, DP;
    ghost var s, sa := tabr[..], taba[..];
    l := l0;
    DEmpty(s, ro);
    DEmpty(sa, ao);
    for i := 0 to n
      invariant Only(s, tabr[..], ro, i) && Dec(tabr[..], ro, i) && l < BF_DEC_BASE
      invariant D(tabr[..], ro, i) + l * DP(i) == D(sa, ao, i) * b + l0
    {
      ghost var before, k := tabr[..], l;
      var d := taba[ao + i];
      assert d == sa[ao + i];
      ProductFits(d, b, l);
      var t := d as int * b as int + l;
      var r;
      l, r := DivdqBase(t / B, t % B);
      tabr[ro + i] := r;
      DNext(sa, ao, i);
      DWrote(before, tabr[..], ro, i);
      DCarry(r, l, t, DP(i));
      MulStep(D(sa, ao, i), d, b, k, DP(i));
    }
  }

  /** One limb of mp_sub_mul1_dec. */
  method SubMulLimb(d: limb, b: limb, l0: limb, v: limb) returns (l: limb, a: limb)
    requires d < BF_DEC_BASE && b < BF_DEC_BASE && l0 < BF_DEC_BASE && v < BF_DEC_BASE
    ensures a - l * BF_DEC_BASE == v as int - d as int * b as int - l0 && a < BF_DEC_BASE && l < BF_DEC_BASE
  {
    hide Wrap;
    ProductFits(d, b, l0);
    var t := d as int * b as int + l0;
    var r;
    l, r := DivdqBase(t / B, t % B);
    SubDigit(v, r);
    a := Wrap(v as int - r);
    var c := if a > v then 1 else 0;
    if c == 1 {
      a := Wrap(a as int + BF_DEC_BASE);
    }
    // a full digit leaves no remainder, hence no borrow
    l := l + c;
  }

  /** mp_sub_mul1_dec: returns what is still to be subtracted from the next limb. */
  method MpSubMul1Dec(tabr: array<limb>, ro: nat, taba: array<limb>, ao: nat, n: nat, b: limb) returns (l: limb)
    requires Dec(tabr[..], ro, n) && Dec(taba[..], ao, n) && NoClash(tabr, ro, taba, ao, n) && b < BF_DEC_BASE
    modifies tabr
    ensures Only(old(tabr[..]), tabr[..], ro, n) && Dec(tabr[..], ro, n) && l < BF_DEC_BASE
    ensures D(tabr[..], ro, n) - l * DP(n) == D(old(tabr[..]), ro, n) - D(old(taba[..]), ao, n) * b
  {
    hide D, DP, Wrap;
    ghost var s, sa := tabr[..], taba[..];
    l := 0;
    DEmpty(s, ro);
    DEmpty(sa, ao);
    for i := 0 to n
      invariant Only(s, tabr[..], ro, i) && Dec(tabr[..], ro, i) && l < BF_DEC_BASE
      invariant D(tabr[..], ro, i) - l * DP(i) == D(s, ro, i) - D(sa, ao, i) * b
    {
      ghost var before, k := tabr[..], l;
      var d := taba[ao + i];
      assert d == sa[ao + i];
      var v := tabr[ro + i];
      assert v == s[ro + i];
      var a;
      l, a := SubMulLimb(d, b, l, v);
      tabr[ro + i] := a;
      DNext(s, ro, i);
      DNext(sa, ao, i);
      DWrote(before, tabr[..], ro, i);
      DCarry(a, -(l as int), v as int - d as int * b as int - k, DP(i));
      SubMulStep(D(sa, ao, i), d, b, k, v, DP(i));
    }
  }
}
