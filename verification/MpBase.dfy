/**
 The carry loops of libbf.c: addition, subtraction and multiplication of runs of limbs, in place or
 not.
 */
module MpBase {
  import opened Limbs

  /** The low limb of a sum or product. */
  function Wrap(x: int): limb { x % B }

  /** A double limb, and its high limb. */
  function Wide(x: int): nat { x % (B * B) }

  function High(t: int): int { t / B }

  /** One limb of a loop, scaled to its position. */
  lemma Carry(r: int, c: int, x: int, p: int)
    requires r + c * B == x
    ensures r * p + c * (B * p) == x * p
  {
    Dist(r, c * B, p);
    Assoc(c, B, p);
  }

  /** What a loop that goes up has written so far. */
  lemma Wrote(s: seq<limb>, t: seq<limb>, lo: nat, i: nat)
    requires lo + i < |s| == |t| && t == s[lo + i := t[lo + i]]
    ensures V(t, lo, i + 1) == V(s, lo, i) + t[lo + i] * BP(i)
  {
    VOnly(s, t, lo, i, lo + i, 1);
  }

  lemma VNext(s: seq<limb>, lo: nat, i: nat)
    requires lo + i < |s|
    ensures V(s, lo, i + 1) == V(s, lo, i) + s[lo + i] * BP(i) && BP(i + 1) == B * BP(i)
  {
  }

  lemma Empty(s: seq<limb>, lo: nat)
    requires lo <= |s|
    ensures V(s, lo, 0) == 0 && BP(0) == 1
  {
  }

  lemma AddLimb(v: limb, w: limb, k: limb)
    requires k <= 1
    ensures var a1 := Wrap(v as int + w); var a := Wrap(a1 as int + k);
      a + (if a < k || a1 < v then 1 else 0) * B == v as int + w + k
  {
  }

  lemma UiLimb(v: limb, k: limb)
    ensures var a := Wrap(v as int + k); a + (if a < k then 1 else 0) * B == v as int + k
    ensures var a := Wrap(v as int - k); a - (if a > v then 1 else 0) * B == v as int - k
  {
  }

  lemma SubLimb(v: limb, w: limb, k: limb)
    requires k <= 1
    ensures var a1 := Wrap(v as int - w); var a := Wrap(a1 as int - k);
      a - (if a > a1 || a1 > v then 1 else 0) * B == v as int - w - k
  {
  }

  /** mp_add */
  method MpAdd(res: array<limb>, ro: nat, op1: array<limb>, o1: nat, op2: array<limb>, o2: nat, n: nat, carry: limb)
    returns (k: limb)
    requires ro + n <= res.Length && o1 + n <= op1.Length && o2 + n <= op2.Length && carry <= 1
    requires NoClash(res, ro, op1, o1, n) && NoClash(res, ro, op2, o2, n)
    modifies res
    ensures k <= 1 && Only(old(res[..]), res[..], ro, n)
    ensures V(res[..], ro, n) + k * BP(n) == V(old(op1[..]), o1, n) + V(old(op2[..]), o2, n) + carry
  {
    hide V, BP, Wrap;
    ghost var s, s1, s2 := res[..], op1[..], op2[..];
    k := carry;
    Empty(s1, o1);
    Empty(s2, o2);
    Empty(s, ro);
    for i := 0 to n
      invariant k <= 1 && Only(s, res[..], ro, i)
      invariant V(res[..], ro, i) + k * BP(i) == V(s1, o1, i) + V(s2, o2, i) + carry
    {
      ghost var before, k0 := res[..], k;
      var v := op1[o1 + i];
      var w := op2[o2 + i];
      assert v == s1[o1 + i] && w == s2[o2 + i];
      var a := Wrap(v as int + w);
      var k1 := a < v;
      a := Wrap(a as int + k);
      AddLimb(v, w, k);
      k := if a < k || k1 then 1 else 0;
      res[ro + i] := a;
      VNext(s1, o1, i);
      VNext(s2, o2, i);
      Wrote(before, res[..], ro, i);
      Carry(a, k, v as int + w + k0, BP(i));
      Dist(v as int + w, k0, BP(i));
      Dist(v, w, BP(i));
    }
  }

  /** mp_sub */
  method MpSub(res: array<limb>, ro: nat, op1: array<limb>, o1: nat, op2: array<limb>, o2: nat, n: nat, carry: limb)
    returns (k: limb)
    requires ro + n <= res.Length && o1 + n <= op1.Length && o2 + n <= op2.Length && carry <= 1
    requires NoClash(res, ro, op1, o1, n) && NoClash(res, ro, op2, o2, n)
    modifies res
    ensures k <= 1 && Only(old(res[..]), res[..], ro, n)
    ensures V(res[..], ro, n) - k * BP(n) == V(old(op1[..]), o1, n) - V(old(op2[..]), o2, n) - carry
  {
    hide V, BP, Wrap;
    ghost var s, s1, s2 := res[..], op1[..], op2[..];
    k := carry;
    Empty(s1, o1);
    Empty(s2, o2);
    Empty(s, ro);
    for i := 0 to n
      invariant k <= 1 && Only(s, res[..], ro, i)
      invariant V(res[..], ro, i) - k * BP(i) == V(s1, o1, i) - V(s2, o2, i) - carry
    {
      ghost var before, k0 := res[..], k;
      var v := op1[o1 + i];
      var w := op2[o2 + i];
      assert v == s1[o1 + i] && w == s2[o2 + i];
      SubLimb(v, w, k);
      var a := Wrap(v as int - w);
      var k1 := a > v;
      v := Wrap(a as int - k);
      k := if v > a || k1 then 1 else 0;
      res[ro + i] := v;
      VNext(s1, o1, i);
      VNext(s2, o2, i);
      Wrote(before, res[..], ro, i);
      Carry(v, -(k as int), s1[o1 + i] as int - w - k0, BP(i));
      Dist(s1[o1 + i] as int - w, k0, BP(i));
      Dist(s1[o1 + i], w, BP(i));
    }
  }

  /** mp_neg */
  method MpNeg(res: array<limb>, ro: nat, op2: array<limb>, o2: nat, n: nat, carry: limb) returns (k: limb)
    requires ro + n <= res.Length && o2 + n <= op2.Length && carry <= 1
    requires NoClash(res, ro, op2, o2, n)
    modifies res
    ensures k <= 1 && Only(old(res[..]), res[..], ro, n)
    ensures V(res[..], ro, n) + V(old(op2[..]), o2, n) + carry == k * BP(n)
  {
    hide V, BP, Wrap;
    ghost var s, s2 := res[..], op2[..];
    k := carry;
    Empty(s2, o2);
    Empty(s, ro);
    for i := 0 to n
      invariant k <= 1 && Only(s, res[..], ro, i)
      invariant V(res[..], ro, i) + V(s2, o2, i) + carry == k * BP(i)
    {
      ghost var before, k0 := res[..], k;
      var w := op2[o2 + i];
      assert w == s2[o2 + i];
      SubLimb(0, w, k);
      var a := Wrap(0 - (w as int));
      var k1 := a > 0;
      var v := Wrap(a as int - k);
      k := if v > a || k1 then 1 else 0;
      res[ro + i] := v;
      VNext(s2, o2, i);
      Wrote(before, res[..], ro, i);
      Carry(v, -(k as int), -(w as int) - k0, BP(i));
      Dist(-(w as int), k0, BP(i));
    }
  }

  /** mp_add_ui */
  method MpAddUi(tab: array<limb>, o: nat, b: limb, n: nat) returns (k: limb)
    requires o + n <= tab.Length
    modifies tab
    ensures Only(old(tab[..]), tab[..], o, n) && (0 < n ==> k <= 1)
    ensures V(tab[..], o, n) + k * BP(n) == V(old(tab[..]), o, n) + b
  {
    hide V, BP, Wrap;
    ghost var s := tab[..];
    k := b;
    Empty(s, o);
    for i := 0 to n
      invariant Only(s, tab[..], o, i) && (0 < i ==> k <= 1)
      invariant V(tab[..], o, i) + k * BP(i) == V(s, o, i) + b
    {
      if k == 0 {
        Rest(s, tab[..], o, i, n);
        return;
      }
      ghost var before, k0 := tab[..], k;
      var v := tab[o + i];
      UiLimb(v, k);
      var a := Wrap(v as int + k);
      k := if a < k then 1 else 0;
      tab[o + i] := a;
      VNext(s, o, i);
      Wrote(before, tab[..], o, i);
      Carry(a, k, v as int + k0, BP(i));
      Dist(v, k0, BP(i));
    }
  }

  /** mp_sub_ui */
  method MpSubUi(tab: array<limb>, o: nat, b: limb, n: nat) returns (k: limb)
    requires o + n <= tab.Length
    modifies tab
    ensures Only(old(tab[..]), tab[..], o, n) && (0 < n ==> k <= 1)
    ensures V(tab[..], o, n) - k * BP(n) == V(old(tab[..]), o, n) - b
  {
    hide V, BP, Wrap;
    ghost var s := tab[..];
    k := b;
    Empty(s, o);
    for i := 0 to n
      invariant Only(s, tab[..], o, i) && (0 < i ==> k <= 1)
      invariant V(tab[..], o, i) - k * BP(i) == V(s, o, i) - b
    {
      ghost var before, k0 := tab[..], k;
      var v := tab[o + i];
      UiLimb(v, k);
      var a := Wrap(v as int - k);
      k := if a > v then 1 else 0;
      tab[o + i] := a;
      VNext(s, o, i);
      Wrote(before, tab[..], o, i);
      Carry(a, -(k as int), v as int - k0, BP(i));
      Dist(v, k0, BP(i));
      if k == 0 {
        Rest(s, tab[..], o, i + 1, n);
        return;
      }
    }
  }

  /** The limbs from `i` on are as they were. */
  lemma Rest(s: seq<limb>, t: seq<limb>, o: nat, i: nat, n: nat)
    requires i <= n && o + n <= |s| && Only(s, t, o, i)
    ensures V(t, o, n) - V(t, o, i) == V(s, o, n) - V(s, o, i)
  {
    VSplit(s, o, i, n - i);
    VSplit(t, o, i, n - i);
    VOnly(s, t, o + i, n - i, o, i);
  }

  /** mp_mul1 */
  method MpMul1(tabr: array<limb>, ro: nat, taba: array<limb>, ao: nat, n: nat, b: limb, l0: limb) returns (l: limb)
    requires ro + n <= tabr.Length && ao + n <= taba.Length && NoClash(tabr, ro, taba, ao, n)
    modifies tabr
    ensures Only(old(tabr[..]), tabr[..], ro, n)
    ensures V(tabr[..], ro, n) + l * BP(n) == V(old(taba[..]), ao, n) * b + l0
  {
    ghost var s, sa := tabr[..], taba[..];
    l := l0;
    for i := 0 to n
      invariant Only(s, tabr[..], ro, i)
      invariant V(tabr[..], ro, i) + l * BP(i) == V(sa, ao, i) * b + l0
    {
      ghost var before, k := tabr[..], l;
      var d := taba[ao + i];
      assert d == sa[ao + i];
      Product(d, b);
      var t := (d as int) * (b as int) + l;
      tabr[ro + i] := Wrap(t);
      l := t / B;
      Wrote(before, tabr[..], ro, i);
      Carry(t % B, l, t, BP(i));
      MulStep(V(sa, ao, i), d, b, k, BP(i));
    }
  }

  lemma Product(a: limb, b: limb)
    ensures 0 <= (a as int) * (b as int) <= (B - 1) * (B - 1)
  {
    MulLe(a, B - 1, b);
    MulLe(b, B - 1, B - 1);
    MulLe(0, a, b);
  }

  lemma MulStep(v: int, d: int, b: int, k: int, p: int)
    ensures (d * b + k) * p == d * p * b + k * p && (v + d * p) * b == v * b + d * p * b
  {
    Dist(d * b, k, p);
    assert d * b * p == d * p * b;
    Dist(v, d * p, b);
  }

  lemma SubMulStep(v: int, d: int, b: int, k: int, w: int, p: int)
    ensures (w - d * b - k) * p == w * p - d * p * b - k * p && (v + d * p) * b == v * b + d * p * b
  {
    MulStep(v, d, b, k, p);
    Dist(w, d * b + k, p);
  }

  /** mp_add_mul1 */
  method MpAddMul1(tabr: array<limb>, ro: nat, taba: array<limb>, ao: nat, n: nat, b: limb) returns (l: limb)
    requires ro + n <= tabr.Length && ao + n <= taba.Length && NoClash(tabr, ro, taba, ao, n)
    modifies tabr
    ensures Only(old(tabr[..]), tabr[..], ro, n)
    ensures V(tabr[..], ro, n) + l * BP(n) == V(old(tabr[..]), ro, n) + V(old(taba[..]), ao, n) * b
  {
    ghost var s, sa := tabr[..], taba[..];
    l := 0;
    for i := 0 to n
      invariant Only(s, tabr[..], ro, i)
      invariant V(tabr[..], ro, i) + l * BP(i) == V(s, ro, i) + V(sa, ao, i) * b
    {
      ghost var before, k := tabr[..], l;
      var d := taba[ao + i];
      var w := tabr[ro + i];
      assert d == sa[ao + i] && w == s[ro + i];
      Product(d, b);
      var t := (d as int) * (b as int) + l + w;
      tabr[ro + i] := Wrap(t);
      l := t / B;
      Wrote(before, tabr[..], ro, i);
      Carry(t % B, l, t, BP(i));
      MulStep(V(sa, ao, i), d, b, k as int + w, BP(i));
      Dist(k, w, BP(i));
    }
  }

  /** mp_sub_mul1: returns what is still to be subtracted from the next limb. */
  method MpSubMul1(tabr: array<limb>, ro: nat, taba: array<limb>, ao: nat, n: nat, b: limb) returns (l: limb)
    requires ro + n <= tabr.Length && ao + n <= taba.Length && NoClash(tabr, ro, taba, ao, n)
    modifies tabr
    ensures Only(old(tabr[..]), tabr[..], ro, n)
    ensures V(tabr[..], ro, n) - l * BP(n) == V(old(tabr[..]), ro, n) - V(old(taba[..]), ao, n) * b
  {
    hide V, BP, Wrap, Wide, High;
    ghost var s, sa := tabr[..], taba[..];
    l := 0;
    Empty(s, ro);
    Empty(sa, ao);
    for i := 0 to n
      invariant Only(s, tabr[..], ro, i)
      invariant V(tabr[..], ro, i) - l * BP(i) == V(s, ro, i) - V(sa, ao, i) * b
    {
      ghost var before, k := tabr[..], l;
      var d := taba[ao + i];
      var w := tabr[ro + i];
      assert d == sa[ao + i] && w == s[ro + i];
      Product(d, b);
      ghost var x := w as int - (d as int) * (b as int) - k;
      var t := Wide(w as int - (d as int) * (b as int) - l);
      tabr[ro + i] := Wrap(t);
      l := Wrap(-High(t));
      Borrow(x);
      VNext(s, ro, i);
      VNext(sa, ao, i);
      Wrote(before, tabr[..], ro, i);
      Carry(tabr[ro + i], -(l as int), x, BP(i));
      SubMulStep(V(sa, ao, i), d, b, k, w, BP(i));
    }
  }

  /** The low limb and the borrow of a double limb that may be negative. */
  lemma Borrow(x: int)
    requires -(B * B) + B <= x < B
    ensures Wrap(Wide(x)) - Wrap(-High(Wide(x))) * B == x
  {
    if x < 0 {
      var t := x + B * B;
      assert x % (B * B) == t;
      assert 1 <= t / B < B;
      assert t == t / B * B + t % B;
    } else {
      assert x / B == 0;
    }
  }

  /** mp_mul: the schoolbook product. */
  method MpMulBasecase(result: array<limb>, ro: nat, op1: array<limb>, o1: nat, n1: nat, op2: array<limb>, o2: nat, n2: nat)
    requires 1 <= n2 && ro + n1 + n2 <= result.Length && o1 + n1 <= op1.Length && o2 + n2 <= op2.Length
    requires result != op1 && result != op2
    modifies result
    ensures Only(old(result[..]), result[..], ro, n1 + n2)
    ensures V(result[..], ro, n1 + n2) == V(old(op1[..]), o1, n1) * V(old(op2[..]), o2, n2)
  {
    ghost var s, s1, s2 := result[..], op1[..], op2[..];
    ghost var x := V(s1, o1, n1);
    var r := MpMul1(result, ro, op1, o1, n1, op2[o2], 0);
    ghost var t0 := result[..];
    result[ro + n1] := r;
    VOne(s2, o2);
    VOnly(t0, result[..], ro, n1, ro + n1, 1);
    TopLimb(result[..], ro, n1, x * s2[o2], r);
    for i := 1 to n2
      invariant Only(s, result[..], ro, n1 + i)
      invariant V(result[..], ro, n1 + i) == x * V(s2, o2, i)
    {
      ghost var before := result[..];
      r := MpAddMul1(result, ro + i, op1, o1, n1, op2[o2 + i]);
      ghost var middle := result[..];
      result[ro + n1 + i] := r;
      MulRow(before, middle, result[..], ro, i, n1, x, s2[o2 + i], r);
      DistL(x, V(s2, o2, i), s2[o2 + i] * BP(i));
      Assoc(x, s2[o2 + i], BP(i));
    }
  }

  lemma TopLimb(t: seq<limb>, ro: nat, n: nat, x: int, r: limb)
    requires ro + n < |t| && t[ro + n] == r
    requires V(t, ro, n) + r * BP(n) == x
    ensures V(t, ro, n + 1) == x
  {
  }

  /** One row of the product, added at limb `i`. */
  lemma MulRow(s: seq<limb>, m: seq<limb>, t: seq<limb>, ro: nat, i: nat, n: nat, x: int, d: int, r: limb)
    requires ro + i + n < |s| && Only(s, m, ro + i, n) && t == m[ro + n + i := r]
    requires V(m, ro + i, n) + r * BP(n) == V(s, ro + i, n) + x * d
    ensures V(t, ro, n + i + 1) == V(s, ro, n + i) + (x * d) * BP(i)
  {
    VSplit(s, ro, i, n);
    VSplit(t, ro, i, n);
    VOnly(s, m, ro, i, ro + i, n);
    VOnly(m, t, ro, i, ro + n + i, 1);
    VOnly(m, t, ro + i, n, ro + n + i, 1);
    BPAdd(i, n);
    var p := BP(i);
    calc {
      V(t, ro, n + i + 1);
      V(t, ro, n + i) + r * BP(n + i);
      V(s, ro, i) + p * V(m, ro + i, n) + r * (p * BP(n));
      { Assoc(r, p, BP(n)); DistL(p, V(m, ro + i, n), r * BP(n)); }
      V(s, ro, i) + p * (V(m, ro + i, n) + r * BP(n));
      V(s, ro, i) + p * (V(s, ro + i, n) + x * d);
      { DistL(p, V(s, ro + i, n), x * d); }
      V(s, ro, i) + p * V(s, ro + i, n) + p * (x * d);
    }
  }

  /** mp_scan_nz */
  method MpScanNz(tab: array<limb>, o: nat, n: nat) returns (nz: bool)
    requires o + n <= tab.Length
    ensures nz <==> V(tab[..], o, n) != 0
  {
    VZero(tab[..], o, n);
    for i := 0 to n
      invariant forall k :: o <= k < o + i ==> tab[k] == 0
    {
      if tab[o + i] != 0 { return true; }
    }
    return false;
  }

  /** mp_cmp */
  method MpCmp(taba: array<limb>, ao: nat, tabb: array<limb>, bo: nat, n: nat) returns (c: int)
    requires ao + n <= taba.Length && bo + n <= tabb.Length
    ensures c == (var x, y := V(taba[..], ao, n), V(tabb[..], bo, n); if x < y then -1 else if x > y then 1 else 0)
  {
    ghost var a, b := taba[..], tabb[..];
    for i := n downto 0
      invariant V(a, ao, n) - V(b, bo, n) == V(a, ao, i) - V(b, bo, i)
    {
      if taba[ao + i] != tabb[bo + i] {
        TopDecides(a, ao, b, bo, i + 1);
        return if taba[ao + i] < tabb[bo + i] then -1 else 1;
      }
    }
    return 0;
  }

  /** Numbers of one length compare as their top limbs do, unless those are equal. */
  lemma TopDecides(a: seq<limb>, ao: nat, b: seq<limb>, bo: nat, n: nat)
    requires 0 < n && ao + n <= |a| && bo + n <= |b| && a[ao + n - 1] != b[bo + n - 1]
    ensures V(a, ao, n) < V(b, bo, n) <==> a[ao + n - 1] < b[bo + n - 1]
    ensures V(a, ao, n) != V(b, bo, n)
  {
    var x, y, p := a[ao + n - 1], b[bo + n - 1], BP(n - 1);
    VTop(a, ao, n);
    VTop(b, bo, n);
    if x < y { MulLe(x as int + 1, y, p); Dist(x, 1, p); } else { MulLe(y as int + 1, x, p); Dist(y, 1, p); }
  }
}
