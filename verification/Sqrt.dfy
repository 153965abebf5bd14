/**
 Karatsuba square root (mp_sqrtrem): the root of the high half, one division, one subtraction of a
 square and one correction.
 */
module Sqrt {
  import opened Limbs
  import opened MpBase
  import opened Udiv
  import opened MpDivBase
  import opened DivMath
  import opened MpDiv

  /** `s` is the integer square root of `a`, and `r` is what is left. */
  ghost predicate IsRoot(a: int, s: int, r: int) {
    a == s * s + r && 0 <= r <= 2 * s
  }

  lemma RootIsFloor(a: int, s: int, r: int)
    requires IsRoot(a, s, r)
    ensures s * s <= a < (s + 1) * (s + 1)
  {
    Square(s, 1);
  }

  lemma Square(x: int, y: int)
    ensures (x + y) * (x + y) == x * x + 2 * (x * y) + y * y
  {
  }

  // ---------------------------------------------------------------- the step

  /**
   Karatsuba step: from the root s1 of the high part `h` to the root of h * b^2 + a1 * b + a0, by
   dividing r1 * b + a1 by 2 * s1.
   */
  lemma SqrtStep(h: int, s1: int, r1: int, b: int, a1: int, a0: int, q: int, u: int)
    requires IsRoot(h, s1, r1) && 0 < b <= 2 * s1 && 0 <= a1 < b && 0 <= a0 < b
    requires r1 * b + a1 == q * (2 * s1) + u && 0 <= u < 2 * s1
    ensures var a, s, r := h * b * b + a1 * b + a0, s1 * b + q, u * b + a0 - q * q;
      0 <= q <= b && -(b * b) <= r && (if 0 <= r then IsRoot(a, s, r) else 0 < q && IsRoot(a, s - 1, r + 2 * s - 1))
  {
    var a, s, r := h * b * b + a1 * b + a0, s1 * b + q, u * b + a0 - q * q;
    QuotientRange(s1, r1, b, a1, q, u);
    StepIdentity(h, s1, r1, b, a1, a0, q, u);
    assert a == s * s + r;
    // r <= 2 * s
    MulLe(u + 1, 2 * s1, b);
    Dist(u, 1, b);
    Assoc(2, s1, b);
    MulLe(0, u, b);
    MulLe(q, b, q);
    MulLe(q, b, b);
    if r < 0 {
      assert q != 0;
      MulLe(b, 2 * s1, b);
      Square(s, -1);
    }
  }

  lemma QuotientRange(s1: int, r1: int, b: int, a1: int, q: int, u: int)
    requires 0 < b <= 2 * s1 && 0 <= a1 < b && 0 <= r1 <= 2 * s1
    requires r1 * b + a1 == q * (2 * s1) + u && 0 <= u < 2 * s1
    ensures 0 <= q <= b
  {
    MulLe(0, r1, b);
    MulLe(r1, 2 * s1, b);
    Dist(b, 1, 2 * s1);
    Dist(-1, 1, 2 * s1);
    LtMul(-1, q, 2 * s1);
    LtMul(q, b + 1, 2 * s1);
  }

  lemma StepIdentity(h: int, s1: int, r1: int, b: int, a1: int, a0: int, q: int, u: int)
    requires h == s1 * s1 + r1 && r1 * b + a1 == q * (2 * s1) + u
    ensures h * b * b + a1 * b + a0 == (s1 * b + q) * (s1 * b + q) + (u * b + a0 - q * q)
  {
    calc {
      h * b * b + a1 * b;
      { Dist(s1 * s1, r1, b); Dist(s1 * s1 * b, r1 * b, b); }
      s1 * s1 * b * b + (r1 * b * b + a1 * b);
      { Dist(r1 * b, a1, b); }
      s1 * s1 * b * b + (q * (2 * s1) + u) * b;
      { Dist(q * (2 * s1), u, b); }
      s1 * s1 * b * b + q * (2 * s1) * b + u * b;
    }
    Square(s1 * b, q);
    Squares(s1, b, q);
  }

  lemma Squares(s: int, b: int, q: int)
    ensures s * b * (s * b) == s * s * b * b && 2 * (s * b * q) == q * (2 * s) * b
  {
    Assoc(s * b, s, b);
    assert s * b * s == s * s * b;
    assert s * b * q == q * s * b;
    assert q * (2 * s) == 2 * (q * s);
    Assoc(2, q * s, b);
  }

  // ---------------------------------------------------------------- one limb

  const ROW_0: seq<int> := [128, 128, 129, 130, 131, 132, 133, 134, 135, 136, 137, 138, 139, 140, 141, 142]
  const ROW_1: seq<int> := [143, 144, 144, 145, 146, 147, 148, 149, 150, 150, 151, 152, 153, 154, 155, 155]
  const ROW_2: seq<int> := [156, 157, 158, 159, 160, 160, 161, 162, 163, 163, 164, 165, 166, 167, 167, 168]
  const ROW_3: seq<int> := [169, 170, 170, 171, 172, 173, 173, 174, 175, 176, 176, 177, 178, 178, 179, 180]
  const ROW_4: seq<int> := [181, 181, 182, 183, 183, 184, 185, 185, 186, 187, 187, 188, 189, 189, 190, 191]
  const ROW_5: seq<int> := [192, 192, 193, 193, 194, 195, 195, 196, 197, 197, 198, 199, 199, 200, 201, 201]
  const ROW_6: seq<int> := [202, 203, 203, 204, 204, 205, 206, 206, 207, 208, 208, 209, 209, 210, 211, 211]
  const ROW_7: seq<int> := [212, 212, 213, 214, 214, 215, 215, 216, 217, 217, 218, 218, 219, 219, 220, 221]
  const ROW_8: seq<int> := [221, 222, 222, 223, 224, 224, 225, 225, 226, 226, 227, 227, 228, 229, 229, 230]
  const ROW_9: seq<int> := [230, 231, 231, 232, 232, 233, 234, 234, 235, 235, 236, 236, 237, 237, 238, 238]
  const ROW_10: seq<int> := [239, 240, 240, 241, 241, 242, 242, 243, 243, 244, 244, 245, 245, 246, 246, 247]
  const ROW_11: seq<int> := [247, 248, 248, 249, 249, 250, 250, 251, 251, 252, 252, 253, 253, 254, 254, 255]

  /** The square roots of 16-bit numbers with a high byte from 64 on, by that byte. */
  const SQRT_TABLE := ROW_0 + ROW_1 + ROW_2 + ROW_3 + ROW_4 + ROW_5 + ROW_6 + ROW_7 + ROW_8 + ROW_9 + ROW_10 + ROW_11

  /** `s` is at most one below the root of each 16-bit number with high byte `v`. */
  predicate GoodEntry(s: int, v: int) {
    128 <= s <= 255 && s * s <= v * 256 && v * 256 + 255 < (s + 2) * (s + 2)
  }

  ghost predicate GoodRow(row: seq<int>, v: int) {
    forall k :: 0 <= k < |row| ==> GoodEntry(row[k], v + k)
  }

  lemma GoodRows(a: seq<int>, b: seq<int>, v: int)
    requires GoodRow(a, v) && GoodRow(b, v + |a|)
    ensures GoodRow(a + b, v)
  {
    hide GoodEntry;
  }

  lemma Row0()
    ensures GoodRow(ROW_0, 64) && |ROW_0| == 16
  {
  }

  lemma Row1()
    ensures GoodRow(ROW_1, 80) && |ROW_1| == 16
  {
  }

  lemma Row2()
    ensures GoodRow(ROW_2, 96) && |ROW_2| == 16
  {
  }

  lemma Row3()
    ensures GoodRow(ROW_3, 112) && |ROW_3| == 16
  {
  }

  lemma Row4()
    ensures GoodRow(ROW_4, 128) && |ROW_4| == 16
  {
  }

  lemma Row5()
    ensures GoodRow(ROW_5, 144) && |ROW_5| == 16
  {
  }

  lemma Row6()
    ensures GoodRow(ROW_6, 160) && |ROW_6| == 16
  {
  }

  lemma Row7()
    ensures GoodRow(ROW_7, 176) && |ROW_7| == 16
  {
  }

  lemma Row8()
    ensures GoodRow(ROW_8, 192) && |ROW_8| == 16
  {
  }

  lemma Row9()
    ensures GoodRow(ROW_9, 208) && |ROW_9| == 16
  {
  }

  lemma Row10()
    ensures GoodRow(ROW_10, 224) && |ROW_10| == 16
  {
  }

  lemma Row11()
    ensures GoodRow(ROW_11, 240) && |ROW_11| == 16
  {
  }

  lemma GoodTable()
    ensures |SQRT_TABLE| == 192 && GoodRow(SQRT_TABLE, 64)
  {
    hide GoodEntry;
    hide GoodRow;
    Row0();
    Row1();
    GoodRows(ROW_0, ROW_1, 64);
    Row2();
    GoodRows(ROW_0 + ROW_1, ROW_2, 64);
    Row3();
    GoodRows(ROW_0 + ROW_1 + ROW_2, ROW_3, 64);
    Row4();
    GoodRows(ROW_0 + ROW_1 + ROW_2 + ROW_3, ROW_4, 64);
    Row5();
    GoodRows(ROW_0 + ROW_1 + ROW_2 + ROW_3 + ROW_4, ROW_5, 64);
    Row6();
    GoodRows(ROW_0 + ROW_1 + ROW_2 + ROW_3 + ROW_4 + ROW_5, ROW_6, 64);
    Row7();
    GoodRows(ROW_0 + ROW_1 + ROW_2 + ROW_3 + ROW_4 + ROW_5 + ROW_6, ROW_7, 64);
    Row8();
    GoodRows(ROW_0 + ROW_1 + ROW_2 + ROW_3 + ROW_4 + ROW_5 + ROW_6 + ROW_7, ROW_8, 64);
    Row9();
    GoodRows(ROW_0 + ROW_1 + ROW_2 + ROW_3 + ROW_4 + ROW_5 + ROW_6 + ROW_7 + ROW_8, ROW_9, 64);
    Row10();
    GoodRows(ROW_0 + ROW_1 + ROW_2 + ROW_3 + ROW_4 + ROW_5 + ROW_6 + ROW_7 + ROW_8 + ROW_9, ROW_10, 64);
    Row11();
    GoodRows(ROW_0 + ROW_1 + ROW_2 + ROW_3 + ROW_4 + ROW_5 + ROW_6 + ROW_7 + ROW_8 + ROW_9 + ROW_10, ROW_11, 64);
  }

  function TableEntry(i: nat): (e: int)
    requires i < 192
    ensures GoodEntry(e, 64 + i)
  {
    GoodTable();
    SQRT_TABLE[i]
  }

  /** The root of the high 16 bits, by the table. */
  method TableSqrt(h: nat) returns (s1: nat, r1: nat)
    requires 0x4000 <= h < 0x1_0000
    ensures IsRoot(h, s1, r1) && 128 <= s1 <= 255
  {
    hide TableEntry, IsRoot;
    var e := TableEntry(h / 256 - 64);
    TableRoot(e, h / 256, h);
    s1 := e;
    r1 := h - e * e;
    if r1 > 2 * s1 {
      r1 := r1 - (2 * s1 + 1);
      s1 := s1 + 1;
    }
    SmallRoot(h, s1, r1);
  }

  /** mp_sqrtrem1, for 32-bit limbs: the square root of a limb. */
  method MpSqrtrem1(a: limb) returns (s: limb, r: limb)
    requires QUARTER <= a
    ensures IsRoot(a, s, r) && HALF <= s * 65536 && s < 65536
  {
    hide IsRoot;
    // the first eight bits come from a table
    var s1, r1 := TableSqrt(a / 0x1_0000);
    var s', r' := ByteStep(a / 0x1_0000, s1, r1, (a / 256) % 256, a % 256);
    assert a == (a / 0x1_0000) * 0x1_0000 + (a / 256) % 256 * 256 + a % 256;
    LimbRoot(a, s', r');
    s, r := s', r';
  }

  /** One iteration to get from the root of `h` to the root of `h` and two more bytes. */
  method ByteStep(ghost h: int, s1: nat, r1: nat, a1: nat, a0: nat) returns (s: int, r: int)
    requires IsRoot(h, s1, r1) && 128 <= s1 && a1 < 256 && a0 < 256
    ensures IsRoot(h * 0x1_0000 + a1 * 256 + a0, s, r) && 0 <= s
  {
    hide IsRoot;
    var num := r1 * 256 + a1;
    var q, u := num / (2 * s1), num % (2 * s1);
    DivMod(num, 2 * s1);
    SqrtStep(h, s1, r1, 256, a1, a0, q, u);
    s := s1 * 256 + q;
    r := u * 256 + a0 - q * q;
    if r < 0 {
      s := s - 1;
      r := r + 2 * s + 1;
    }
  }

  lemma RootRemainder(a: int, s: int, r: int)
    requires IsRoot(a, s, r)
    ensures 0 <= r <= 2 * s
  {
  }

  lemma TableRoot(s: int, v: int, h: int)
    requires GoodEntry(s, v) && v * 256 <= h <= v * 256 + 255
    ensures 0 <= h - s * s && 128 <= s
    ensures h - s * s <= 2 * s ==> IsRoot(h, s, h - s * s)
    ensures h - s * s > 2 * s ==> IsRoot(h, s + 1, h - s * s - (2 * s + 1))
  {
    Square(s, 1);
    Square(s, 2);
    Square(s + 1, 1);
  }

  lemma SmallRoot(h: int, s: int, r: int)
    requires 0x4000 <= h < 0x1_0000 && IsRoot(h, s, r) && 0 <= s
    ensures 128 <= s <= 255
  {
    if s < 128 { MulLe(s + 1, 128, s + 1); MulLe(s + 1, 128, 128); Square(s, 1); }
    if 255 < s { MulLe(256, s, 256); MulLe(256, s, s); }
  }

  lemma LimbRoot(a: limb, s: int, r: int)
    requires QUARTER <= a && IsRoot(a, s, r) && 0 <= s
    ensures HALF <= s * 65536 && s < 65536 && 0 <= r <= 2 * s
  {
    if s < 32768 { MulLe(s + 1, 32768, s + 1); MulLe(s + 1, 32768, 32768); Square(s, 1); }
    if 65535 < s { MulLe(65536, s, 65536); MulLe(65536, s, s); }
  }

  /** The root of a number below p^2 is below p. */
  lemma RootFits(a: int, s: int, r: int, p: int)
    requires IsRoot(a, s, r) && a < p * p && 0 <= s && 0 < p
    ensures s < p
  {
    if p <= s { MulLe(p, s, p); MulLe(p, s, s); }
  }

  /** mp_sqrtrem2: the square root of two limbs.  The high limb of the remainder is returned. */
  method MpSqrtrem2(tabs: array<limb>, so: nat, taba: array<limb>, ao: nat) returns (rh: limb)
    requires so + 1 <= tabs.Length && ao + 2 <= taba.Length && tabs != taba && QUARTER <= taba[ao + 1]
    modifies tabs, taba
    ensures Only(old(tabs[..]), tabs[..], so, 1) && Only(old(taba[..]), taba[..], ao, 2) && rh <= 1
    ensures IsRoot(V(old(taba[..]), ao, 2), V(tabs[..], so, 1), V(taba[..], ao, 1) + rh * BP(1))
  {
    hide V, BP, IsRoot, Wrap, Wide, High;
    var a0, a1 := taba[ao], taba[ao + 1];
    TwoLimbs(taba[..], ao);
    var s1, r1 := MpSqrtrem1(a1);
    RootRemainder(a1, s1, r1);
    var num := r1 * 65536 + a0 / 65536;
    var q, u := num / (2 * s1), num % (2 * s1);
    DivMod(num, 2 * s1);
    SqrtStep(a1, s1, r1, 65536, a0 / 65536, a0 % 65536, q, u);
    assert a1 * 65536 * 65536 + a0 / 65536 * 65536 + a0 % 65536 == a1 * B + a0;
    ghost var st, rt := s1 * 65536 + q, u * 65536 + a0 % 65536 - q * q;
    var s := Wrap(s1 * 65536 + q);
    var r := Wide(u * 65536 + a0 % 65536 - if q / 65536 != 0 then B else q * q);
    FullQuotient(q);
    MeansSigned(a1 * B + a0, st, rt, s, r);
    // a root that is one too large shows as a negative remainder
    if HALF <= High(r) {
      s := Wrap(s as int - 1);
      r := Wide(r + 2 * (s as int) + 1);
    }
    tabs[so] := s;
    VOne(tabs[..], so);
    taba[ao] := Wrap(r);
    VOne(taba[..], ao);
    HighPart2(a1 * B + a0, s, r);
    rh := High(r);
  }

  lemma TwoLimbs(t: seq<limb>, o: nat)
    requires o + 2 <= |t|
    ensures V(t, o, 2) == t[o + 1] * B + t[o] && BP(1) == B
  {
    VNext(t, o, 1);
    VOne(t, o);
    BPSmall();
  }

  lemma FullQuotient(q: int)
    requires 0 <= q <= 65536
    ensures q / 65536 != 0 ==> q * q == B
  {
  }

  /** What the unsigned variables of mp_sqrtrem2 hold. */
  lemma MeansSigned(a: int, st: int, rt: int, s: limb, r: int)
    requires 0 <= a < B * B && -B <= rt && 0 <= st <= B && s == Wrap(st) && r == Wide(rt)
    requires if 0 <= rt then IsRoot(a, st, rt) else 0 < st && IsRoot(a, st - 1, rt + 2 * st - 1)
    ensures HALF <= High(r) <==> rt < 0
    ensures if rt < 0 then IsRoot(a, Wrap(s as int - 1), Wide(r + 2 * (Wrap(s as int - 1) as int) + 1)) else IsRoot(a, s, r)
  {
    hide Wrap, Wide, High, IsRoot;
    if 0 <= rt {
      RootFits(a, st, rt, B);
      RootRemainder(a, st, rt);
      MeansPositive(st, rt);
    } else {
      RootFits(a, st - 1, rt + 2 * st - 1, B);
      RootRemainder(a, st - 1, rt + 2 * st - 1);
      MeansNegative(st, rt, s, r);
    }
  }

  lemma MeansPositive(st: int, rt: int)
    requires 0 <= st < B && 0 <= rt <= 2 * st
    ensures Wide(rt) == rt && High(rt) < HALF && Wrap(st) == st
  {
  }

  lemma MeansNegative(st: int, rt: int, s: limb, r: int)
    requires -B <= rt < 0 && 0 < st <= B && 0 <= rt + 2 * st - 1 && s == Wrap(st) && r == Wide(rt)
    ensures HALF <= High(r) && Wrap(s as int - 1) == st - 1
    ensures Wide(r + 2 * (Wrap(s as int - 1) as int) + 1) == rt + 2 * st - 1
  {
    assert r == rt + B * B && High(rt + B * B) == B - 1;
  }

  lemma HighPart2(a: int, s: limb, r: int)
    requires IsRoot(a, s, r)
    ensures 0 <= High(r) <= 1 && Wrap(r) + High(r) * B == r
  {
  }

  // ---------------------------------------------------------------- the recursion

  /** The top limbs of the root are normalized. */
  lemma RootNormalized(a: seq<limb>, ao: nat, h: nat, t: seq<limb>, so: nat, r1: int)
    requires 1 <= h && ao + 2 * h <= |a| && so + h <= |t| && QUARTER <= a[ao + 2 * h - 1]
    requires IsRoot(V(a, ao, 2 * h), V(t, so, h), r1)
    ensures Normalized(t, so, h) && BP(h) <= 2 * V(t, so, h)
  {
    hide V, BP, IsRoot;
    var s1, p := V(t, so, h), BP(h);
    VTop(a, ao, 2 * h);
    MulLe(QUARTER, a[ao + 2 * h - 1], BP(2 * h - 1));
    VNextPower(2 * h - 1);
    VNextPower(h - 1);
    BPAdd(h, h);
    RootIsFloor(V(a, ao, 2 * h), s1, r1);
    // 4 * (s1 + 1)^2 > B^(2h), hence 2 * (s1 + 1) > B^h
    HalfPower(s1 + 1, p, BP(h - 1));
    TopOf(t, so, h);
  }

  lemma HalfPower(x: int, p: int, p1: int)
    requires p * p < 4 * (x * x) && 0 <= x && 0 < p && p == B * p1
    ensures p <= 2 * (x - 1)
  {
    Fours(x, x);
    if 2 * x <= p {
      MulLe(2 * x, p, 2 * x);
      MulLe(2 * x, p, p);
    }
  }

  lemma TopOf(t: seq<limb>, o: nat, h: nat)
    requires 1 <= h && o + h <= |t| && BP(h) <= 2 * V(t, o, h)
    ensures Normalized(t, o, h)
  {
    VTop(t, o, h);
    var p := BP(h - 1);
    Dist(t[o + h - 1], 1, p);
    if t[o + h - 1] < HALF { MulLe(t[o + h - 1] as int + 1, HALF, p); }
  }

  /**
   mp_sqrtrem_rec: the root of taba[0..2n-1] goes to tabs[0..n-1] and the remainder to taba[0..n-1],
   with its high limb returned.
   */
  method MpSqrtremRec(tabs: array<limb>, so: nat, taba: array<limb>, ao: nat, n: nat, tmpBuf: array<limb>) returns (rh: limb)
    requires 1 <= n && so + n <= tabs.Length && ao + 2 * n <= taba.Length && n / 2 + 1 <= tmpBuf.Length
    requires tabs != taba && tabs != tmpBuf && taba != tmpBuf && QUARTER <= taba[ao + 2 * n - 1]
    modifies tabs, taba, tmpBuf
    ensures Only(old(tabs[..]), tabs[..], so, n) && Only(old(taba[..]), taba[..], ao, 2 * n) && rh <= 1
    ensures IsRoot(V(old(taba[..]), ao, 2 * n), V(tabs[..], so, n), V(taba[..], ao, n) + rh * BP(n))
    decreases n
  {
    if n == 1 {
      rh := MpSqrtrem2(tabs, so, taba, ao);
      return;
    }
    hide V, BP, IsRoot, Only, Normalized;
    var l := n / 2;
    var h := n - l;
    ghost var sa, ss := taba[..], tabs[..];
    var qh := MpSqrtremRec(tabs, so + l, taba, ao + 2 * l, h, tmpBuf);
    ghost var sa1, ss1 := taba[..], tabs[..];
    VOnly(sa, sa1, ao, l, ao + 2 * l, 2 * h);
    VOnly(sa, sa1, ao + l, l, ao + 2 * l, 2 * h);
    RootNormalized(sa, ao + 2 * l, h, ss1, so + l, V(sa1, ao + 2 * l, h) + qh * BP(h));
    rh := LowHalf(tabs, so, taba, ao, l, h, tmpBuf, qh, sa);
    OnlyWiden(ss, ss1, so + l, h, so, n);
    OnlyThen(ss, ss1, tabs[..], so, n);
    OnlyWiden(sa, sa1, ao + 2 * l, 2 * h, ao, 2 * n);
    OnlyThen(sa, sa1, taba[..], ao, 2 * n);
  }

  /** The root of the high half of `a` is in tabs + l, and its remainder in taba + 2 * l and qh0. */
  method LowHalf(tabs: array<limb>, so: nat, taba: array<limb>, ao: nat, l: nat, h: nat, tmpBuf: array<limb>, qh0: limb, ghost a: seq<limb>)
    returns (rh: limb)
    requires 1 <= l <= h <= l + 1 && so + l + h <= tabs.Length && ao + 2 * (l + h) <= taba.Length == |a| && l + 1 <= tmpBuf.Length
    requires tabs != taba && tabs != tmpBuf && taba != tmpBuf && qh0 <= 1
    requires Normalized(tabs[..], so + l, h) && BP(h) <= 2 * V(tabs[..], so + l, h)
    requires V(a, ao, l) == V(taba[..], ao, l) && V(a, ao + l, l) == V(taba[..], ao + l, l)
    requires IsRoot(V(a, ao + 2 * l, 2 * h), V(tabs[..], so + l, h), V(taba[..], ao + 2 * l, h) + qh0 * BP(h))
    modifies tabs, taba, tmpBuf
    ensures Only(old(tabs[..]), tabs[..], so, l + h) && Only(old(taba[..]), taba[..], ao, 2 * (l + h)) && rh <= 1
    ensures IsRoot(V(a, ao, 2 * (l + h)), V(tabs[..], so, l + h), V(taba[..], ao, l + h) + rh * BP(l + h))
  {
    hide V, BP, IsRoot, Only, Normalized, Halfway;
    ghost var n := l + h;
    ghost var sa1, ss1 := taba[..], tabs[..];
    ghost var r1 := V(sa1, ao + 2 * l, h) + qh0 * BP(h);
    RootRemainder(V(a, ao + 2 * l, 2 * h), V(ss1, so + l, h), r1);
    var qh;
    qh, rh := DivideByTwice(tabs, so, taba, ao, l, h, tmpBuf, qh0);
    ghost var sa2, ss2 := taba[..], tabs[..];
    ghost var q, u := qh * BP(l) + V(ss2, so, l), V(sa2, ao + l, h) + rh * BP(h);
    VOnly(ss1, ss2, so + l, h, so, l);
    VOnly(sa1, sa2, ao, l, ao + l, l + h);
    SplitRoot(a, ao, l, h, ss1, so, r1, q, u);
    VBound(a, ao, 2 * n);
    rh := SubtractSquare(tabs, so, taba, ao, l, h, qh, rh, V(a, ao, 2 * n), q);
    OnlyWiden(ss1, ss2, so, l, so, n);
    OnlyThen(ss1, ss2, tabs[..], so, n);
    OnlyWiden(sa1, sa2, ao + l, l + h, ao, 2 * n);
    OnlyThen(sa1, sa2, taba[..], ao, 2 * n);
  }

  /** The state of the root computation before q^2 is subtracted. */
  ghost predicate Halfway(a: int, st: int, rt: int) {
    if 0 <= rt then IsRoot(a, st, rt) else 0 < st && IsRoot(a, st - 1, rt + 2 * st - 1)
  }

  lemma SplitRoot(a: seq<limb>, ao: nat, l: nat, h: nat, t: seq<limb>, so: nat, r1: int, q: int, u: int)
    requires 1 <= l <= h && ao + 2 * (l + h) <= |a| && so + l + h <= |t|
    requires IsRoot(V(a, ao + 2 * l, 2 * h), V(t, so + l, h), r1) && BP(h) <= 2 * V(t, so + l, h)
    requires r1 * BP(l) + V(a, ao + l, l) == q * (2 * V(t, so + l, h)) + u && 0 <= u < 2 * V(t, so + l, h)
    ensures 0 <= q <= BP(l)
    ensures Halfway(V(a, ao, 2 * (l + h)), V(t, so + l, h) * BP(l) + q, u * BP(l) + V(a, ao, l) - q * q)
  {
    hide V, BP, IsRoot;
    ThreeParts(a, ao, l, h);
    VBound(a, ao, l);
    VBound(a, ao + l, l);
    BPMono(l, h);
    SqrtStep(V(a, ao + 2 * l, 2 * h), V(t, so + l, h), r1, BP(l), V(a, ao + l, l), V(a, ao, l), q, u);
  }

  lemma ThreeParts(a: seq<limb>, o: nat, l: nat, h: nat)
    requires o + 2 * (l + h) <= |a|
    ensures V(a, o, 2 * (l + h)) == V(a, o + 2 * l, 2 * h) * BP(l) * BP(l) + V(a, o + l, l) * BP(l) + V(a, o, l)
  {
    hide V, BP;
    var b, x, y := BP(l), V(a, o + 2 * l, 2 * h), V(a, o + l, l);
    VSplit(a, o, l, l + 2 * h);
    VSplit(a, o + l, l, 2 * h);
    DistL(b, y, b * x);
    assert b * (b * x) == x * b * b;
  }

  /**
   Divide r1 * B^l + a1 by 2 * s1, by way of a division by s1, whose top bit is set; the parity of that
   quotient goes into the remainder.
   */
  method DivideByTwice(tabs: array<limb>, so: nat, taba: array<limb>, ao: nat, l: nat, h: nat, tmpBuf: array<limb>, qh0: limb)
    returns (qh: limb, rh: limb)
    requires 1 <= l <= h && so + l + h <= tabs.Length && ao + 2 * (l + h) <= taba.Length && l + 1 <= tmpBuf.Length
    requires tabs != taba && tabs != tmpBuf && taba != tmpBuf && qh0 <= 1 && Normalized(tabs[..], so + l, h)
    requires V(taba[..], ao + 2 * l, h) + qh0 * BP(h) <= 2 * V(tabs[..], so + l, h)
    modifies tabs, taba, tmpBuf
    ensures Only(old(tabs[..]), tabs[..], so, l) && Only(old(taba[..]), taba[..], ao + l, l + h) && qh <= 1 && rh <= 1
    ensures var s1, r1 := V(old(tabs[..]), so + l, h), V(old(taba[..]), ao + 2 * l, h) + qh0 * BP(h);
      var q, u := qh * BP(l) + V(tabs[..], so, l), V(taba[..], ao + l, h) + rh * BP(h);
      r1 * BP(l) + V(old(taba[..]), ao + l, l) == q * (2 * s1) + u && 0 <= u < 2 * s1
  {
    hide V, BP, Only, Normalized;
    ghost var sa, ss, s1 := taba[..], tabs[..], V(tabs[..], so + l, h);
    DivideByRoot(tabs, so, taba, ao, l, h, tmpBuf, qh0);
    ghost var sa2, t := taba[..], tmpBuf[..];
    VNext(t, 0, l);
    qh := qh0 + tmpBuf[l];
    CopyLimbs(tabs, so, tmpBuf, 0, l);
    ghost var ss1 := tabs[..];
    var ql := MpShr(tabs, so, tabs, so, l, 1, qh % 2);
    PowerOne();
    ghost var ss2 := tabs[..];
    ghost var x := V(ss2, so, l);
    ShiftMath(qh, x, ql, V(t, 0, l), BP(l), qh0, t[l]);
    qh := qh / 2;
    OnlyThen(ss, ss1, ss2, so, l);
    VOnly(ss, ss2, so + l, h, so, l);
    if ql != 0 {
      rh := MpAdd(taba, ao + l, taba, ao + l, tabs, so + l, h, 0);
    } else {
      rh := 0;
      OnlySelf(sa2, ao + l, h);
    }
    ParityMath(qh * BP(l) + x, ql, s1, V(sa2, ao + l, h));
    VBound(taba[..], ao + l, h);
    OnlyWiden(sa2, taba[..], ao + l, h, ao + l, l + h);
    OnlyThen(sa, sa2, taba[..], ao + l, l + h);
  }

  lemma PowerOne()
    ensures Pow2(1) == 2
  {
    assert Pow2(0) == 1;
  }

  /** The division by s1. */
  method DivideByRoot(tabs: array<limb>, so: nat, taba: array<limb>, ao: nat, l: nat, h: nat, tmpBuf: array<limb>, qh0: limb)
    requires 1 <= l <= h && so + l + h <= tabs.Length && ao + 2 * (l + h) <= taba.Length && l + 1 <= tmpBuf.Length
    requires tabs != taba && tabs != tmpBuf && taba != tmpBuf && qh0 <= 1 && Normalized(tabs[..], so + l, h)
    requires V(taba[..], ao + 2 * l, h) + qh0 * BP(h) <= 2 * V(tabs[..], so + l, h)
    modifies taba, tmpBuf
    ensures Only(old(taba[..]), taba[..], ao + l, l + h) && tmpBuf[l] <= 1
    ensures var s1, r1 := V(tabs[..], so + l, h), V(old(taba[..]), ao + 2 * l, h) + qh0 * BP(h);
      r1 * BP(l) + V(old(taba[..]), ao + l, l)
      == (qh0 * BP(l) + V(tmpBuf[..], 0, l + 1)) * s1 + V(taba[..], ao + l, h) && V(taba[..], ao + l, h) < s1
  {
    hide V, BP, Only;
    ghost var sa, s1 := taba[..], V(tabs[..], so + l, h);
    ghost var r1, a1 := V(sa, ao + 2 * l, h) + qh0 * BP(h), V(sa, ao + l, l);
    NormalizedBounds(tabs[..], so + l, h);
    OnlySelf(sa, ao + 2 * l, h);
    if qh0 != 0 {
      var k := MpSub(taba, ao + 2 * l, taba, ao + 2 * l, tabs, so + l, h, 0);
      VBound(taba[..], ao + 2 * l, h);
    }
    ghost var sa1 := taba[..];
    assert V(sa1, ao + 2 * l, h) == r1 - qh0 * s1;
    VSplit(sa1, ao + l, l, h);
    VOnly(sa, sa1, ao + l, l, ao + 2 * l, h);
    MpDivnorm(tmpBuf, 0, taba, ao + l, l + h, tabs, so + l, h);
    TwiceMath(r1, qh0, s1, BP(l), a1, V(tmpBuf[..], 0, l + 1), V(taba[..], ao + l, h));
    OnlyWiden(sa, sa1, ao + 2 * l, h, ao + l, l + h);
    OnlyThen(sa, sa1, taba[..], ao + l, l + h);
  }

  lemma TwiceMath(r1: int, qh0: int, s1: int, p: int, a1: int, q1: int, u: int)
    requires a1 + p * (r1 - qh0 * s1) == q1 * s1 + u
    ensures r1 * p + a1 == (qh0 * p + q1) * s1 + u
  {
    DistL(p, r1, qh0 * s1);
    Dist(qh0 * p, q1, s1);
    assert p * (qh0 * s1) == qh0 * p * s1;
  }

  lemma ShiftMath(qh: int, x: int, ql: int, low: int, p: int, qh0: int, top: int)
    requires qh == qh0 + top && 0 <= qh && x * 2 + ql == low + (qh % 2 % 2) * p
    ensures qh0 * p + (low + top * p) == 2 * (qh / 2 * p + x) + ql
  {
    Dist(qh0, top, p);
    assert qh == 2 * (qh / 2) + qh % 2;
    Dist(2 * (qh / 2), qh % 2, p);
    Assoc(2, qh / 2, p);
  }

  lemma ParityMath(q: int, ql: int, s1: int, u: int)
    ensures (2 * q + ql) * s1 + u == q * (2 * s1) + (ql * s1 + u)
  {
    Dist(2 * q, ql, s1);
    assert 2 * q * s1 == q * (2 * s1);
  }

  /** Subtract q^2 from the remainder, and correct the root by one if that made it negative. */
  method SubtractSquare(tabs: array<limb>, so: nat, taba: array<limb>, ao: nat, l: nat, h: nat, qh: limb, rh0: limb, ghost a: int, ghost q: int)
    returns (rh: limb)
    requires 1 <= l <= h <= l + 1 && so + l + h <= tabs.Length && ao + 2 * (l + h) <= taba.Length
    requires tabs != taba && qh <= 1 && rh0 <= 1 && 0 <= a < BP(2 * (l + h))
    requires q == qh * BP(l) + V(tabs[..], so, l) && q <= BP(l)
    requires var u := V(taba[..], ao + l, h) + rh0 * BP(h);
      Halfway(a, V(tabs[..], so + l, h) * BP(l) + q, u * BP(l) + V(taba[..], ao, l) - q * q)
    modifies tabs, taba
    ensures Only(old(tabs[..]), tabs[..], so, l + h) && Only(old(taba[..]), taba[..], ao, 2 * (l + h)) && rh <= 1
    ensures IsRoot(a, V(tabs[..], so, l + h), V(taba[..], ao, l + h) + rh * BP(l + h))
  {
    hide V, BP, Only, Halfway, Wrap;
    var n := l + h;
    ghost var ss, sa := tabs[..], taba[..];
    ghost var st := V(ss, so + l, h) * BP(l) + q;
    ghost var rt := V(sa, ao, n) + rh0 * BP(n) - q * q;
    RemainderParts(sa, ao, l, h, rh0);
    var c := MpAddUi(tabs, so + l, qh, h);
    ghost var ss1, c1 := tabs[..], c;
    AddToRoot(ss, ss1, so, l, h, qh, c1);
    // take off the square of the low half
    VOnly(ss, ss1, so, l, so + l, h);
    var k := SubSquareOf(tabs, so, taba, ao, l, h, qh, q);
    ghost var sa1 := taba[..];
    rh := Wrap(rh0 as int - k);
    VBound(ss1, so, n);
    VBound(sa1, ao, n);
    BPAdd(n, n);
    Signed(a, st, rt, V(ss1, so, n), c1, V(sa1, ao, n), rh0 as int - k, BP(n));
    if HALF <= rh {
      rh := Decrement(tabs, so, taba, ao, n, c1, rh, a, st, rt);
      OnlyWiden(sa1, taba[..], ao, n, ao, 2 * n);
      OnlyThen(sa, sa1, taba[..], ao, 2 * n);
      OnlyWiden(ss, ss1, so + l, h, so, n);
      OnlyThen(ss, ss1, tabs[..], so, n);
    } else {
      OnlyWiden(ss, ss1, so + l, h, so, n);
    }
  }

  /** The correction: the root loses one, and the remainder gains twice the new root and one. */
  method Decrement(tabs: array<limb>, so: nat, taba: array<limb>, ao: nat, n: nat, ghost c: limb, rh0: limb, ghost a: int, ghost st: int, ghost rt: int)
    returns (rh: limb)
    requires 1 <= n && so + n <= tabs.Length && ao + n <= taba.Length && tabs != taba && rh0 == Wrap(-1)
    requires Halfway(a, st, rt) && rt < 0 && 0 <= a < BP(n) * BP(n)
    requires V(tabs[..], so, n) + c * BP(n) == st && V(taba[..], ao, n) - BP(n) == rt
    modifies tabs, taba
    ensures Only(old(tabs[..]), tabs[..], so, n) && Only(old(taba[..]), taba[..], ao, n)
    ensures rh <= 1 && IsRoot(a, V(tabs[..], so, n), V(taba[..], ao, n) + rh * BP(n))
  {
    hide V, BP, Only, Halfway, Wrap, IsRoot;
    ghost var ss1, sa1 := tabs[..], taba[..];
    VBound(sa1, ao, n);
    var d := MpSubUi(tabs, so, 1, n);
    ghost var ss2 := tabs[..];
    VBound(ss2, so, n);
    var e := MpAddMul1(taba, ao, tabs, so, n, 2);
    ghost var sa2 := taba[..];
    rh := Wrap(rh0 as int + e);
    var f := MpAddUi(taba, ao, 1, n);
    rh := Wrap(rh as int + f);
    VBound(taba[..], ao, n);
    Repaired(a, st, rt, V(ss1, so, n), V(ss2, so, n), d, c, V(sa1, ao, n), V(sa2, ao, n), V(taba[..], ao, n), e, f, BP(n));
    OnlyThen(sa1, sa2, taba[..], ao, n);
  }

  /** The remainder u * B^l + a0 is where the n low limbs are. */
  lemma RemainderParts(t: seq<limb>, o: nat, l: nat, h: nat, rh: int)
    requires o + l + h <= |t|
    ensures (V(t, o + l, h) + rh * BP(h)) * BP(l) + V(t, o, l) == V(t, o, l + h) + rh * BP(l + h)
  {
    hide V, BP;
    VSplit(t, o, l, h);
    BPAdd(l, h);
    Dist(V(t, o + l, h), rh * BP(h), BP(l));
    Assoc(rh, BP(h), BP(l));
  }

  lemma AddToRoot(s: seq<limb>, t: seq<limb>, so: nat, l: nat, h: nat, qh: int, c: int)
    requires so + l + h <= |s| && Only(s, t, so + l, h)
    requires V(t, so + l, h) + c * BP(h) == V(s, so + l, h) + qh
    ensures V(t, so, l + h) + c * BP(l + h) == V(s, so + l, h) * BP(l) + (qh * BP(l) + V(s, so, l))
  {
    hide V, BP;
    VSplit(t, so, l, h);
    VOnly(s, t, so, l, so + l, h);
    BPAdd(l, h);
    var p := BP(l);
    Dist(V(s, so + l, h), qh, p);
    Dist(V(t, so + l, h), c * BP(h), p);
    Assoc(c, BP(h), p);
  }

  /** The signed value of the high limb, and what it says. */
  lemma Signed(a: int, st: int, rt: int, w: int, c: limb, v: int, rs: int, p: int)
    requires Halfway(a, st, rt) && 0 <= a < p * p && 0 <= w < p && 0 <= v < p && -1 <= rs <= 1
    requires w + c * p == st && v + rs * p == rt
    ensures HALF <= Wrap(rs) <==> rs < 0
    ensures rs < 0 ==> v - p == rt && Wrap(rs) == Wrap(-1)
    ensures rs < 0 <==> rt < 0
    ensures 0 <= rs ==> Wrap(rs) <= 1 && Wrap(rs) == rs && IsRoot(a, w, v + rs * p)
  {
    if rs < 0 {
      assert Wrap(rs) == B - 1;
    } else {
      MulLe(0, rs, p);
      RootFits(a, st, rt, p);
      if c != 0 { MulLe(1, c, p); }
    }
  }

  /** After the correction. */
  lemma Repaired(a: int, st: int, rt: int, w: int, w2: int, d: limb, c: limb, v: int, v1: int, v2: int, e: limb, f: limb, p: int)
    requires Halfway(a, st, rt) && rt < 0 && 0 <= a < p * p && 0 <= w2 < p && 0 <= v < p && 0 <= v2 < p && 0 < p
    requires w + c * p == st && v - p == rt && d <= 1
    requires w2 - d * p == w - 1 && v1 + e * p == v + w2 * 2 && v2 + f * p == v1 + 1
    ensures var rh := Wrap(Wrap(Wrap(-1) as int + e) as int + f);
      rh <= 1 && IsRoot(a, w2, v2 + rh * p)
  {
    RootFits(a, st - 1, rt + 2 * st - 1, p);
    Dist(d, c, p);
    SameBelow(w2, st - 1, p, d as int - c);
    var g := e + f - 1;
    Dist(e + f, 1, p);
    Dist(e, f, p);
    assert v2 + g * p == rt + 2 * st - 1;
    InRange(v2, g, p, 2 * p);
    WrapTwice(e, f);
  }

  lemma SameBelow(x: int, y: int, p: int, m: int)
    requires 0 <= x < p && 0 <= y < p && x - y == m * p
    ensures x == y
  {
    if 0 < m { MulLe(1, m, p); } else if m < 0 { MulLe(m, -1, p); }
  }

  lemma InRange(v: int, g: int, p: int, top: int)
    requires 0 <= v < p && 0 <= v + g * p < 2 * p
    ensures 0 <= g <= 1
  {
    if g < 0 { MulLe(g, -1, p); } else if 1 < g { MulLe(2, g, p); }
  }

  lemma WrapTwice(e: limb, f: limb)
    requires 0 <= e + f - 1 <= 1
    ensures Wrap(Wrap(Wrap(-1) as int + e) as int + f) == e + f - 1
  {
    assert Wrap(-1) == B - 1;
    if e == 0 {
      assert Wrap(B - 1) == B - 1;
    } else {
      assert Wrap(B - 1 + e) == e - 1;
    }
  }

  /** taba[0..n-1] loses q^2; the limbs above are used to hold the square. */
  method SubSquareOf(tabs: array<limb>, so: nat, taba: array<limb>, ao: nat, l: nat, h: nat, qh: limb, ghost q: int) returns (k: limb)
    requires 1 <= l <= h <= l + 1 && so + l + h <= tabs.Length && ao + 2 * (l + h) <= taba.Length && tabs != taba
    requires qh <= 1 && q == qh * BP(l) + V(tabs[..], so, l) && q <= BP(l)
    modifies taba
    ensures Only(old(taba[..]), taba[..], ao, 2 * (l + h)) && k <= 1
    ensures V(taba[..], ao, l + h) - k * BP(l + h)
         == V(old(taba[..]), ao, l + h) - q * q
  {
    hide V, BP, Only;
    var n := l + h;
    ghost var s := taba[..];
    ghost var t;
    var c;
    if qh != 0 {
      // the digit is as large as the base, and its square is known
      c := qh;
      BPAdd(l, l);
      OnlySelf(s, ao, 2 * n);
      t := s;
    } else {
      MpMulBasecase(taba, ao + n, tabs, so, l, tabs, so, l);
      ghost var m := taba[..];
      c := MpSub(taba, ao, taba, ao, taba, ao + n, 2 * l, 0);
      VOnly(s, m, ao, 2 * l, ao + n, 2 * l);
      OnlyWiden(s, m, ao + n, 2 * l, ao, 2 * n);
      OnlyWiden(m, taba[..], ao, 2 * l, ao, 2 * n);
      OnlyThen(s, m, taba[..], ao, 2 * n);
      t := taba[..];
      HighSame(s, m, t, ao, l, h);
    }
    Empty(t, ao + 2 * l);
    k := MpSubUi(taba, ao + 2 * l, c, n - 2 * l);
    Empty(taba[..], ao + 2 * l);
    OnlyWiden(t, taba[..], ao + 2 * l, n - 2 * l, ao, 2 * n);
    OnlyThen(s, t, taba[..], ao, 2 * n);
    BorrowUp(s, t, taba[..], ao, 2 * l, n - 2 * l, q * q, c, k);
  }

  lemma HighSame(s: seq<limb>, m: seq<limb>, t: seq<limb>, ao: nat, l: nat, h: nat)
    requires 1 <= l <= h <= l + 1 && ao + 2 * (l + h) <= |s| && Only(s, m, ao + l + h, 2 * l) && Only(m, t, ao, 2 * l)
    ensures V(t, ao + 2 * l, h - l) == V(s, ao + 2 * l, h - l)
  {
    VOnly(s, m, ao + 2 * l, h - l, ao + l + h, 2 * l);
    VOnly(m, t, ao + 2 * l, h - l, ao, 2 * l);
  }

  lemma BorrowUp(s: seq<limb>, t: seq<limb>, u: seq<limb>, o: nat, m: nat, n: nat, x: int, c: int, k: int)
    requires o + m + n <= |s| == |t| && Only(t, u, o + m, n) && V(t, o + m, n) == V(s, o + m, n)
    requires V(t, o, m) - c * BP(m) == V(s, o, m) - x && V(u, o + m, n) - k * BP(n) == V(t, o + m, n) - c
    ensures V(u, o, m + n) - k * BP(m + n) == V(s, o, m + n) - x
  {
    hide V, BP;
    VSplit(s, o, m, n);
    VSplit(u, o, m, n);
    VOnly(t, u, o, m, o + m, n);
    BPAdd(m, n);
    var p := BP(m);
    DistL(p, V(u, o + m, n), k * BP(n));
    DistL(p, V(s, o + m, n), c);
    Assoc(p, k, BP(n));
  }

  /**
   mp_sqrtrem: for every 2n-limb number with a top limb of at least B / 4, its square root is left in
   tabs and the remainder in taba[0..n].
   */
  method MpSqrtrem(tabs: array<limb>, so: nat, taba: array<limb>, ao: nat, n: nat)
    requires 1 <= n && so + n <= tabs.Length && ao + 2 * n <= taba.Length
    requires tabs != taba && QUARTER <= taba[ao + 2 * n - 1]
    modifies tabs, taba
    ensures Only(old(tabs[..]), tabs[..], so, n) && Only(old(taba[..]), taba[..], ao, 2 * n)
    ensures IsRoot(V(old(taba[..]), ao, 2 * n), V(tabs[..], so, n), V(taba[..], ao, n + 1)) && taba[ao + n] <= 1
  {
    hide V, BP, IsRoot;
    var tmpBuf := new limb[n / 2 + 1];
    var rh := MpSqrtremRec(tabs, so, taba, ao, n, tmpBuf);
    ghost var s := taba[..];
    taba[ao + n] := rh;
    VNext(taba[..], ao, n);
    VOnly(s, taba[..], ao, n, ao + n, 1);
  }
}
