/**
 The divide-and-conquer conversions of libbf.c between a number and its digits in a radix of one limb.
 Numbers of infinite precision are integers here, and the rounded inverse of a power of the radix is
 the integer that it is in units of its last bit.
 */
module BaseConversion {
  import opened Limbs
  import opened Congruence
  import opened Udiv
  import opened Dft
  import FftDigits
  import opened BfBits
  import opened Rounding
  import opened RadixQuotient

  /** The digits below the split at a level of the recursion on `n0` digits. */
  function LowSize(n0: nat, level: nat): (n2: nat)
  {
    DivMod(n0 * 2, Pow2(level + 1));
    (n0 * 2 / Pow2(level + 1) + 1) / 2
  }

  /** A part of `n` digits at this level: as many as its siblings, or one more. */
  ghost predicate PartOf(n0: nat, level: nat, n: nat) {
    1 <= n && (n == n0 / Pow2(level) || n == n0 / Pow2(level) + 1)
  }

  lemma PartIsOne(n0: nat, level: nat, n: nat)
    requires PartOf(n0, level, n)
    ensures 1 <= n
  {
  }

  lemma Halves(n0: nat, level: nat)
    ensures Pow2(level + 1) == 2 * Pow2(level)
    ensures LowSize(n0, level) == (n0 / Pow2(level) + 1) / 2
    ensures n0 / Pow2(level + 1) == n0 / Pow2(level) / 2
  {
    var p := Pow2(level);
    FftDigits.DivByProduct(n0 * 2, 2, p);
    FftDigits.DivByProduct(n0, p, 2);
  }

  /** Both parts of a split are parts of the next level, and the table of powers is long enough. */
  lemma PartsFit(n0: limb, level: nat, n: nat)
    requires PartOf(n0, level, n) && 2 <= n
    ensures var n2 := LowSize(n0, level);
      && 1 <= n2 < n <= 2 * n2 + 1 && PartOf(n0, level + 1, n2) && PartOf(n0, level + 1, n - n2)
    ensures level <= CeilLog2(n0)
  {
    Halves(n0, level);
    var f := n0 / Pow2(level);
    assert 1 <= f;
    DivMod(n0, Pow2(level));
    MulLe(1, f, Pow2(level));
    Below(n0, level);
  }

  lemma Below(n: limb, level: nat)
    requires Pow2(level) <= n
    ensures level <= CeilLog2(n)
  {
    if CeilLog2(n) < level { PowersGrow(CeilLog2(n), level); }
  }

  /** A table whose entries are 0 until they are the powers that belong to their level. */
  ghost predicate PowerTable(tab: seq<int>, stride: nat, n0: nat, radix: int) {
    forall level: nat | level * stride < |tab| ::
      tab[level * stride] == 0 || tab[level * stride] == Pow(radix, LowSize(n0, level))
  }

  lemma EntrySet(tab: seq<int>, stride: nat, n0: nat, radix: int, level: nat)
    requires PowerTable(tab, stride, n0, radix) && 0 < stride && level * stride < |tab|
    ensures PowerTable(tab[level * stride := Pow(radix, LowSize(n0, level))], stride, n0, radix)
  {
    var tab' := tab[level * stride := Pow(radix, LowSize(n0, level))];
    forall l: nat | l * stride < |tab'|
      ensures tab'[l * stride] == 0 || tab'[l * stride] == Pow(radix, LowSize(n0, l))
    {
      if l * stride == level * stride {
        if l < level { MulLe(l + 1, level, stride); } else if level < l { MulLe(level + 1, l, stride); }
      }
    }
  }

  /** The low part and the high part of a stretch of digits. */
  lemma EvalParts(tab: seq<limb>, o: nat, n: nat, n2: nat, radix: int)
    requires n2 <= n && o + n <= |tab|
    ensures Eval(tab[o..o + n], radix) == Eval(tab[o..o + n2], radix) + Pow(radix, n2) * Eval(tab[o + n2..o + n], radix)
  {
    assert tab[o..o + n] == tab[o..o + n2] + tab[o + n2..o + n];
    EvalConcat(tab[o..o + n2], tab[o + n2..o + n], radix);
  }

  lemma EvalOne(tab: seq<limb>, o: nat, radix: int)
    requires o < |tab|
    ensures Eval(tab[o..o + 1], radix) == tab[o]
  {
    assert tab[o..o + 1] == [tab[o]] && tab[o..o + 1][1..] == [];
  }

  // ---------------------------------------------------------------- from digits

  /** bf_integer_from_radix_rec */
  method FromRadixRec(tab: array<limb>, o: nat, n: nat, level: nat, n0: limb, radix: limb, powTab: array<int>) returns (r: int)
    requires o + n <= tab.Length && 2 <= radix && PartOf(n0, level, n) && powTab.Length == CeilLog2(n0) + 2
    requires PowerTable(powTab[..], 1, n0, radix)
    modifies powTab
    ensures PowerTable(powTab[..], 1, n0, radix) && r == Eval(tab[o..o + n], radix)
    decreases n
  {
    hide PowerTable, Pow, Eval, PartOf, LowSize, Pow2;
    PartIsOne(n0, level, n);
    if n == 1 {
      EvalOne(tab[..], o, radix);
      assert tab[..][o..o + 1] == tab[o..o + 1];
      return tab[o] as int;
    }
    PartsFit(n0, level, n);
    var n2 := LowSize(n0, level);
    var n1 := n - n2;
    assert level * 1 == level;
    TableHas(powTab[..], 1, n0, radix, level);
    if powTab[level] == 0 {
      EntrySet(powTab[..], 1, n0, radix, level);
      powTab[level] := Pow(radix as int, n2);
    }
    var b := powTab[level];
    r := FromRadixRec(tab, o + n2, n1, level + 1, n0, radix, powTab);
    r := r * b;
    var t := FromRadixRec(tab, o, n2, level + 1, n0, radix, powTab);
    r := r + t;
    EvalParts(tab[..], o, n, n2, radix);
    assert tab[..][o..o + n] == tab[o..o + n] && tab[..][o..o + n2] == tab[o..o + n2] && tab[..][o + n2..o + n] == tab[o + n2..o + n];
  }

  lemma TableHas(tab: seq<int>, stride: nat, n0: nat, radix: int, level: nat)
    requires PowerTable(tab, stride, n0, radix) && level * stride < |tab|
    ensures tab[level * stride] == 0 || tab[level * stride] == Pow(radix, LowSize(n0, level))
  {
  }

  /** bf_integer_from_radix: the value of `n` digits. */
  method BfIntegerFromRadix(tab: array<limb>, n: limb, radix: limb) returns (r: int)
    requires 1 <= n as int <= tab.Length && 2 <= radix
    ensures r == Eval(tab[..n as int], radix)
  {
    hide Eval;
    var powTabLen := CeilLog2(n) + 2;
    var powTab := new int[powTabLen](_ => 0);
    assert Pow2(0) == 1;
    assert tab[0..0 + n as int] == tab[..n as int];
    r := FromRadixRec(tab, 0, n as int, 0, n, radix, powTab);
  }

  // ---------------------------------------------------------------- to digits

  ghost predicate DigitsBelow(s: seq<limb>, radix: int) {
    forall k :: 0 <= k < |s| ==> s[k] < radix
  }

  /** The low and the high digits of a number below radix^n. */
  lemma SplitNumber(a: int, q: int, r: int, radix: int, n1: nat, n2: nat)
    requires 1 < radix && 0 <= a < Pow(radix, n1 + n2) && a == q * Pow(radix, n2) + r && 0 <= r < Pow(radix, n2)
    ensures 0 <= q < Pow(radix, n1)
  {
    PowAdd(radix, n1, n2);
    var b := Pow(radix, n2);
    if q < 0 { MulLe(q, -1, b); }
    if Pow(radix, n1) <= q { MulLe(Pow(radix, n1), q, b); }
  }

  /** Beside every power that is set, the table holds its rounded inverse. */
  ghost predicate InverseTable(tab: seq<int>, n0: nat, bits: nat) {
    forall level: nat | level * 2 + 1 < |tab| ::
      0 < tab[level * 2] ==> tab[level * 2 + 1] == Inverse(tab[level * 2], LowSize(n0, level), bits)
  }

  ghost predicate Tables(tab: seq<int>, n0: nat, radix: int, bits: nat) {
    PowerTable(tab, 2, n0, radix) && InverseTable(tab, n0, bits)
  }

  lemma NoneSet(tab: seq<int>, n0: nat, radix: int, bits: nat)
    requires forall k :: 0 <= k < |tab| ==> tab[k] == 0
    ensures Tables(tab, n0, radix, bits)
  {
  }

  lemma BothSet(tab: seq<int>, n0: nat, radix: int, bits: nat, level: nat)
    requires Tables(tab, n0, radix, bits) && level * 2 + 1 < |tab| && 0 < Pow(radix, LowSize(n0, level))
    ensures var n2 := LowSize(n0, level);
      Tables(tab[level * 2 := Pow(radix, n2)][level * 2 + 1 := Inverse(Pow(radix, n2), n2, bits)], n0, radix, bits)
  {
    hide Pow, Inverse, LowSize;
    var n2 := LowSize(n0, level);
    var tab' := tab[level * 2 := Pow(radix, n2)];
    EntrySet(tab, 2, n0, radix, level);
    var tab'' := tab'[level * 2 + 1 := Inverse(Pow(radix, n2), n2, bits)];
    forall l: nat | l * 2 < |tab''|
      ensures tab''[l * 2] == 0 || tab''[l * 2] == Pow(radix, LowSize(n0, l))
    {
      assert tab''[l * 2] == tab'[l * 2];
    }
  }

  lemma TablesHave(tab: seq<int>, n0: nat, radix: int, bits: nat, level: nat)
    requires Tables(tab, n0, radix, bits) && level * 2 + 1 < |tab| && 0 < Pow(radix, LowSize(n0, level))
    ensures var n2 := LowSize(n0, level);
      tab[level * 2] == 0 || (tab[level * 2] == Pow(radix, n2) && tab[level * 2 + 1] == Inverse(Pow(radix, n2), n2, bits))
  {
    hide Pow, Inverse, LowSize;
  }

  lemma {:induction false} PowBelow(radix: nat, n: nat, bits: nat)
    requires radix <= Pow2(bits)
    ensures 0 <= Pow(radix, n) <= Pow2(n * bits)
  {
    if n == 0 {
      Pow2One();
    } else {
      hide Pow2;
      PowBelow(radix, n - 1, bits);
      Pow2Add(bits, (n - 1) * bits);
      Dist(n - 1, 1, bits);
      MulLe(radix, Pow2(bits), Pow(radix, n - 1));
      MulLe(Pow(radix, n - 1), Pow2((n - 1) * bits), Pow2(bits));
    }
  }

  /** One correction is enough. */
  lemma OneCorrection(a: nat, radix: nat, n1: nat, n2: nat, bits: nat)
    requires 1 <= n1 <= n2 + 1 && 1 <= bits && radix <= Pow2(bits) && 0 < Pow(radix, n2) && a < Pow(radix, n1 + n2)
    ensures var b := Pow(radix, n2);
      Distance(QuotientEstimate(a, Inverse(b, n2, bits), InverseShift(b, n2, bits), n1 * bits), a / b) <= 1
  {
    hide Pow2, Pow, Inverse, InverseShift, QuotientEstimate;
    var b := Pow(radix, n2);
    PowAdd(radix, n1, n2);
    PowBelow(radix, n1, bits);
    MulLe(Pow(radix, n1), Pow2(n1 * bits), b);
    EstimateIsClose(a, b, n1, n2, bits);
  }

  /**
   bf_integer_to_radix_rec: `n` digits of a number below radix^n.  No quotient along the way needs
   more than `worst` corrections.
   */
  method ToRadixRec(out: array<limb>, o: nat, a: int, n: nat, level: nat, n0: limb, radix: limb, bits: nat, powTab: array<int>)
    returns (ghost worst: nat)
    requires o + n <= out.Length && 2 <= radix && PartOf(n0, level, n) && powTab.Length == 2 * (CeilLog2(n0) + 2)
    requires 0 <= a < Pow(radix as int, n) && Tables(powTab[..], n0, radix, bits) && 1 <= bits && radix <= Pow2(bits)
    modifies out, powTab
    ensures Tables(powTab[..], n0, radix, bits) && Only(old(out[..]), out[..], o, n)
    ensures DigitsBelow(out[o..o + n], radix) && Eval(out[o..o + n], radix) == a && worst <= 1
    decreases n
  {
    hide Tables, Eval, PartOf, LowSize, Pow2, Only, Pow, Inverse, InverseShift, QuotientEstimate;
    PartIsOne(n0, level, n);
    worst := 0;
    ghost var s := out[..];
    OnePower(radix);
    if n == 1 {
      out[o] := a;
      EvalOne(out[..], o, radix);
      OnlyOne(s, out[..], o);
      assert out[..][o..o + 1] == out[o..o + 1];
      return;
    }
    if n == 2 {
      DivMod(a, radix as int);
      SplitNumber(a, a / radix as int, a % radix as int, radix, 1, 1);
      out[o] := a % radix as int;
      out[o + 1] := a / radix as int;
      TwoDigits(s, out[..], o, a, radix);
      assert out[..][o..o + 2] == out[o..o + 2];
      return;
    }
    PartsFit(n0, level, n);
    var n2 := LowSize(n0, level);
    var n1 := n - n2;
    FftDigits.PowPositive(radix, n2);
    TablesHave(powTab[..], n0, radix, bits, level);
    if powTab[level * 2] == 0 {
      BothSet(powTab[..], n0, radix, bits, level);
      powTab[level * 2] := Pow(radix as int, n2);
      powTab[level * 2 + 1] := Inverse(powTab[level * 2], n2, bits);
    }
    var b := powTab[level * 2];
    var q := QuotientEstimate(a, powTab[level * 2 + 1], InverseShift(b, n2, bits), n1 * bits);
    OneCorrection(a, radix, n1, n2, bits);
    var r := a - q * b;
    ghost var steps;
    q, r, steps := Adjust(a, b, q, r);
    SplitNumber(a, q, r, radix, n1, n2);
    ghost var high := ToRadixRec(out, o + n2, q, n1, level + 1, n0, radix, bits, powTab);
    ghost var mid := out[..];
    assert mid[o + n2..o + n] == out[o + n2..o + n];
    ghost var low := ToRadixRec(out, o, r, n2, level + 1, n0, radix, bits, powTab);
    worst := if steps < high then high else steps;
    worst := if worst < low then low else worst;
    Assembled(s, mid, out[..], o, n, n2, radix, q, r);
    assert out[..][o..o + n] == out[o..o + n] && out[..][o..o + n2] == out[o..o + n2];
  }

  lemma OnePower(radix: limb)
    ensures Pow(radix, 1) == radix
  {
    assert Pow(radix, 0) == 1;
  }

  /** Correct the quotient until the remainder is in range, one at a time. */
  method Adjust(a: int, b: int, q0: int, r0: int) returns (q: int, r: int, ghost steps: nat)
    requires 0 < b && a == q0 * b + r0
    ensures a == q * b + r && 0 <= r < b && q == a / b && steps == Distance(q0, q)
  {
    q, r, steps := q0, r0, 0;
    var qAdd := 0;
    while r < 0
      invariant a == (q + qAdd) * b + r && r < b + (if r0 < b then 0 else r0)
      invariant qAdd <= 0 && steps == -qAdd && (0 <= r0 ==> qAdd == 0) && (r0 < 0 ==> r < b)
      decreases -r
    {
      r := r + b;
      qAdd := qAdd - 1;
      Dist(q + qAdd, 1, b);
      steps := steps + 1;
    }
    while b <= r
      invariant a == (q + qAdd) * b + r && 0 <= r && (r0 < 0 ==> r < b)
      invariant steps == Distance(qAdd, 0) && (0 <= r0 ==> 0 <= qAdd)
    {
      r := r - b;
      Dist(q + qAdd, 1, b);
      qAdd := qAdd + 1;
      steps := steps + 1;
    }
    if qAdd != 0 {
      q := q + qAdd;
    }
    QuotientIs(a, b, q, r);
  }

  lemma TwoDigits(s: seq<limb>, u: seq<limb>, o: nat, a: int, radix: limb)
    requires o + 2 <= |s| == |u| && 2 <= radix && u[o] == a % radix as int && u[o + 1] == a / radix as int && u[o + 1] < radix
    requires forall i :: 0 <= i < |s| && i != o && i != o + 1 ==> u[i] == s[i]
    ensures Only(s, u, o, 2) && DigitsBelow(u[o..o + 2], radix) && Eval(u[o..o + 2], radix) == a
  {
    DivMod(a, radix as int);
    EvalParts(u, o, 2, 1, radix);
    EvalOne(u, o, radix);
    EvalOne(u, o + 1, radix);
    OnePower(radix);
  }

  lemma Assembled(s: seq<limb>, t: seq<limb>, u: seq<limb>, o: nat, n: nat, n2: nat, radix: limb, q: int, r: int)
    requires n2 <= n && o + n <= |s| == |t| == |u|
    requires Only(s, t, o + n2, n - n2) && Only(t, u, o, n2)
    requires DigitsBelow(t[o + n2..o + n], radix) && DigitsBelow(u[o..o + n2], radix)
    requires Eval(t[o + n2..o + n], radix) == q && Eval(u[o..o + n2], radix) == r
    ensures Only(s, u, o, n) && DigitsBelow(u[o..o + n], radix)
    ensures Eval(u[o..o + n], radix) == q * Pow(radix, n2) + r
  {
    hide Eval, Pow;
    assert t[o + n2..o + n] == u[o + n2..o + n];
    EvalParts(u, o, n, n2, radix);
    var v := u[o..o + n];
    assert v == u[o..o + n2] + t[o + n2..o + n];
  }

  /** bf_integer_to_radix: the digits of a number; no quotient needs more than one correction. */
  method BfIntegerToRadix(out: array<limb>, a: int, radix: limb) returns (ghost worst: nat)
    requires 1 <= out.Length < B && 2 <= radix && 0 <= a < Pow(radix as int, out.Length)
    modifies out
    ensures DigitsBelow(out[..], radix) && Eval(out[..], radix) == a && worst <= 1
  {
    hide Eval, Pow, Tables;
    var rLen: limb := out.Length;
    var powTabLen := (CeilLog2(rLen) + 2) * 2;
    var powTab := new int[powTabLen](_ => 0);
    assert Pow2(0) == 1;
    NoneSet(powTab[..], rLen, radix, CeilLog2(radix));
    worst := ToRadixRec(out, 0, a, out.Length, 0, rLen, radix, CeilLog2(radix), powTab);
    assert out[0..0 + out.Length] == out[..];
  }

  // ---------------------------------------------------------------- round trips

  /** There is one way to write a number with a given number of digits. */
  lemma {:induction false} DigitsAreUnique(s: seq<limb>, t: seq<limb>, radix: limb)
    requires |s| == |t| && DigitsBelow(s, radix) && DigitsBelow(t, radix) && Eval(s, radix) == Eval(t, radix)
    ensures s == t
  {
    hide Eval, DigitsBelow;
    if s != [] {
      var x, y := Eval(s[1..], radix), Eval(t[1..], radix);
      FirstDigit(s, radix);
      FirstDigit(t, radix);
      if x < y { MulLe(x + 1, y, radix); } else if y < x { MulLe(y + 1, x, radix); }
      DigitsAreUnique(s[1..], t[1..], radix);
      assert s == [s[0]] + s[1..] && t == [t[0]] + t[1..];
    }
  }

  lemma FirstDigit(s: seq<limb>, radix: limb)
    requires s != [] && DigitsBelow(s, radix)
    ensures Eval(s, radix) == s[0] as int + radix * Eval(s[1..], radix) && s[0] < radix && DigitsBelow(s[1..], radix)
  {
  }

  lemma {:induction false} DigitsInRange(s: seq<limb>, radix: limb)
    requires 1 <= radix && DigitsBelow(s, radix)
    ensures 0 <= Eval(s, radix) < Pow(radix, |s|)
  {
    hide Eval, DigitsBelow, Pow;
    if s == [] {
      NoDigits(radix);
    } else {
      FirstDigit(s, radix);
      DigitsInRange(s[1..], radix);
      MulLe(Eval(s[1..], radix) + 1, Pow(radix, |s| - 1), radix);
      MulLe(0, Eval(s[1..], radix), radix);
      PowNext(radix, |s| - 1);
    }
  }

  lemma NoDigits(radix: limb)
    ensures Eval([], radix) == 0 && Pow(radix, 0) == 1
  {
  }

  lemma PowNext(x: int, n: nat)
    ensures Pow(x, n + 1) == x * Pow(x, n)
  {
  }
}
