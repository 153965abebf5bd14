/**
 Binary floating point numbers of libbf.c: normalization and rounding in place (__bf_round).
 */
module BfFloat {
  import opened Limbs
  import opened MpBase
  import opened Udiv
  import opened MpDivBase
  import MpDiv
  import opened Rounding
  import opened BfBits

  const EXP_ZERO := -0x8000_0000
  const EXP_INF := 0x7fff_fffe
  const EXP_NAN := 0x7fff_ffff
  const PREC_INF := 0x3fff_ffff

  datatype Flags = Flags(mode: RndMode, expBits: nat, subnormal: bool, radPnt: bool) {
    function EMax(): int
      requires 1 <= expBits
    {
      Pow2(expBits - 1)
    }

    function EMin(): int
      requires 1 <= expBits
    {
      3 - EMax()
    }
  }

  datatype Status = Status(invalidOp: bool, divideZero: bool, overflow: bool, underflow: bool, inexact: bool)

  const OK := Status(false, false, false, false, false)

  /** The number of bits that are kept, counted from the top bit; it can be negative. */
  function EffectivePrec(expn: int, prec: nat, flags: Flags): int
    requires 1 <= flags.expBits
  {
    if flags.radPnt then (if prec != PREC_INF then expn + prec else prec)
    else if expn < flags.EMin() && flags.subnormal then prec - (flags.EMin() - expn)
    else prec
  }

  /** `m` rounded at bit `t`. */
  function RoundedAt(mode: RndMode, neg: bool, m: int, t: int): int {
    if t <= 0 then m else Round(mode, neg, m, Pow2(t)) * Pow2(t)
  }

  predicate InexactAt(mode: RndMode, m: int, t: int) {
    mode == RNDF || (0 < t && m % Pow2(t) != 0)
  }

  /** Whether a bit below the rounding bit is set; `prec` can be negative. */
  ghost predicate LowerBits(tab: seq<limb>, l: nat, prec: int)
    requires l <= |tab|
  {
    var pos := l * LIMB_BITS - 1 - if 0 < prec + 1 then prec + 1 else 0;
    0 <= pos && V(tab, 0, l) % Pow2(pos + 1) != 0
  }

  /** The rounding bit and the bits below it give the part that is cut off. */
  lemma BitsDecide(tab: seq<limb>, l: nat, prec: int)
    requires 1 <= l <= |tab| && HALF <= tab[l - 1]
    ensures var m, t, bit1, bit0 := V(tab, 0, l), LIMB_BITS * l - prec, GetBit(tab, l, l * LIMB_BITS - 1 - prec), LowerBits(tab, l, prec);
      && (t <= 0 ==> bit1 == 0 && !bit0)
      && (0 < t ==>
        && (m % Pow2(t) != 0 <==> bit1 != 0 || bit0)
        && GetBit(tab, l, l * LIMB_BITS - 1 - (prec - 1)) == (m / Pow2(t)) % 2
        && FracOf(m % Pow2(t), Pow2(t)) ==
          if bit1 == 0 then (if bit0 then Below else Exact) else if bit0 then Above else Half)
  {
    hide V, BP, Pow2, GetBit;
    var m, t := V(tab, 0, l), LIMB_BITS * l - prec;
    if t <= 0 {
      NoBit(tab, l, t - 1);
    } else {
      GetBitIs(tab, l, t - 1);
      GetBitIs(tab, l, t);
      Pow2Add(t - 1, 1);
      Pow2One();
      DivTwice(m, Pow2(t - 1), 2);
      assert LowerBits(tab, l, prec) <==> m % Pow2(t - 1) != 0 by { LowerBitsAre(tab, l, prec, t); }
      DivMod(m, Pow2(t - 1));
      if (m / Pow2(t - 1)) % 2 != 0 { assert m % Pow2(t) == m % Pow2(t - 1) + Pow2(t - 1); }
    }
  }

  lemma NoBit(tab: seq<limb>, l: nat, pos: int)
    requires l <= |tab| && pos < 0
    ensures GetBit(tab, l, pos) == 0
  {
  }

  /** When the precision is negative all the bits are below the rounding bit. */
  lemma LowerBitsAre(tab: seq<limb>, l: nat, prec: int, t: nat)
    requires 1 <= l <= |tab| && t == LIMB_BITS * l - prec && 1 <= t
    ensures LowerBits(tab, l, prec) <==> V(tab, 0, l) % Pow2(t - 1) != 0
  {
    hide V, BP, Pow2;
    Pow2One();
    if prec < 0 {
      var m := V(tab, 0, l);
      VBound(tab, 0, l);
      BitsOfLimbs(l);
      Pow2Up(LIMB_BITS * l, t - 1);
      QuotientIs(m, Pow2(LIMB_BITS * l), 0, m);
      QuotientIs(m, Pow2(t - 1), 0, m);
    } else if t == 1 {
      assert V(tab, 0, l) % 1 == 0;
    }
  }

  class Bf {
    var sign: bool
    var expn: int
    var tab: array<limb>

    /** A finite number other than zero: 0.m * 2^expn, with the top bit of m set. */
    ghost predicate Finite()
      reads this, tab
    {
      0 < tab.Length && HALF <= tab[tab.Length - 1]
    }

    ghost function Mant(): (m: nat)
      reads this, tab
    {
      V(tab[..], 0, tab.Length)
    }

    /** The exponent of the lowest bit. */
    function LowExp(): int
      reads this
    {
      expn - LIMB_BITS * tab.Length
    }

    ghost predicate IsZero()
      reads this
    {
      tab.Length == 0 && expn == EXP_ZERO
    }

    ghost predicate IsInf()
      reads this
    {
      tab.Length == 0 && expn == EXP_INF
    }

    ghost predicate IsNan()
      reads this
    {
      tab.Length == 0 && expn == EXP_NAN
    }

    constructor ()
      ensures IsZero() && !sign && fresh(tab)
    {
      sign, expn, tab := false, EXP_ZERO, new limb[0];
    }

    method BfSetNan()
      modifies this
      ensures IsNan() && !sign && fresh(tab)
    {
      sign, expn, tab := false, EXP_NAN, new limb[0];
    }

    method BfSetZero(isNeg: bool)
      modifies this
      ensures IsZero() && sign == isNeg && fresh(tab)
    {
      sign, expn, tab := isNeg, EXP_ZERO, new limb[0];
    }

    method BfSetInf(isNeg: bool)
      modifies this
      ensures IsInf() && sign == isNeg && fresh(tab)
    {
      sign, expn, tab := isNeg, EXP_INF, new limb[0];
    }

    /** bf_get_rnd_add: whether to round up at bit l * 32 - prec, and whether anything is cut off. */
    method BfGetRndAdd(l: nat, prec: int, mode: RndMode) returns (addOne: bool, inexact: bool)
      requires 1 <= l <= tab.Length && HALF <= tab[l - 1]
      ensures var m, t := V(tab[..], 0, l), LIMB_BITS * l - prec;
        && (0 < t ==> (addOne <==> Addend(mode, sign, (m / Pow2(t)) % 2 != 0, FracOf(m % Pow2(t), Pow2(t)))))
        && (t <= 0 ==> !addOne)
        && inexact == InexactAt(mode, m, t)
    {
      hide V, BP, Pow2, GetBit, FracOf;
      BitsDecide(tab[..], l, prec);
      var bit0 := true;
      if mode != RNDF {
        bit0 := ScanBitNz(tab, l, l * LIMB_BITS - 1 - if 0 < prec + 1 then prec + 1 else 0);
      }
      var bit1 := GetBit(tab[..], l, l * LIMB_BITS - 1 - prec) != 0;
      inexact := bit1 || bit0;
      match mode
      case RNDZ => addOne := false;
      case RNDN => addOne := bit1 && (bit0 || GetBit(tab[..], l, l * LIMB_BITS - 1 - (prec - 1)) != 0);
      case RNDD => addOne := sign && inexact;
      case RNDU => addOne := !sign && inexact;
      case RNDA => addOne := inexact;
      case RNDNA => addOne := bit1;
      case RNDF => addOne := bit1;
    }

    /** The number is x * 2^e. */
    ghost predicate Holds(x: int, e: int)
      reads this, tab
    {
      Finite() && e <= LowExp() && Mant() * Pow2(LowExp() - e) == x
    }

    /** What bf_set_overflow leaves: infinity, or the largest number with `prec` bits. */
    ghost predicate Overflowed(neg: bool, prec: nat, flags: Flags)
      requires 1 <= flags.expBits
      reads this, tab
    {
      sign == neg &&
      if prec == PREC_INF || flags.mode in {RNDN, RNDNA, RNDA} || flags.mode == (if neg then RNDD else RNDU) then IsInf()
      else
        expn == flags.EMax() && Finite() && prec <= LIMB_BITS * tab.Length
        && Mant() == BP(tab.Length) - Pow2(LIMB_BITS * tab.Length - prec)
    }

    /** bf_set_overflow */
    method BfSetOverflow(neg: bool, prec: nat, flags: Flags) returns (st: Status)
      requires 1 <= flags.expBits && 1 <= prec
      modifies this
      ensures Overflowed(neg, prec, flags) && st == OK.(overflow := true, inexact := true)
    {
      hide V, BP, Pow2;
      var mode := flags.mode;
      if prec == PREC_INF || mode == RNDN || mode == RNDNA || mode == RNDA || (mode == RNDD && neg) || (mode == RNDU && !neg) {
        BfSetInf(neg);
      } else {
        // the largest number below infinity
        var l := (prec + LIMB_BITS - 1) / LIMB_BITS;
        var low := l * LIMB_BITS - prec;
        MaskFits(low);
        tab := new limb[l](_ => B - 1);
        tab[0] := B - Pow2(low);
        AllOnes(tab[..], l, low);
        expn := flags.EMax();
        sign := neg;
      }
      st := OK.(overflow := true, inexact := true);
    }

    /** Add one at bit `t`; a carry out of the top limb shifts the number right by one bit. */
    method AddOneAt(l: nat, t: nat) returns (carried: bool)
      requires 1 <= l <= tab.Length && t < LIMB_BITS * l && HALF <= tab[l - 1]
      modifies tab
      ensures HALF <= tab[l - 1]
      ensures var m, m' := KeptBits(V(old(tab[..]), 0, l), t), KeptBits(V(tab[..], 0, l), t);
        if carried then m + Pow2(t) == BP(l) && 2 * m' == BP(l) else m + Pow2(t) == m' < BP(l)
    {
      hide V, BP, Pow2, KeptBits;
      var pos := t / LIMB_BITS;
      var n := l - pos;
      ghost var s, p := tab[..], Pow2(t % LIMB_BITS);
      ghost var h := V(s, pos, n);
      MaskFits(t % LIMB_BITS);
      KeptAt(s, l, t, pos);
      BitPlace(t, pos, t % LIMB_BITS);
      LimbsMultiple(n, t % LIMB_BITS);
      TopBound(s, pos, n);
      var carry := MpAddUi(tab, pos, Pow2(t % LIMB_BITS), n);
      ghost var u := tab[..];
      VBound(u, pos, n);
      BPAdd(pos, n);
      if carry != 0 {
        // the carry becomes the top bit
        var r := MpShr(tab, pos, tab, pos, n, 1, 1);
        Pow2One();
        CarriedBits(h, V(u, pos, n), V(tab[..], pos, n), r, p, n, pos);
      } else {
        AddKept(h, p, BP(pos));
      }
      TopFrom(tab[..], pos, n);
      KeptAt(tab[..], l, t, pos);
      if carry == 0 { KeptBelow(V(tab[..], pos, n), p, BP(pos), BP(n)); }
      carried := carry != 0;
    }

    /** The end of __bf_round: mask the bits below bit `t`, and remove the limbs that are zero. */
    method KeepBits(l: nat, t: int)
      requires 1 <= l <= tab.Length && t < LIMB_BITS * l && HALF <= tab[l - 1]
      modifies this, tab
      ensures Finite() && expn == old(expn) && sign == old(sign) && tab.Length <= l
      ensures Mant() * BP(l - tab.Length) == KeptBits(V(old(tab[..]), 0, l), t)
    {
      hide V, BP, Pow2, KeptBits, Masked;
      ghost var s := tab[..];
      var i := t / LIMB_BITS;
      Pow2Positive(t % LIMB_BITS);
      if 0 <= i {
        var shift := t % LIMB_BITS;
        MaskLimb(s, i, l, shift);
        if shift != 0 {
          tab[i] := tab[i] - tab[i] % Pow2(shift);
        }
        IsMasked(s, tab[..], i, shift);
      } else {
        i := 0;
      }
      MaskedValue(s, tab[..], l, t, i);
      Trim(i, l);
    }

    /** Remove the limbs from `i0` on that are zero, and the ones below. */
    method Trim(i0: nat, l: nat)
      requires i0 < l <= tab.Length && HALF <= tab[l - 1]
      modifies this
      ensures Finite() && expn == old(expn) && sign == old(sign) && tab.Length <= l - i0 && fresh(tab)
      ensures Mant() * BP(l - tab.Length) == BP(i0) * V(old(tab[..]), i0, l - i0)
    {
      hide V, BP;
      ghost var s1 := tab[..];
      var i := i0;
      while tab[i] == 0
        invariant i0 <= i < l && tab[..] == s1 && forall k :: i0 <= k < i ==> s1[k] == 0
        decreases l - i
      {
        i := i + 1;
      }
      TrimmedValue(s1, i0, i, l);
      var moved := new limb[l - i];
      MpDiv.CopyLimbs(moved, 0, tab, i, l - i);
      assert moved[..][0..l - i][l - i - 1] == tab[..][i..l][l - i - 1];
      tab := moved;
    }

    /**
     What __bf_round leaves of the number m * 2^(expn0 - 32 * l), whose top bit is set: the correctly
     rounded number, or what its exponent makes of it.
     */
    ghost predicate RoundOutcome(neg: bool, expn0: int, m: int, l: nat, prec1: nat, flags: Flags, ret: Status, st: Status)
      requires 1 <= flags.expBits
      reads this, tab
    {
      var prec := EffectivePrec(expn0, prec1, flags);
      var t := LIMB_BITS * l - prec;
      var x := RoundedAt(flags.mode, neg, m, t);
      var expn1 := if x == BP(l) then expn0 + 1 else expn0;
      var inexact := ret.inexact || InexactAt(flags.mode, m, t);
      if prec <= 0 && x != 0 then
        Holds(x, expn0 - LIMB_BITS * l) && sign == neg && expn == expn0 + 1 - prec && st == ret.(underflow := true, inexact := true)
      else if prec <= 0 || (expn1 < flags.EMin() && !flags.subnormal) then
        IsZero() && sign == neg && st == ret.(underflow := true, inexact := true)
      else if flags.EMax() < expn1 then
        1 <= prec1 && Overflowed(neg, prec1, flags) && st == OK.(overflow := true, inexact := true)
      else
        && Holds(x, expn0 - LIMB_BITS * l) && sign == neg && expn == expn1
        && st == ret.(inexact := inexact, underflow := ret.underflow || (expn1 < flags.EMin() && inexact))
    }

    /** __bf_round */
    method BfRound(prec1: nat, flags: Flags, l: nat, ret: Status) returns (st: Status)
      requires 1 <= l <= tab.Length && HALF <= tab[l - 1] && 1 <= flags.expBits && (prec1 == 0 ==> expn < flags.EMax())
      modifies this, tab
      ensures RoundOutcome(old(sign), old(expn), V(old(tab[..]), 0, l), l, prec1, flags, ret, st)
    {
      hide V, BP, Pow2, KeptBits, Addend, FracOf, RoundedAt, EffectivePrec, Bf.Holds, Bf.Overflowed, InexactAt, Bf.IsZero, Bf.FinishOutcome;
      ghost var m, e0 := V(tab[..], 0, l), expn;
      var prec := EffectivePrec(expn, prec1, flags);
      var t := LIMB_BITS * l - prec;
      var addOne, inexact := BfGetRndAdd(l, prec, flags.mode);
      RoundedIs(flags.mode, sign, m, t, addOne);
      st := if inexact then ret.(inexact := true) else ret;
      if prec <= 0 {
        TinyValue(m, l, prec, tab[..]);
        RoundTiny(t, prec, addOne, e0 - LIMB_BITS * l);
        st := st.(underflow := true, inexact := true);
      } else {
        ghost var x := RoundedAt(flags.mode, sign, m, t);
        ghost var c := RoundUp(l, t, addOne, x);
        ghost var st0 := st;
        st := Finish(prec1, flags, l, t, st, x, if c then 1 else 0);
        Finished(sign, e0, m, l, prec1, flags, ret, st0, st, x, if c then 1 else 0);
      }
    }

    /** The result when no bit is kept: one unit, or zero. */
    method RoundTiny(t: int, prec: int, addOne: bool, ghost e: int)
      requires prec <= 0 && LIMB_BITS <= t && e == expn - t - prec
      modifies this
      ensures sign == old(sign)
      ensures if addOne then Holds(Pow2(t), e) && expn == old(expn) + 1 - prec else IsZero()
    {
      hide V, Pow2;
      if addOne {
        tab := new limb[1](_ => HALF);
        expn := expn + 1 - prec;
        TinyHolds(tab[..], t);
      } else {
        BfSetZero(sign);
      }
    }

    /** Add the unit, if there is one to add. */
    method RoundUp(l: nat, t: int, addOne: bool, ghost x: int) returns (ghost carried: bool)
      requires 1 <= l <= tab.Length && t < LIMB_BITS * l && HALF <= tab[l - 1] && (addOne ==> 0 <= t)
      requires x == KeptBits(V(tab[..], 0, l), t) + if addOne then Pow2(t) else 0
      modifies this`expn, tab
      ensures HALF <= tab[l - 1] && expn == old(expn) + (if carried then 1 else 0) && (carried <==> x == BP(l))
      ensures x == KeptBits(V(tab[..], 0, l), t) * if carried then 2 else 1
    {
      hide V, BP, Pow2, KeptBits;
      carried := false;
      if addOne {
        var c := AddOneAt(l, t);
        carried := c;
        if c {
          expn := expn + 1;
        }
      } else {
        NoCarry(V(tab[..], 0, l), l, t, tab[..]);
      }
    }

    /** What is left of a number with the mantissa `x`, which has gained `c` bits, and the exponent `e`. */
    ghost predicate FinishOutcome(e: int, l: nat, prec1: nat, flags: Flags, st0: Status, st: Status, x: int, c: nat)
      requires 1 <= flags.expBits
      reads this, tab
    {
      if e < flags.EMin() && !flags.subnormal then
        IsZero() && st == st0.(underflow := true, inexact := true)
      else if flags.EMax() < e then
        1 <= prec1 && Overflowed(sign, prec1, flags) && st == OK.(overflow := true, inexact := true)
      else
        && Holds(x, e - c - LIMB_BITS * l) && expn == e
        && st == st0.(underflow := st0.underflow || (e < flags.EMin() && st0.inexact))
    }

    lemma Finished(neg: bool, expn0: int, m: int, l: nat, prec1: nat, flags: Flags, ret: Status, st0: Status, st: Status, x: int, c: nat)
      requires 1 <= flags.expBits && 0 < EffectivePrec(expn0, prec1, flags) && sign == neg
      requires var t := LIMB_BITS * l - EffectivePrec(expn0, prec1, flags);
        && x == RoundedAt(flags.mode, neg, m, t) && c == (if x == BP(l) then 1 else 0)
        && st0 == if InexactAt(flags.mode, m, t) then ret.(inexact := true) else ret
      requires FinishOutcome(expn0 + c, l, prec1, flags, st0, st, x, c)
      ensures RoundOutcome(neg, expn0, m, l, prec1, flags, ret, st)
    {
      hide BP, RoundedAt, EffectivePrec, Bf.Holds, Bf.Overflowed, InexactAt, Bf.IsZero;
    }

    /** The end of __bf_round: check the exponent and keep the bits above bit `t`. */
    method Finish(prec1: nat, flags: Flags, l: nat, t: int, st0: Status, ghost x: int, ghost c: nat) returns (st: Status)
      requires 1 <= l <= tab.Length && t < LIMB_BITS * l && HALF <= tab[l - 1] && 1 <= flags.expBits && c <= 1
      requires prec1 == 0 ==> expn <= flags.EMax()
      requires x == KeptBits(V(tab[..], 0, l), t) * if c == 1 then 2 else 1
      modifies this, tab
      ensures sign == old(sign) && FinishOutcome(old(expn), l, prec1, flags, st0, st, x, c)
    {
      hide V, BP, Pow2, KeptBits;
      st := st0;
      // too small an exponent
      if expn < flags.EMin() {
        if flags.subnormal {
          st := if st.inexact then st.(underflow := true) else st;
        } else {
          st := st.(underflow := true, inexact := true);
          BfSetZero(sign);
          return;
        }
      }
      // too large an exponent
      if expn > flags.EMax() {
        st := BfSetOverflow(sign, prec1, flags);
        return;
      }
      KeepBits(l, t);
      KeptHolds(Mant(), tab.Length, l, c);
    }

    /**
     bf_normalize_and_round: the number V(tab) * 2^e is brought to a form with its top bit set, which is
     m * 2^(e - shift) in l limbs, and rounded.
     */
    method BfNormalizeAndRound(prec1: nat, flags: Flags) returns (st: Status, ghost l: nat, ghost shift: nat)
      requires 1 <= flags.expBits && 1 <= prec1
      modifies this, tab
      ensures V(old(tab[..]), 0, old(tab.Length)) == 0 ==> IsZero() && sign == old(sign) && st == OK
      ensures V(old(tab[..]), 0, old(tab.Length)) != 0 ==>
        var m := V(old(tab[..]), 0, old(tab.Length)) * Pow2(shift);
        && BP(l) <= 2 * m < 2 * BP(l)
        && RoundOutcome(old(sign), old(LowExp()) - shift + LIMB_BITS * l, m, l, prec1, flags, OK, st)
    {
      hide V, BP, Pow2, Bf.RoundOutcome;
      ghost var s := tab[..];
      var n := tab.Length;
      while n > 0 && tab[n - 1] == 0
        invariant 0 <= n <= tab.Length && tab[..] == s && forall k :: n <= k < tab.Length ==> s[k] == 0
      {
        n := n - 1;
      }
      l, shift := n, 0;
      VZero(s, n, tab.Length - n);
      VSplit(s, 0, n, tab.Length - n);
      MulZero(BP(n));
      if n == 0 {
        Empty(s, 0);
        expn := EXP_ZERO;
        tab := new limb[0];
        st := OK;
      } else {
        expn := expn - (tab.Length - n) * LIMB_BITS;
        // normalize the top limb
        var c := Clz(tab[n - 1]);
        shift := c;
        NonZeroTop(s, n);
        if c != 0 {
          ShiftLeft(tab, n, c);
          expn := expn - c;
        } else {
          Pow2One();
        }
        TopBound(tab[..], 0, n);
        st := BfRound(prec1, flags, n, OK);
      }
    }

    /**
     The number is (n / d) * 2^e, correctly rounded to the precision its exponent allows: scaled by 2^k
     the number has w bits before the point, and the lowest t of them are cut off.
     */
    ghost predicate RoundedTo(neg: bool, n: nat, d: nat, e: int, prec: nat, flags: Flags, inexact: bool)
      requires 1 <= flags.expBits
      reads this, tab
    {
      sign == neg && exists k: nat, w: nat, t: nat ::
        && UnitOf(n, d, e, prec, flags, k, w, t)
        && Holds(Round(flags.mode, neg, n * Pow2(k), d * Pow2(t)) * Pow2(t), e - k)
        && (inexact <==> FracAt(n * Pow2(k), d * Pow2(t)) != Exact)
    }

    /**
     The number and the status for an exact number in the binade below 2^(low + w) whose rounded value
     is x * 2^low, when `bits` bits are kept: infinity or the largest number exactly when the rounded
     exponent is too large, zero exactly when it is too small and there are no subnormal numbers, or
     when nothing is kept and the rounded value is zero.
     */
    ghost predicate ResultIs(neg: bool, x: int, w: nat, bits: int, low: int, inexact: bool, prec: nat, flags: Flags, st: Status)
      requires 1 <= flags.expBits
      reads this, tab
    {
      var expn1 := RoundedExpn(x, w, low);
      if bits <= 0 then
        (if x == 0 then IsZero() else Holds(x, low)) && sign == neg && st == OK.(underflow := true, inexact := true)
      else if expn1 < flags.EMin() && !flags.subnormal then
        IsZero() && sign == neg && st == OK.(underflow := true, inexact := true)
      else if flags.EMax() < expn1 then
        1 <= prec && Overflowed(neg, prec, flags) && st == OK.(overflow := true, inexact := true)
      else
        Holds(x, low) && sign == neg && st == OK.(inexact := inexact, underflow := expn1 < flags.EMin() && inexact)
    }

    /** What an operation with the exact result (n / d) * 2^e leaves. */
    ghost predicate CorrectResult(neg: bool, n: nat, d: nat, e: int, prec: nat, flags: Flags, st: Status)
      requires 1 <= flags.expBits
      reads this, tab
    {
      exists k: nat, w: nat, t: nat :: CorrectAt(neg, n, d, e, prec, flags, st, k, w, t)
    }

    /** The exact result scaled by 2^k has w bits before the point, of which the lowest t are rounded. */
    ghost predicate CorrectAt(neg: bool, n: nat, d: nat, e: int, prec: nat, flags: Flags, st: Status, k: nat, w: nat, t: nat)
      requires 1 <= flags.expBits
      reads this, tab
    {
      UnitOf(n, d, e, prec, flags, k, w, t) &&
      ResultIs(neg, Round(flags.mode, neg, n * Pow2(k), d * Pow2(t)) * Pow2(t), w, w - t, e - k,
               FracAt(n * Pow2(k), d * Pow2(t)) != Exact, prec, flags, st)
    }

    /** bf_normalize_and_round of a number with a sticky bit: the exact number is rounded correctly. */
    method RoundSticky(prec1: nat, flags: Flags, ghost n: nat, ghost d: nat) returns (st: Status)
      requires 1 <= flags.expBits && 1 <= prec1 && !flags.radPnt && flags.mode != RNDF
      requires 0 < d && 0 < n && Mant() == Jam(n / d, n % d != 0)
      requires n % d != 0 ==> Pow2(prec1 + 1) <= n / d
      modifies this, tab
      ensures CorrectResult(old(sign), n, d, old(LowExp()), prec1, flags, st)
    {
      hide V, BP, Pow2, Bf.RoundOutcome, Bf.CorrectResult;
      ghost var m0, e0 := Mant(), LowExp();
      JamNotZero(n, d);
      ghost var l, shift;
      st, l, shift := BfNormalizeAndRound(prec1, flags);
      OutcomeIsCorrect(this, old(sign), n, d, e0, m0, l, shift, prec1, flags, st);
    }
  }

  /** The exponent after rounding: one more when the rounded number is the next power of two. */
  function RoundedExpn(x: int, w: nat, low: int): int {
    if x == Pow2(w) then low + w + 1 else low + w
  }

  /** The unit to which (n / d) * 2^e is rounded. */
  ghost predicate UnitOf(n: nat, d: nat, e: int, prec: nat, flags: Flags, k: nat, w: nat, t: nat)
    requires 1 <= flags.expBits
  {
    && 0 < d * Pow2(t) && Pow2(w) * d <= 2 * (n * Pow2(k)) < 2 * (Pow2(w) * d)
    && w - t == EffectivePrec(e - k + w, prec, flags)
  }

  lemma JamNotZero(n: nat, d: nat)
    requires 0 < d && 0 < n
    ensures 0 < Jam(n / d, n % d != 0)
  {
    DivMod(n, d);
    if n / d == 0 { assert n % d == n; }
  }

  lemma OutcomeIsCorrect(r: Bf, neg: bool, n: nat, d: nat, e: int, m0: int, l: nat, shift: nat, prec: nat, flags: Flags, st: Status)
    requires 1 <= flags.expBits && 1 <= prec && !flags.radPnt && flags.mode != RNDF && 0 < d && 0 < n
    requires m0 == Jam(n / d, n % d != 0) && (n % d != 0 ==> Pow2(prec + 1) <= n / d)
    requires BP(l) <= 2 * (m0 * Pow2(shift)) < 2 * BP(l)
    requires r.RoundOutcome(neg, e - shift + LIMB_BITS * l, m0 * Pow2(shift), l, prec, flags, OK, st)
    ensures r.CorrectResult(neg, n, d, e, prec, flags, st)
  {
    hide V, BP, Pow2, Round, FracAt, Bf.ResultIs, Bf.RoundOutcome, UnitOf, RoundedAt, EffectivePrec, InexactAt;
    var m, w := m0 * Pow2(shift), LIMB_BITS * l;
    var p := EffectivePrec(e - shift + w, prec, flags);
    var t := w - p;
    BitsOfLimbs(l);
    NotEmpty(m, l);
    ExactParts(n, d);
    if n % d != 0 { SpareBits(m0, shift, w, prec); }
    PrecAtMost(e - shift + w, prec, flags);
    OutcomeIsResult(r, neg, e - shift + w, m, l, prec, flags, st);
    if 0 <= t {
      UnitFits(n, d, e, m0, w, shift, prec, flags, t);
      RoundsSame(flags.mode, neg, n, d, m0, shift, t);
      UnitRound(flags.mode, neg, m, t);
      assert r.CorrectAt(neg, n, d, e, prec, flags, st, shift, w, t);
    } else {
      FineUnit(n, d, e, m0, w, shift, prec, flags, t);
      FineResult(r, neg, n, d, e, m0, w, shift, prec, flags, t, st);
      assert r.CorrectAt(neg, n, d, e, prec, flags, st, shift - t, w - t, 0);
    }
  }

  /** The outcome of the rounding, without the limbs. */
  lemma OutcomeIsResult(r: Bf, neg: bool, expn0: int, m: int, l: nat, prec: nat, flags: Flags, st: Status)
    requires 1 <= flags.expBits && 1 <= prec && 0 < m < BP(l) && r.RoundOutcome(neg, expn0, m, l, prec, flags, OK, st)
    ensures var bits, w := EffectivePrec(expn0, prec, flags), LIMB_BITS * l;
      r.ResultIs(neg, RoundedAt(flags.mode, neg, m, w - bits), w, bits, expn0 - w, InexactAt(flags.mode, m, w - bits), prec, flags, st)
  {
    hide V, BP, Pow2, RoundedAt, EffectivePrec, InexactAt, Bf.Holds, Bf.Overflowed;
    BitsOfLimbs(l);
  }

  lemma NotEmpty(m: int, l: nat)
    requires BP(l) <= 2 * m < 2 * BP(l)
    ensures 0 < l && 0 < m
  {
    BPSmall();
  }

  lemma HoldsNotZero(r: Bf, x: int, e: int)
    ensures r.Holds(x, e) ==> !r.IsZero()
  {
  }

  lemma ExactParts(n: nat, d: nat)
    requires 0 < d
    ensures n % d == 0 ==> n == n / d * d
  {
    DivMod(n, d);
  }

  /** A number with a sticky bit has two bits below the precision. */
  lemma SpareBits(m0: nat, shift: nat, w: nat, prec: nat)
    requires Pow2(prec + 1) <= m0 && m0 * Pow2(shift) < Pow2(w)
    ensures prec + shift + 2 <= w
  {
    hide Pow2;
    if w <= prec + 1 + shift {
      Pow2Add(prec + 1, shift);
      Pow2Up(w, prec + 1 + shift);
      MulLe(Pow2(prec + 1), m0, Pow2(shift));
    }
  }

  /** When nothing is cut off the result is exact on a finer scale. */
  lemma FineResult(r: Bf, neg: bool, n: nat, d: nat, e: int, m0: int, w: nat, shift: nat, prec: nat, flags: Flags, t: int, st: Status)
    requires 1 <= flags.expBits && flags.mode != RNDF && 0 < d && n == m0 * d && t < 0
    requires r.ResultIs(neg, RoundedAt(flags.mode, neg, m0 * Pow2(shift), t), w, w - t, e - shift, InexactAt(flags.mode, m0 * Pow2(shift), t), prec, flags, st)
    ensures 0 < d * Pow2(0)
    ensures r.ResultIs(neg, Round(flags.mode, neg, n * Pow2(shift - t), d * Pow2(0)) * Pow2(0), w - t, w - t - 0, e - (shift - t),
                       FracAt(n * Pow2(shift - t), d * Pow2(0)) != Exact, prec, flags, st)
  {
    hide V, BP, Pow2, Round, FracAt, Bf.ResultIs;
    Rescaled(n, d, m0, shift, -t);
    ExactRound(flags.mode, neg, m0 * Pow2(shift) * Pow2(-t), d);
    ResultFiner(r, neg, m0 * Pow2(shift), w, w - t, e - shift, false, -t, prec, flags, st);
  }

  /** The same result on a finer scale. */
  lemma ResultFiner(r: Bf, neg: bool, x: int, w: nat, bits: int, low: int, inexact: bool, j: nat, prec: nat, flags: Flags, st: Status)
    requires 1 <= flags.expBits && r.ResultIs(neg, x, w, bits, low, inexact, prec, flags, st)
    ensures r.ResultIs(neg, x * Pow2(j), w + j, bits, low - j, inexact, prec, flags, st)
  {
    hide Pow2, Bf.Holds, Bf.Overflowed, Bf.IsZero;
    Pow2Add(w, j);
    if x != Pow2(w) && x * Pow2(j) == Pow2(w + j) { LeMul(x, Pow2(w), Pow2(j)); LeMul(Pow2(w), x, Pow2(j)); }
    if x == 0 { ZeroTimes(Pow2(j)); } else if 0 < x { MulLe(1, x, Pow2(j)); } else { MulLe(x, -1, Pow2(j)); }
    if r.Holds(x, low) { HoldsFiner(r, x, low, j); }
  }

  lemma ZeroTimes(x: int)
    ensures 0 * x == 0
  {
  }

  lemma PrecAtMost(expn: int, prec: nat, flags: Flags)
    requires 1 <= flags.expBits && !flags.radPnt
    ensures EffectivePrec(expn, prec, flags) <= prec
  {
  }

  lemma UnitFits(n: nat, d: nat, e: int, m0: int, w: nat, shift: nat, prec: nat, flags: Flags, t: nat)
    requires 1 <= flags.expBits && 0 < d && m0 == Jam(n / d, n % d != 0) && (n % d == 0 ==> n == n / d * d)
    requires Pow2(w) <= 2 * (m0 * Pow2(shift)) < 2 * Pow2(w) && (n % d != 0 ==> shift + 2 <= w)
    requires w - t == EffectivePrec(e - shift + w, prec, flags)
    ensures UnitOf(n, d, e, prec, flags, shift, w, t)
  {
    hide Pow2, EffectivePrec;
    MulLt(0, Pow2(t), d);
    if n % d == 0 {
      ExactBinade(n, d, m0, Pow2(shift), Pow2(w));
    } else {
      StickyBinade(n, d, m0, w, shift);
    }
  }

  lemma ExactBinade(n: nat, d: nat, m0: int, x: nat, y: nat)
    requires 0 < d && n == m0 * d && y <= 2 * (m0 * x) < 2 * y
    ensures y * d <= 2 * (n * x) < 2 * (y * d)
  {
    assert n * x == m0 * x * d;
    MulLe(y, 2 * (m0 * x), d);
    MulLt(m0 * x, y, d);
    Assoc(2, m0 * x, d);
  }

  lemma StickyBinade(n: nat, d: nat, m0: int, w: nat, shift: nat)
    requires 0 < d && m0 == Jam(n / d, true) && shift + 2 <= w
    requires Pow2(w) <= 2 * (m0 * Pow2(shift)) < 2 * Pow2(w)
    ensures Pow2(w) * d <= 2 * (n * Pow2(shift)) < 2 * (Pow2(w) * d)
  {
    hide Pow2, Jam;
    HalfSplit(w, shift);
    JamFloor(n, d, m0, Pow2(w - shift - 1), Pow2(shift), Pow2(w));
  }

  lemma HalfSplit(w: nat, shift: nat)
    requires shift + 2 <= w
    ensures Pow2(w) == 2 * (Pow2(w - shift - 1) * Pow2(shift)) && Pow2(w - shift - 1) % 2 == 0
  {
    hide Pow2;
    Pow2Add(w - shift - 1, shift);
    Pow2Next(w - 1);
    Pow2Next(w - shift - 2);
  }

  lemma JamFloor(n: nat, d: nat, m0: int, h: nat, x: nat, y: nat)
    requires 0 < d && m0 == Jam(n / d, true) && 0 < x && y <= 2 * (m0 * x) < 2 * y && h % 2 == 0 && y == 2 * (h * x)
    ensures y * d <= 2 * (n * x) < 2 * (y * d)
  {
    hide Jam;
    JamBetween(n / d, m0, h, x);
    FloorBinade(n, d, h, x);
    Assoc(2, h * x, d);
  }

  lemma FloorBinade(n: nat, d: nat, h: nat, x: nat)
    requires 0 < d && 0 < x && h <= n / d < 2 * h
    ensures h * x * d <= n * x < 2 * (h * x * d)
  {
    var z := n / d;
    DivMod(n, d);
    MulLe(h, z, d);
    MulLe(z + 1, 2 * h, d);
    Dist(z, 1, d);
    MulLe(h * d, n, x);
    MulLt(n, 2 * h * d, x);
    assert h * d * x == h * x * d && 2 * h * d * x == 2 * (h * x * d);
  }

  /** The integer part lies in the same binade as the number with the sticky bit. */
  lemma JamBetween(z: nat, m0: int, h: nat, x: nat)
    requires m0 == Jam(z, true) && 0 < x && 2 * (h * x) <= 2 * (m0 * x) < 4 * (h * x) && h % 2 == 0
    ensures h <= z < 2 * h
  {
    LeMul(h, m0, x);
    LtMul(m0, 2 * h, x) by { Assoc(2, h, x); }
  }

  lemma FineUnit(n: nat, d: nat, e: int, m0: int, w: nat, shift: nat, prec: nat, flags: Flags, t: int)
    requires 1 <= flags.expBits && 0 < d && t < 0 && n == m0 * d
    requires Pow2(w) <= 2 * (m0 * Pow2(shift)) < 2 * Pow2(w) && w - t == EffectivePrec(e - shift + w, prec, flags)
    ensures UnitOf(n, d, e, prec, flags, shift - t, w - t, 0)
  {
    hide Pow2, EffectivePrec;
    var m, y, j := m0 * Pow2(shift), Pow2(w), Pow2(-t);
    Pow2One();
    Pow2Add(w, -t);
    Rescaled(n, d, m0, shift, -t);
    MulLe(y, 2 * m, j);
    MulLt(m, y, j);
    Assoc(2, m, j);
    MulLe(y * j, 2 * (m * j), d);
    MulLt(m * j, y * j, d);
    Assoc(2, m * j, d);
  }

  lemma RoundsSame(mode: RndMode, neg: bool, n: nat, d: nat, m0: int, shift: nat, t: nat)
    requires 0 < d && m0 == Jam(n / d, n % d != 0) && (n % d == 0 ==> n == n / d * d) && (n % d != 0 ==> shift + 2 <= t)
    ensures 0 < Pow2(t) && 0 < d * Pow2(t)
    ensures Round(mode, neg, m0 * Pow2(shift), Pow2(t)) == Round(mode, neg, n * Pow2(shift), d * Pow2(t))
    ensures FracAt(m0 * Pow2(shift), Pow2(t)) == FracAt(n * Pow2(shift), d * Pow2(t))
  {
    hide Pow2, Round, FracAt;
    MulLt(0, Pow2(t), d);
    if n % d == 0 {
      JamExact0(n / d);
      SameExact(mode, neg, m0, d, Pow2(shift), Pow2(t));
    } else {
      FourBelow(t, shift);
      SameSticky(mode, neg, n, d, m0, Pow2(shift), Pow2(t - shift));
    }
  }

  lemma FourBelow(t: nat, shift: nat)
    requires shift + 2 <= t
    ensures Pow2(t) == Pow2(t - shift) * Pow2(shift) && Pow2(t - shift) % 4 == 0
  {
    hide Pow2;
    Pow2Add(t - shift, shift);
    Pow2Add(t - shift - 2, 2);
    Pow2Two();
  }

  lemma JamExact0(m: int)
    ensures Jam(m, false) == m
  {
  }

  lemma SameExact(mode: RndMode, neg: bool, m: nat, d: nat, x: nat, y: nat)
    requires 0 < d && 0 < y
    ensures 0 < d * y && Round(mode, neg, m * x, y) == Round(mode, neg, m * d * x, d * y) && FracAt(m * x, y) == FracAt(m * d * x, d * y)
  {
    hide Round, FracAt;
    RoundScales(mode, neg, m * x, y, d);
    assert m * x * d == m * d * x;
  }

  lemma SameSticky(mode: RndMode, neg: bool, n: nat, d: nat, m0: nat, x: nat, u: nat)
    requires 0 < d && 0 < x && 0 < u && u % 4 == 0 && m0 == Jam(n / d, n % d != 0)
    ensures 0 < u * x && 0 < d * (u * x)
    ensures Round(mode, neg, m0 * x, u * x) == Round(mode, neg, n * x, d * (u * x)) && FracAt(m0 * x, u * x) == FracAt(n * x, d * (u * x))
  {
    hide Round, FracAt;
    StickyRound(mode, neg, n, d, u);
    RoundScales(mode, neg, m0, u, x);
    RoundScales(mode, neg, n, d * u, x);
    Assoc(d, u, x);
  }

  lemma Pow2Two()
    ensures Pow2(2) == 4
  {
    assert Pow2(1) == 2 * Pow2(0) == 2;
  }

  /** Rounding at bit t; at bit 0 there is nothing to round. */
  lemma UnitRound(mode: RndMode, neg: bool, m: nat, t: nat)
    requires mode != RNDF
    ensures RoundedAt(mode, neg, m, t) == Round(mode, neg, m, Pow2(t)) * Pow2(t)
    ensures InexactAt(mode, m, t) <==> FracAt(m, Pow2(t)) != Exact
  {
    Pow2One();
    if t == 0 { QuotientIs(m, 1, m, 0); }
  }

  lemma ExactRound(mode: RndMode, neg: bool, m: nat, d: nat)
    requires 0 < d
    ensures d * Pow2(0) == d && Round(mode, neg, m * d, d * Pow2(0)) * Pow2(0) == m && FracAt(m * d, d * Pow2(0)) == Exact
  {
    Pow2One();
    QuotientIs(m * d, d, m, 0);
  }

  lemma Rescaled(n: nat, d: nat, m0: int, shift: nat, j: nat)
    requires n == m0 * d
    ensures n * Pow2(shift + j) == m0 * Pow2(shift) * Pow2(j) * d
  {
    hide Pow2;
    Pow2Add(shift, j);
    var x, y := Pow2(shift), Pow2(j);
    assert m0 * d * (x * y) == m0 * x * y * d;
  }

  lemma HoldsFiner(r: Bf, x: int, e: int, j: nat)
    requires r.Holds(x, e)
    ensures r.Holds(x * Pow2(j), e - j)
  {
    hide V, Pow2;
    Pow2Add(r.LowExp() - e, j);
    Assoc(r.Mant(), Pow2(r.LowExp() - e), Pow2(j));
  }

  lemma MulZero(x: int)
    ensures x * 0 == 0
  {
  }

  lemma NonZeroTop(s: seq<limb>, n: nat)
    requires 1 <= n <= |s| && s[n - 1] != 0
    ensures V(s, 0, n) != 0
  {
    VTop(s, 0, n);
    MulLe(1, s[n - 1], BP(n - 1));
  }

  /** Shift left by less than a limb, when the bits that go out at the top are zero. */
  method ShiftLeft(tab: array<limb>, l: nat, shift: nat)
    requires 1 <= l <= tab.Length && 1 <= shift < LIMB_BITS && HALF <= tab[l - 1] * Pow2(shift) < B
    modifies tab
    ensures V(tab[..], 0, l) == V(old(tab[..]), 0, l) * Pow2(shift) && HALF <= tab[l - 1]
  {
    hide V, BP, Pow2, Wrap;
    ghost var s := tab[..];
    var p, q := Pow2(shift), Pow2(LIMB_BITS - shift);
    LimbPow2(shift);
    var v: limb := 0;
    Empty(s, 0);
    QuotientIs(0, q, 0, 0);
    for i := 0 to l
      invariant Only(s, tab[..], 0, i) && (v == if i == 0 then 0 else s[i - 1])
      invariant V(tab[..], 0, i) + v / q * BP(i) == V(s, 0, i) * p
      invariant i == l ==> HALF <= tab[l - 1]
    {
      ghost var before, v0 := tab[..], v;
      var a := tab[i];
      assert a == s[i];
      ShiftLimbLeft(a, v, p, q);
      tab[i] := Wrap(a * p) + v / q;
      v := a;
      VNext(s, 0, i);
      Wrote(before, tab[..], 0, i);
      VNext(tab[..], 0, i);
      ShiftStep(V(s, 0, i), a, p, tab[i], v0 / q, a / q, BP(i));
      if i == l - 1 { TopShifted(a, v0, p, q); }
    }
    TopOut(s[l - 1], p, q);
  }

  lemma ShiftLimbLeft(a: limb, v: limb, p: int, q: int)
    requires 1 < p && 1 < q && p * q == B
    ensures 0 <= v / q && Wrap(a * p) + v / q < B && a * p == Wrap(a * p) + a / q * B
  {
    hide Wrap;
    DivMod(a, q);
    DivMod(v, q);
    // a * p == (a / q) * B + (a % q) * p
    Dist(a / q * q, a % q, p);
    Assoc(a / q, q, p);
    MulLe(a % q + 1, q, p);
    Dist(a % q, 1, p);
    MulLe(0, a % q, p);
    WrapPart(a / q, a % q * p);
    LtMul(v / q, p, q);
    MultipleBelow(a % q, v / q, p, q);
  }

  lemma MultipleBelow(x: int, y: int, p: int, q: int)
    requires 0 <= x < q && 0 <= y < p && p * q == B
    ensures x * p + y < B
  {
    MulLe(x + 1, q, p);
    Dist(x, 1, p);
  }

  lemma ShiftStep(v: int, a: int, p: int, d: int, c0: int, c1: int, w: int)
    requires 0 <= w
    ensures (d - c0 + c1 * B == a * p) ==> (v * p - c0 * w) + d * w + c1 * (B * w) == (v + a * w) * p
  {
    Dist(v, a * w, p);
    if d - c0 + c1 * B == a * p {
      Dist(d - c0, c1 * B, w);
      Dist(d, c0, w);
      Assoc(c1, B, w);
      assert a * p * w == a * w * p;
    }
  }

  lemma TopShifted(a: limb, v: limb, p: int, q: int)
    requires 1 < p && 1 < q && p * q == B && HALF <= a * p < B
    ensures HALF <= Wrap(a * p) + v / q
  {
    DivMod(v, q);
  }

  lemma TopOut(a: limb, p: int, q: int)
    requires 1 < p && 1 < q && p * q == B && a * p < B
    ensures a / q == 0 && a / q * BP(0) == 0
  {
    LtMul(a, q, p);
    QuotientIs(a, q, 0, a);
  }

  lemma TopBound(t: seq<limb>, o: nat, n: nat)
    requires 1 <= n && o + n <= |t| && HALF <= t[o + n - 1]
    ensures HALF * BP(n - 1) <= V(t, o, n) < BP(n) && BP(n) == B * BP(n - 1)
  {
    VTop(t, o, n);
    VBound(t, o, n);
    MulLe(HALF, t[o + n - 1], BP(n - 1));
  }

  lemma TopFrom(t: seq<limb>, o: nat, n: nat)
    requires 1 <= n && o + n <= |t| && HALF * BP(n - 1) <= V(t, o, n)
    ensures HALF <= t[o + n - 1]
  {
    VTop(t, o, n);
    Dist(t[o + n - 1], 1, BP(n - 1));
    if t[o + n - 1] < HALF { MulLe(t[o + n - 1] as int + 1, HALF, BP(n - 1)); }
  }

  /** Half of a power of B is a multiple of a bit of the lowest limb. */
  lemma LimbsMultiple(n: nat, s: nat)
    requires 1 <= n && s < LIMB_BITS
    ensures HALF * BP(n - 1) == Pow2(LIMB_BITS - s - 1) * BP(n - 1) * Pow2(s)
  {
    hide BP, Pow2;
    LimbHalves(s);
    assert Pow2(LIMB_BITS - s - 1) * BP(n - 1) * Pow2(s) == Pow2(s) * Pow2(LIMB_BITS - s - 1) * BP(n - 1);
  }

  lemma AddKept(h: nat, p: nat, x: nat)
    requires 0 < p
    ensures x * ((h + p) / p * p) == x * (h / p * p) + x * p
  {
    DivMod(h, p);
    Dist(h / p, 1, p);
    QuotientIs(h + p, p, h / p + 1, h % p);
    DistL(x, h / p * p, p);
  }

  lemma KeptBelow(h: nat, p: nat, x: nat, y: nat)
    requires h < y && 0 < p && 0 < x
    ensures x * (h / p * p) < x * y
  {
    DivMod(h, p);
    MulLt(h / p * p, y, x);
  }

  /** When the addition carries out, the kept bits are all ones before and only the top bit after. */
  lemma CarriedBits(h: nat, h1: nat, h2: nat, r: nat, p: nat, n: nat, pos: nat)
    requires 1 <= n && 0 < p && h < BP(n) && h1 + BP(n) == h + p && h2 * 2 + r == h1 + 1 % 2 * BP(n) && r < 2
    requires BP(n) == B * BP(n - 1) && exists z: nat :: HALF * BP(n - 1) == z * p
    ensures HALF * BP(n - 1) <= h2
    ensures BP(pos) * (h / p * p) + BP(pos) * p == BP(pos) * BP(n) && 2 * (BP(pos) * (h2 / p * p)) == BP(pos) * BP(n)
  {
    hide BP;
    var z: nat :| HALF * BP(n - 1) == z * p;
    Assoc(2, z, p);
    Dist(2 * z, 1, p);
    QuotientIs(h, p, 2 * z - 1, h - (2 * z - 1) * p);
    QuotientIs(h2, p, z, h2 - z * p);
    DistL(BP(pos), h / p * p, p);
    Assoc(2, BP(pos), z * p);
  }

  /** The rounded number, as its kept bits and one more unit or not. */
  lemma RoundedIs(mode: RndMode, neg: bool, m: nat, t: int, addOne: bool)
    requires 0 < t ==> (addOne <==> Addend(mode, neg, (m / Pow2(t)) % 2 != 0, FracOf(m % Pow2(t), Pow2(t))))
    requires t <= 0 ==> !addOne
    ensures RoundedAt(mode, neg, m, t) == KeptBits(m, t) + if addOne then Pow2(t) else 0
  {
    hide Pow2, Addend, FracOf;
    if 0 < t { Dist(m / Pow2(t), 1, Pow2(t)); }
  }

  /** With no bits to keep the number rounds to zero or to one unit. */
  lemma TinyValue(m: nat, l: nat, prec: int, tab: seq<limb>)
    requires prec <= 0 && l <= |tab| && m == V(tab, 0, l)
    ensures 0 < Pow2(LIMB_BITS * l - prec) && KeptBits(m, LIMB_BITS * l - prec) == if LIMB_BITS * l - prec == 0 then m else 0
  {
    hide V, BP, Pow2;
    VBound(tab, 0, l);
    BitsOfLimbs(l);
    Pow2Up(LIMB_BITS * l, LIMB_BITS * l - prec);
    QuotientIs(m, Pow2(LIMB_BITS * l - prec), 0, m);
  }

  lemma TinyHolds(tab: seq<limb>, t: int)
    requires LIMB_BITS <= t && tab == [HALF]
    ensures V(tab, 0, 1) * Pow2(t - (LIMB_BITS - 1)) == Pow2(t)
  {
    hide V, Pow2;
    VOne(tab, 0);
    Pow2Add(LIMB_BITS - 1, t - (LIMB_BITS - 1));
    MaskFits(LIMB_BITS - 1);
    Pow2Limb();
    assert Pow2(LIMB_BITS) == 2 * Pow2(LIMB_BITS - 1) by { Pow2Next(LIMB_BITS - 1); }
  }

  lemma Pow2Next(n: nat)
    ensures Pow2(n + 1) == 2 * Pow2(n)
  {
  }

  lemma NoCarry(m: nat, l: nat, t: int, tab: seq<limb>)
    requires l <= |tab| && m == V(tab, 0, l)
    ensures KeptBits(m, t) < BP(l)
  {
    hide V, BP, Pow2;
    VBound(tab, 0, l);
    if 0 < t { DivMod(m, Pow2(t)); }
  }

  lemma KeptHolds(m: nat, len: nat, l: nat, c: nat)
    requires len <= l && c <= 1
    ensures m * Pow2(c + LIMB_BITS * (l - len)) == m * BP(l - len) * if c == 0 then 1 else 2
  {
    hide BP, Pow2;
    BitsOfLimbs(l - len);
    Pow2Add(c, LIMB_BITS * (l - len));
    Pow2One();
    assert m * (2 * BP(l - len)) == m * BP(l - len) * 2;
  }

  lemma TrimmedValue(s: seq<limb>, i0: nat, i: nat, l: nat)
    requires i0 <= i <= l <= |s| && forall k :: i0 <= k < i ==> s[k] == 0
    ensures V(s, i, l - i) * BP(i) == BP(i0) * V(s, i0, l - i0)
  {
    hide V, BP;
    VZero(s, i0, i - i0);
    VSplit(s, i0, i - i0, l - i);
    BPAdd(i0, i - i0);
    Assoc(BP(i0), BP(i - i0), V(s, i, l - i));
  }

  lemma IsMasked(s: seq<limb>, u: seq<limb>, i: nat, j: nat)
    requires i < |s| == |u| && 0 < Pow2(j) && 0 <= s[i] - s[i] % Pow2(j)
    requires if j == 0 then u == s && s[i] % Pow2(j) == 0 else u == s[i := s[i] - s[i] % Pow2(j)]
    ensures Masked(s, u, i, j)
  {
  }

  /** `m` without the bits below bit `t`. */
  function KeptBits(m: int, t: int): int {
    if t <= 0 then m else m / Pow2(t) * Pow2(t)
  }

  lemma MaskFits(low: nat)
    requires low < LIMB_BITS
    ensures 1 <= Pow2(low) <= HALF
  {
    Pow2Up(low, LIMB_BITS - 1);
    Pow2Limb();
    assert Pow2(LIMB_BITS) == 2 * Pow2(LIMB_BITS - 1);
  }

  /** A number of ones only, but for some bits at the low end. */
  lemma {:induction false} AllOnes(t: seq<limb>, l: nat, low: nat)
    requires 1 <= l <= |t| && low < LIMB_BITS && 1 <= Pow2(low) <= HALF
    requires t[0] == B - Pow2(low) && forall k :: 1 <= k < l ==> t[k] == B - 1
    ensures V(t, 0, l) == BP(l) - Pow2(low)
  {
    hide V, BP, Pow2;
    VNext(t, 0, l - 1);
    if l == 1 {
      Empty(t, 0);
    } else {
      AllOnes(t, l - 1, low);
      Dist(B, 1, BP(l - 1));
    }
  }

  ghost predicate Masked(s: seq<limb>, u: seq<limb>, i: nat, j: nat) {
    i < |s| == |u| && 0 < Pow2(j) && 0 <= s[i] - s[i] % Pow2(j) && u == s[i := s[i] - s[i] % Pow2(j)]
  }

  /** What the mask keeps; the limbs below `i` no longer count. */
  lemma MaskedValue(s: seq<limb>, u: seq<limb>, l: nat, t: int, i: nat)
    requires 1 <= l <= |s| == |u| && t < LIMB_BITS * l && HALF <= s[l - 1]
    requires i == if t < 0 then 0 else t / LIMB_BITS
    requires 0 < Pow2(t % LIMB_BITS) && if t < 0 then u == s else i < l && Masked(s, u, i, t % LIMB_BITS)
    ensures BP(i) * V(u, i, l - i) == KeptBits(V(s, 0, l), t) && HALF <= u[l - 1]
  {
    hide V, BP, Pow2, Masked;
    if t < 0 {
      BPSmall();
    } else {
      MaskFits(t % LIMB_BITS);
      HighMasked(s, u, i, l - i, t % LIMB_BITS);
      KeptAt(s, l, t, i);
    }
  }

  lemma KeptAt(s: seq<limb>, l: nat, t: nat, i: nat)
    requires i < l <= |s| && i == t / LIMB_BITS
    ensures 0 < Pow2(t % LIMB_BITS) && KeptBits(V(s, 0, l), t) == BP(i) * (V(s, i, l - i) / Pow2(t % LIMB_BITS) * Pow2(t % LIMB_BITS))
  {
    hide V, BP, Pow2;
    BitPlace(t, i, t % LIMB_BITS);
    HighLimbs(s, 0, i, l);
    HighPart(V(s, 0, l), BP(i), Pow2(t % LIMB_BITS), V(s, i, l - i));
    if t == 0 { MaskNothing(V(s, 0, l)); }
  }

  lemma HighPart(m: nat, x: nat, p: nat, h: int)
    requires 0 < x && 0 < p && h == m / x
    ensures 0 < x * p && x * (h / p * p) == m / (x * p) * (x * p)
  {
    DivTwice(m, x, p);
    assert x * (h / p * p) == h / p * (x * p);
  }

  /** The limbs from `i` on after the mask. */
  lemma HighMasked(s: seq<limb>, u: seq<limb>, i: nat, n: nat, j: nat)
    requires 1 <= n && i + n <= |s| == |u| && j < LIMB_BITS && 1 <= Pow2(j) && HALF <= s[i + n - 1]
    requires Masked(s, u, i, j)
    ensures V(u, i, n) == V(s, i, n) / Pow2(j) * Pow2(j) && HALF <= u[i + n - 1]
  {
    hide V, BP, Pow2;
    OnlyOne(s, u, i);
    VLow(s, i, n - 1);
    VLow(u, i, n - 1);
    VOnly(s, u, i + 1, n - 1, i, 1);
    MaskLow(s[i], V(s, i + 1, n - 1), j);
    if n == 1 { TopKept(s[i], j); }
  }

  lemma Pow2Positive(n: nat)
    ensures 0 < Pow2(n)
  {
  }

  lemma MaskNothing(m: int)
    ensures m / Pow2(0) * Pow2(0) == m
  {
    Pow2One();
  }

  lemma MaskLow(d: limb, high: nat, s: nat)
    requires s < LIMB_BITS
    ensures 0 < Pow2(s) && (d - d % Pow2(s)) + B * high == (d + B * high) / Pow2(s) * Pow2(s)
  {
    hide Pow2;
    if s == 0 {
      Pow2One();
    } else {
      LowMod(d, high, s);
      DivMod(d + B * high, Pow2(s));
    }
  }

  lemma TopKept(d: limb, s: nat)
    requires HALF <= d && s < LIMB_BITS
    ensures HALF <= d - d % Pow2(s)
  {
    hide Pow2;
    var p, h := Pow2(s), Pow2(LIMB_BITS - s - 1);
    LimbHalves(s);
    DivMod(d, p);
    if d / p < h { MulLe(d / p + 1, h, p); Dist(d / p, 1, p); }
    MulLe(h, d / p, p);
  }

  lemma MaskLimb(t: seq<limb>, i: nat, l: nat, shift: nat)
    requires i < l <= |t| && shift < LIMB_BITS
    ensures 0 < Pow2(shift) && 0 <= t[i] - t[i] % Pow2(shift) < B
    ensures shift == 0 ==> t[i] % Pow2(shift) == 0
  {
    hide Pow2;
    Pow2One();
    ModAtMost(t[i], Pow2(shift));
  }

  lemma ModAtMost(d: nat, p: nat)
    requires 0 < p
    ensures 0 <= d % p <= d && (p == 1 ==> d % p == 0)
  {
    DivMod(d, p);
    MulLe(0, d / p, p);
  }
}