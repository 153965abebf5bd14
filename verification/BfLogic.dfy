/**
 bf_logic_op: bitwise operations on integers of any size, kept as sign and magnitude.
 */
module BfLogic {
  import opened Limbs
  import opened MpBase
  import opened Udiv
  import opened Rounding
  import opened BfBits
  import opened BfFloat
  import opened BfDivide
  import opened BfAddition

  datatype LogicOp = OR | XOR | AND

  predicate OnBits(op: LogicOp, a: bool, b: bool) {
    match op
    case OR => a || b
    case XOR => a != b
    case AND => a && b
  }

  // ---------------------------------------------------------------- two's complement

  /** The operation on integers, as infinite rows of bits in two's complement. */
  function Bitwise(op: LogicOp, x: int, y: int): int
    decreases Abs(x) + Abs(y)
  {
    if -1 <= x <= 0 && -1 <= y <= 0 then (if OnBits(op, x == -1, y == -1) then -1 else 0)
    else 2 * Bitwise(op, x / 2, y / 2) + if OnBits(op, x % 2 == 1, y % 2 == 1) then 1 else 0
  }

  /** Bit i of an integer in two's complement. */
  ghost predicate BitAt(x: int, i: nat) {
    x / Pow2(i) % 2 == 1
  }

  lemma Halving(op: LogicOp, x: int, y: int)
    ensures Bitwise(op, x, y) == 2 * Bitwise(op, x / 2, y / 2) + if OnBits(op, x % 2 == 1, y % 2 == 1) then 1 else 0
  {
  }

  lemma BitAtNext(x: int, i: nat)
    ensures BitAt(x, i + 1) == BitAt(x / 2, i) && BitAt(x, 0) == (x % 2 == 1)
  {
    hide Pow2;
    Pow2Add(1, i);
    Pow2One();
    FloorTwice(x, 2, Pow2(i));
    DivOne(x);
  }

  /** Dividing twice, for negative numbers too. */
  lemma FloorTwice(x: int, a: nat, b: nat)
    requires 0 < a && 0 < b
    ensures 0 < a * b && x / (a * b) == x / a / b
  {
    var q, r := x / a, x % a;
    DivModAny(x, a);
    DivModAny(q, b);
    MulLt(0, a, b);
    Dist(q / b * b, q % b, a);
    Assoc(q / b, b, a);
    MulLe(q % b + 1, b, a);
    Dist(q % b, 1, a);
    MulLe(0, q % b, a);
    QuotientIs(x, a * b, q / b, a * (q % b) + r);
  }

  /** Every operation acts on every bit. */
  lemma BitwiseBits(x: int, y: int, i: nat)
    ensures BitAt(Bitwise(OR, x, y), i) <==> BitAt(x, i) || BitAt(y, i)
    ensures BitAt(Bitwise(XOR, x, y), i) <==> BitAt(x, i) != BitAt(y, i)
    ensures BitAt(Bitwise(AND, x, y), i) <==> BitAt(x, i) && BitAt(y, i)
  {
    hide BitAt, Bitwise;
    OnEveryBit(OR, x, y, i);
    OnEveryBit(XOR, x, y, i);
    OnEveryBit(AND, x, y, i);
  }

  /** The operations and the sum: `or` counts common bits once, `xor` not at all. */
  lemma {:induction false} BitwiseSums(x: int, y: int)
    ensures Bitwise(OR, x, y) + Bitwise(AND, x, y) == x + y
    ensures Bitwise(XOR, x, y) == Bitwise(OR, x, y) - Bitwise(AND, x, y)
    decreases Abs(x) + Abs(y)
  {
    if !(-1 <= x <= 0 && -1 <= y <= 0) {
      hide Bitwise;
      BitwiseSums(x / 2, y / 2);
      Halving(OR, x, y);
      Halving(XOR, x, y);
      Halving(AND, x, y);
    }
  }

  lemma {:induction false} OnEveryBit(op: LogicOp, x: int, y: int, i: nat)
    ensures BitAt(Bitwise(op, x, y), i) == OnBits(op, BitAt(x, i), BitAt(y, i))
    decreases i
  {
    hide BitAt, Bitwise, OnBits;
    Halving(op, x, y);
    BitAtNext(Bitwise(op, x, y), 0);
    BitAtNext(x, 0);
    BitAtNext(y, 0);
    if i != 0 {
      BitAtNext(Bitwise(op, x, y), i - 1);
      BitAtNext(x, i - 1);
      BitAtNext(y, i - 1);
      OnEveryBit(op, x / 2, y / 2, i - 1);
    }
  }

  /** The bits determine the integer. */
  lemma {:induction false} BitsDetermine(x: int, y: int)
    requires forall i: nat :: BitAt(x, i) == BitAt(y, i)
    ensures x == y
    decreases Abs(x) + Abs(y)
  {
    hide BitAt;
    BitAtNext(x, 0);
    BitAtNext(y, 0);
    if !(-1 <= x <= 0 && -1 <= y <= 0) {
      forall i: nat ensures BitAt(x / 2, i) == BitAt(y / 2, i) {
        BitAtNext(x, i);
        BitAtNext(y, i);
      }
      BitsDetermine(x / 2, y / 2);
    }
  }

  /** The low n bits and the rest can be taken apart. */
  lemma {:induction false} BitwiseSplit(op: LogicOp, x: int, y: int, n: nat)
    ensures var p := Pow2(n);
      Bitwise(op, x, y) == Bitwise(op, x % p, y % p) + p * Bitwise(op, x / p, y / p)
      && 0 <= Bitwise(op, x % p, y % p) < p
    decreases n
  {
    if n == 0 {
      DivOne(x);
      DivOne(y);
    } else {
      hide Pow2, Bitwise, OnBits;
      var q := Pow2(n - 1);
      Pow2Add(1, n - 1);
      Pow2One();
      BitwiseSplit(op, x / 2, y / 2, n - 1);
      LowHalf(x, q);
      LowHalf(y, q);
      Halving(op, x, y);
      Halving(op, x % (2 * q), y % (2 * q));
      Assoc(2, q, Bitwise(op, x / 2 / q, y / 2 / q));
    }
  }

  lemma LowHalf(x: int, q: nat)
    requires 0 < q
    ensures x / (2 * q) == x / 2 / q && x % (2 * q) / 2 == x / 2 % q && x % (2 * q) % 2 == x % 2
  {
    FloorTwice(x, 2, q);
    DivModAny(x / 2, q);
    DivModAny(x, 2 * q);
    var h := x / 2 / q;
    assert h * (2 * q) == 2 * (h * q);
  }

  /** Nothing is left of an operand of `and` beside zero. */
  lemma {:induction false} AndZero(x: int)
    ensures Bitwise(AND, x, 0) == 0 && Bitwise(AND, 0, x) == 0
    decreases Abs(x)
  {
    if x < -1 || 0 < x { AndZero(x / 2); }
  }

  // ---------------------------------------------------------------- limbs

  /** Limb k of an integer in two's complement. */
  ghost function TwosLimb(x: int, k: nat): (d: int)
    ensures 0 <= d < B
  {
    x / BP(k) % B
  }

  /** bf_logic_op1 on limbs */
  function LimbOp(op: LogicOp, a: limb, b: limb): (r: limb) {
    LimbOpFits(op, a, b);
    Bitwise(op, a, b)
  }

  lemma LimbOpFits(op: LogicOp, a: limb, b: limb)
    ensures 0 <= Bitwise(op, a, b) < B
  {
    hide Bitwise;
    Pow2Limb();
    BitwiseSplit(op, a, b, LIMB_BITS);
  }

  /** All ones or all zeros. */
  function Flip(mask: bool, v: limb): limb { if mask then B - 1 - v else v }

  lemma TwosNegative(x: nat, k: nat)
    ensures TwosLimb(-(x as int) - 1, k) == B - 1 - LimbOf(x, k)
  {
    hide BP;
    var p := BP(k);
    DivModAny(x, p);
    var h := x / p;
    Dist(h, 1, p);
    Dist(0, h + 1, p);
    QuotientIs(-(x as int) - 1, p, -h - 1, p - 1 - x % p);
    DivModAny(h, B);
    QuotientIs(-h - 1, B, -(h / B) - 1, B - 1 - h % B);
  }

  /** The low i limbs of an integer, and one more. */
  lemma TwosNext(x: int, i: nat)
    ensures x % BP(i + 1) == x % BP(i) + BP(i) * TwosLimb(x, i) && 0 <= x % BP(i) < BP(i)
    ensures x % BP(i + 1) % BP(i) == x % BP(i) && x % BP(i + 1) / BP(i) == TwosLimb(x, i)
  {
    hide BP;
    VNextPower(i);
    var p := BP(i);
    FloorTwice(x, p, B);
    DivModAny(x, p);
    DivModAny(x / p, B);
    var h := x / p / B;
    Dist(h * B, x / p % B, p);
    assert h * B * p == h * (p * B);
    DivModAny(x, p * B);
    assert x % (p * B) == x % p + p * (x / p % B);
    QuotientIs(x % (p * B), p, x / p % B, x % p);
  }

  /** The operation on i + 1 limbs, from that on i limbs. */
  lemma LimbsNext(op: LogicOp, x: int, y: int, i: nat)
    ensures Bitwise(op, x % BP(i + 1), y % BP(i + 1)) ==
      Bitwise(op, x % BP(i), y % BP(i)) + BP(i) * Bitwise(op, TwosLimb(x, i), TwosLimb(y, i))
  {
    hide BP, Bitwise, TwosLimb;
    TwosNext(x, i);
    TwosNext(y, i);
    BitsOfLimbs(i);
    BitwiseSplit(op, x % BP(i + 1), y % BP(i + 1), LIMB_BITS * i);
  }

  // ---------------------------------------------------------------- integers as floating point numbers

  /** BF_PREC_INF with BF_RNDZ and the largest exponent range. */
  const EXACT := Flags(RNDZ, 29, false, false)

  /** The number is the integer `v`; a zero may have either sign. */
  ghost predicate IsInt(r: Bf, v: int)
    reads r, r.tab
  {
    if v == 0 then r.IsZero()
    else r.Finite() && r.sign == (v < 0) && IsMagnitude(r.Mant(), r.LowExp(), Abs(v))
  }

  ghost predicate IsMagnitude(m: nat, e: int, v: nat) {
    if 0 <= e then m * Pow2(e) == v else m == v * Pow2(-e)
  }

  /** The exponent of an integer is its number of bits. */
  lemma ExponentOfInt(r: Bf, v: int)
    requires IsInt(r, v) && v != 0
    ensures 1 <= r.expn && Pow2(r.expn) <= 2 * Abs(v) < 2 * Pow2(r.expn)
  {
    hide Pow2, V, BP;
    var n, e, m := r.tab.Length, r.LowExp(), r.Mant();
    TopBound(r.tab[..], 0, n);
    BitsOfLimbs(n);
    if 0 <= e {
      Pow2Add(LIMB_BITS * n, e);
      MulLe(Pow2(LIMB_BITS * n), 2 * m, Pow2(e));
      MulLt(m, Pow2(LIMB_BITS * n), Pow2(e));
      Assoc(2, m, Pow2(e));
    } else {
      BelowPoint(Abs(v), n, -e, r.expn);
    }
  }

  lemma BelowPoint(v: nat, n: nat, f: nat, expn: int)
    requires 0 < v && 0 < f && expn == LIMB_BITS * n - f && Pow2(LIMB_BITS * n) <= 2 * (v * Pow2(f)) && v * Pow2(f) < Pow2(LIMB_BITS * n)
    ensures 1 <= expn && Pow2(expn) <= 2 * v < 2 * Pow2(expn)
  {
    hide Pow2;
    if expn <= 0 {
      Pow2Up(LIMB_BITS * n, f);
      MulLe(1, v, Pow2(f));
    }
    Pow2Add(expn, f);
    Assoc(2, v, Pow2(f));
    LeMul(Pow2(expn), 2 * v, Pow2(f));
    LtMul(v, Pow2(expn), Pow2(f));
  }

  /** A limb of a magnitude, as get_bits finds it. */
  lemma LimbOfInt(r: Bf, x: int, k: nat)
    requires IsInt(r, x)
    ensures GetBits(r.tab[..], LIMB_BITS * k - r.LowExp()) == LimbOf(Abs(x), k)
  {
    hide Pow2, V, BP, GetBits;
    var t, e, v := r.tab[..], r.LowExp(), Abs(x);
    var pos := LIMB_BITS * k - e;
    GetBitsIs(t, pos);
    BitsOfLimbs(k);
    if v == 0 {
      Empty(t, 0);
      QuotientIs(0, Pow2(pos), 0, 0);
      QuotientIs(0, BP(k), 0, 0);
    } else if e <= 0 {
      // v * 2^-e, cut at bit 32k - e
      if e == 0 { Pow2One(); }
      Pow2Add(-e, LIMB_BITS * k);
      DivTwice(v * Pow2(-e), Pow2(-e), BP(k));
      QuotientIs(v * Pow2(-e), Pow2(-e), v, 0);
    } else if 0 <= pos {
      Pow2Add(e, pos);
      DivTwice(v, Pow2(e), Pow2(pos));
      QuotientIs(v, Pow2(e), r.Mant(), 0);
    } else {
      Pow2Add(-pos, LIMB_BITS * k);
      Assoc(r.Mant(), Pow2(-pos), BP(k));
      QuotientIs(v, BP(k), r.Mant() * Pow2(-pos), 0);
    }
  }

  /** An exact integer below 2^EMax is not changed by the rounding; one that is not smaller overflows. */
  lemma IntegerResult(r: Bf, neg: bool, n: nat, e: int, v: nat, emax: nat, st: Status)
    requires r.CorrectResult(neg, n, 1, e, PREC_INF, EXACT, st) && 0 < v && e <= 0 && n == v * Pow2(-e) && emax == EXACT.EMax()
    ensures v < Pow2(emax) ==> IsInt(r, Signed(neg, v)) && st == OK
    ensures Pow2(emax) <= v ==> st.overflow
  {
    hide Pow2, Bf.ResultIs, Round, FracAt, UnitOf;
    ExponentRange(emax);
    var k: nat, w: nat, t: nat :| r.CorrectAt(neg, n, 1, e, PREC_INF, EXACT, st, k, w, t);
    var x := Round(RNDZ, neg, n * Pow2(k), 1 * Pow2(t)) * Pow2(t);
    UnitOfInt(n, e, v, k, w, t);
    Pow2Add(-e, k);
    Assoc(v, Pow2(-e), Pow2(k));
    var c: nat := k - e;
    assert n * Pow2(k) == v * Pow2(c);
    if v < Pow2(emax) {
      SmallInt(v, emax, c, w, t);
      ExactMultiple(neg, v, c, t);
      ResultOfInt(r, neg, v * Pow2(c), w, e - k, emax, st);
      HeldInt(r, neg, v, c);
    } else {
      LargeInt(v, emax, c, w);
      Overflows(r, neg, x, w, e - k, FracAt(n * Pow2(k), 1 * Pow2(t)) != Exact, emax, st);
    }
  }

  lemma ExponentRange(emax: int)
    requires emax == EXACT.EMax()
    ensures emax == 0x1000_0000 && EXACT.EMin() == 3 - emax && emax < PREC_INF
  {
    hide Pow2;
    Pow2Small();
    Pow2Add(8, 8);
    Pow2Add(16, 8);
    Pow2Add(2, 2);
    Pow2Add(1, 1);
    Pow2One();
    Pow2Add(24, 4);
  }

  lemma UnitOfInt(n: nat, e: int, v: nat, k: nat, w: nat, t: nat)
    requires UnitOf(n, 1, e, PREC_INF, EXACT, k, w, t)
    ensures Pow2(w) <= 2 * (n * Pow2(k)) < 2 * Pow2(w) && w - t == PREC_INF && 0 < 1 * Pow2(t) == Pow2(t)
  {
    hide Pow2;
  }

  lemma SmallInt(v: nat, emax: nat, c: nat, w: nat, t: nat)
    requires 0 < v < Pow2(emax) && Pow2(w) <= 2 * (v * Pow2(c)) < 2 * Pow2(w) && w - t == PREC_INF && emax < PREC_INF
    ensures t <= c < w <= emax + c
  {
    hide Pow2;
    MulLt(v, Pow2(emax), Pow2(c));
    Pow2Add(emax, c);
    Pow2Add(1, emax + c);
    Pow2One();
    if emax + c < w { Pow2Up(emax + c + 1, w); }
    MulLe(1, v, Pow2(c));
    if w <= c { Pow2Up(w, c); }
  }

  lemma LargeInt(v: nat, emax: nat, c: nat, w: nat)
    requires Pow2(emax) <= v && v * Pow2(c) < Pow2(w)
    ensures emax + c < w
  {
    hide Pow2;
    MulLe(Pow2(emax), v, Pow2(c));
    Pow2Add(emax, c);
    if w <= emax + c { Pow2Up(w, emax + c); }
  }

  lemma ExactMultiple(neg: bool, v: nat, c: nat, t: nat)
    requires t <= c
    ensures 0 < Pow2(t) && Round(RNDZ, neg, v * Pow2(c), Pow2(t)) * Pow2(t) == v * Pow2(c)
    ensures FracAt(v * Pow2(c), Pow2(t)) == Exact
  {
    hide Pow2;
    Pow2Add(c - t, t);
    Assoc(v, Pow2(c - t), Pow2(t));
    QuotientIs(v * Pow2(c), Pow2(t), v * Pow2(c - t), 0);
  }

  lemma ResultOfInt(r: Bf, neg: bool, x: nat, w: nat, low: int, emax: nat, st: Status)
    requires r.ResultIs(neg, x, w, PREC_INF, low, false, PREC_INF, EXACT, st) && x < Pow2(w) && 1 <= low + w <= emax
    requires emax == EXACT.EMax()
    ensures r.Holds(x, low) && r.sign == neg && st == OK
  {
    hide Pow2, Bf.Holds;
    ExponentRange(emax);
  }

  lemma Overflows(r: Bf, neg: bool, x: int, w: nat, low: int, inexact: bool, emax: nat, st: Status)
    requires r.ResultIs(neg, x, w, PREC_INF, low, inexact, PREC_INF, EXACT, st) && emax < low + w && emax == EXACT.EMax()
    ensures st.overflow
  {
    hide Pow2, Bf.Holds, Bf.Overflowed;
    ExponentRange(emax);
  }

  lemma HeldInt(r: Bf, neg: bool, v: nat, c: nat)
    requires r.Holds(v * Pow2(c), -(c as int)) && r.sign == neg && 0 < v
    ensures IsInt(r, Signed(neg, v))
  {
    hide Pow2, V, BP;
    var m, e := r.Mant(), r.LowExp();
    if 0 <= e {
      Pow2Add(e, c);
      Assoc(m, Pow2(e), Pow2(c));
      SameFactor(m * Pow2(e), v, Pow2(c));
    } else {
      Pow2Add(-e, e + c);
      Assoc(v, Pow2(-e), Pow2(e + c));
      SameFactor(m, v * Pow2(-e), Pow2(e + c));
    }
  }

  lemma SameFactor(x: int, y: int, p: int)
    requires 0 < p && x * p == y * p
    ensures x == y
  {
    LeMul(x, y, p);
    LeMul(y, x, p);
  }

  // ---------------------------------------------------------------- adding one

  /** The integer as a magnitude in units of 2^e. */
  lemma UnitsOfInt(r: Bf, v: int, e: int)
    requires IsInt(r, v) && v != 0 && e <= 0 && e <= r.LowExp()
    ensures Signed(r.sign, InUnits(r.Mant(), r.LowExp(), e)) == v * Pow2(-e)
  {
    hide Pow2, V, BP;
    var l := r.LowExp();
    if 0 <= l {
      Pow2Add(l, -e);
      Assoc(r.Mant(), Pow2(l), Pow2(-e));
    } else {
      Pow2Add(-l, l - e);
      Assoc(Abs(v), Pow2(-l), Pow2(l - e));
    }
  }

  /** bf_set_si for 1 and -1 */
  method SetOne(r: Bf, neg: bool)
    modifies r
    ensures fresh(r.tab) && IsInt(r, if neg then -1 else 1) && r.LowExp() == -31
  {
    hide Pow2;
    r.sign := neg;
    r.expn := 1;
    r.tab := new limb[1](_ => HALF);
    VOne(r.tab[..], 0);
    LimbHalves(31);
    Pow2One();
  }

  /** bf_add_si for 1 and -1, without rounding */
  method AddUnit(r: Bf, a: Bf, neg: bool, ghost x: int, ghost emax: nat) returns (st: Status)
    requires IsInt(a, x) && r != a && emax == EXACT.EMax() && Abs(x) < Pow2(emax)
    modifies r
    ensures unchanged(a)
    ensures var v := x + (if neg then -1 else 1);
      if Abs(v) < Pow2(emax) then IsInt(r, v) && st == OK else st.overflow
  {
    hide Pow2, V, BP, IsInt, SumResult;
    var b := new Bf();
    SetOne(b, neg);
    IntIsRegular(a, x, emax);
    OneIsSmall(emax);
    IntIsRegular(b, if neg then -1 else 1, emax);
    st := BfAddInternal(r, a, b, PREC_INF, EXACT, false);
    SumOfInts(r, a, b, x, if neg then -1 else 1, emax, st);
  }

  lemma OneIsSmall(emax: nat)
    requires emax == EXACT.EMax()
    ensures 1 < Pow2(emax)
  {
    hide Pow2;
    ExponentRange(emax);
    Pow2One();
    Pow2Up(1, emax);
  }

  lemma IntIsRegular(a: Bf, x: int, emax: nat)
    requires IsInt(a, x) && emax == EXACT.EMax() && Abs(x) < Pow2(emax)
    ensures Regular(a) && a.expn <= emax
    ensures 1 <= PREC_INF && 1 <= EXACT.expBits && !EXACT.radPnt && EXACT.mode != RNDF
  {
    hide Pow2, V, BP;
    ExponentRange(emax);
    if x != 0 {
      ExponentOfInt(a, x);
      if emax < a.expn { Pow2Up(emax + 1, a.expn); Pow2Add(1, emax); Pow2One(); }
    }
  }

  lemma SumOfInts(r: Bf, a: Bf, b: Bf, x: int, y: int, emax: nat, st: Status)
    requires IsInt(a, x) && IsInt(b, y) && Abs(y) == 1 && emax == EXACT.EMax() && Abs(x) < Pow2(emax) && b.LowExp() == -31
    requires SumResult(r, a, b, false, PREC_INF, EXACT, st)
    ensures if Abs(x + y) < Pow2(emax) then IsInt(r, x + y) && st == OK else st.overflow
  {
    hide Pow2, V, BP, Bf.CorrectResult;
    if x == 0 {
      IntegerResult(r, b.sign, b.Mant(), b.LowExp(), 1, emax, st);
    } else {
      var e := MinInt(a.LowExp(), b.LowExp());
      UnitsOfInt(a, x, e);
      UnitsOfInt(b, y, e);
      Dist(x, y, Pow2(-e));
      var s := ExactSum(a, b, false);
      assert s == (x + y) * Pow2(-e);
      SignOfProduct(x + y, Pow2(-e));
      if x + y != 0 {
        IntegerResult(r, s < 0, Abs(s), e, Abs(x + y), emax, st);
      }
    }
  }

  lemma SignOfProduct(v: int, p: nat)
    requires 0 < p
    ensures (v * p < 0 <==> v < 0) && (v * p == 0 <==> v == 0) && Abs(v * p) == Abs(v) * p
  {
    if v < 0 { MulLe(v, -1, p); } else if 0 < v { MulLe(1, v, p); }
  }

  // ---------------------------------------------------------------- bf_logic_op

  /** The number of limbs that the operation looks at; for `and` no more than can be set. */
  function LogicLen(op: LogicOp, aSign: bool, bSign: bool, aExpn: int, bExpn: int): (l: nat)
    ensures 1 <= l
  {
    var bits :=
      if op == AND && !OnBits(op, aSign, bSign) then
        if !aSign && !bSign then MinInt(aExpn, bExpn) else if !aSign then aExpn else bExpn
      else if aExpn < bExpn then bExpn else aExpn;
    ((if bits < 1 then 1 else bits) + LIMB_BITS - 1) / LIMB_BITS
  }

  /** The number whose magnitude bf_logic_op reads: the complement of a negative operand, negated. */
  function Operand(x: int): int { if x < 0 then x + 1 else x }

  lemma SignIs(a: Bf, x: int)
    requires IsInt(a, x)
    ensures a.expn > 0 && a.sign <==> x < 0
  {
    hide Pow2, V, BP;
    if x != 0 { ExponentOfInt(a, x); }
  }

  /** Limb k of an integer, from the magnitude of the operand. */
  lemma LimbOfOperand(a: Bf, x: int, k: nat)
    requires IsInt(a, Operand(x))
    ensures Flip(x < 0, GetBits(a.tab[..], a.tab.Length * LIMB_BITS - a.expn + k * LIMB_BITS)) == TwosLimb(x, k)
  {
    hide Pow2, V, BP, GetBits, IsInt;
    LimbOfInt(a, Operand(x), k);
    if x < 0 { TwosNegative(-x - 1, k); }
  }

  /** The operand as bf_logic_op reads it: itself, or a new number that is one larger. */
  method MakeOperand(a1: Bf, aSign: bool, ghost x: int, ghost emax: nat) returns (a: Bf)
    requires IsInt(a1, x) && aSign == (x < 0) && emax == EXACT.EMax() && Abs(x) < Pow2(emax)
    ensures IsInt(a, Operand(x)) && (a == a1 || fresh(a))
  {
    hide Pow2, IsInt;
    if aSign {
      a := new Bf();
      var st := AddUnit(a, a1, false, x, emax);
    } else {
      a := a1;
    }
  }

  /** The loop of bf_logic_op. */
  method LogicLimbs(a: Bf, b: Bf, op: LogicOp, aSign: bool, bSign: bool, rSign: bool, l: nat, ghost x: int, ghost y: int)
    returns (t: array<limb>)
    requires IsInt(a, Operand(x)) && IsInt(b, Operand(y)) && aSign == (x < 0) && bSign == (y < 0)
    ensures fresh(t) && t.Length == l
    ensures V(t[..], 0, l) == (var w := Bitwise(op, x % BP(l), y % BP(l)); if rSign then BP(l) - 1 - w else w)
  {
    hide Pow2, V, BP, IsInt, Bitwise, OnBits, TwosLimb, GetBits, Operand, Flip;
    t := new limb[l];
    var aBitOffset := a.tab.Length * LIMB_BITS - a.expn;
    var bBitOffset := b.tab.Length * LIMB_BITS - b.expn;
    Empty(t[..], 0);
    NoLimbs(op, x, y);
    for i := 0 to l
      invariant V(t[..], 0, i) == (var w := Bitwise(op, x % BP(i), y % BP(i)); if rSign then BP(i) - 1 - w else w)
    {
      ghost var before := t[..];
      var d := LogicLimb(a, b, op, aSign, bSign, aBitOffset + i * LIMB_BITS, bBitOffset + i * LIMB_BITS, i, x, y);
      t[i] := Flip(rSign, d);
      LimbsNext(op, x, y, i);
      Wrote(before, t[..], 0, i);
      VNextPower(i);
      FlippedDigit(rSign, d, BP(i));
    }
  }

  lemma FlippedDigit(mask: bool, d: limb, p: int)
    ensures Flip(mask, d) * p == (if mask then B * p - p - p * d else p * d)
  {
    Dist(B - 1, d, p);
    Dist(B, 1, p);
  }

  /** One limb of the result, before its sign is taken into account. */
  method LogicLimb(a: Bf, b: Bf, op: LogicOp, aSign: bool, bSign: bool, aPos: int, bPos: int, ghost k: nat, ghost x: int, ghost y: int)
    returns (d: limb)
    requires IsInt(a, Operand(x)) && IsInt(b, Operand(y)) && aSign == (x < 0) && bSign == (y < 0)
    requires aPos == a.tab.Length * LIMB_BITS - a.expn + k * LIMB_BITS && bPos == b.tab.Length * LIMB_BITS - b.expn + k * LIMB_BITS
    ensures d == Bitwise(op, TwosLimb(x, k), TwosLimb(y, k))
  {
    hide Pow2, V, BP, IsInt, Bitwise, TwosLimb, GetBits, Operand, Flip;
    LimbOfOperand(a, x, k);
    LimbOfOperand(b, y, k);
    var v1 := Flip(aSign, GetBits(a.tab[..], aPos));
    var v2 := Flip(bSign, GetBits(b.tab[..], bPos));
    d := LimbOp(op, v1, v2);
  }

  lemma NoLimbs(op: LogicOp, x: int, y: int)
    ensures BP(0) == 1 && Bitwise(op, x % BP(0), y % BP(0)) == 0
  {
    assert BP(0) == 1;
    assert x % 1 == 0 && y % 1 == 0;
  }

  /** An operand that has no bits from limb l on leaves its sign there. */
  lemma SignAbove(a: Bf, x: int, l: nat)
    requires IsInt(a, Operand(x)) && a.expn <= LIMB_BITS * l
    ensures x / BP(l) == if x < 0 then -1 else 0
  {
    hide Pow2, V, BP;
    BitsOfLimbs(l);
    var p := BP(l);
    if Operand(x) != 0 {
      ExponentOfInt(a, Operand(x));
      Pow2Up(a.expn, LIMB_BITS * l);
    }
    if x < 0 { QuotientIs(x, p, -1, x + p); } else { QuotientIs(x, p, 0, x); }
  }

  /** Beyond the limbs that are computed the result only has its sign. */
  lemma SignOfResult(op: LogicOp, a: Bf, b: Bf, x: int, y: int, l: nat)
    requires IsInt(a, Operand(x)) && IsInt(b, Operand(y)) && l == LogicLen(op, x < 0, y < 0, a.expn, b.expn)
    ensures Bitwise(op, x / BP(l), y / BP(l)) == if OnBits(op, x < 0, y < 0) then -1 else 0
  {
    hide BP, IsInt, Operand;
    var p := BP(l);
    if a.expn <= LIMB_BITS * l { SignAbove(a, x, l); }
    if b.expn <= LIMB_BITS * l { SignAbove(b, y, l); }
    if op == AND && !OnBits(op, x < 0, y < 0) {
      AndZero(x / p);
      AndZero(y / p);
    }
  }

  lemma ResultParts(op: LogicOp, a: Bf, b: Bf, x: int, y: int, l: nat, emax: nat)
    requires IsInt(a, Operand(x)) && IsInt(b, Operand(y)) && l == LogicLen(op, x < 0, y < 0, a.expn, b.expn)
    requires Abs(x) < Pow2(emax) && Abs(y) < Pow2(emax)
    ensures var v, w := Bitwise(op, x, y), Bitwise(op, x % BP(l), y % BP(l));
      if OnBits(op, x < 0, y < 0) then v == w - BP(l) < 0 && -(Pow2(emax) as int) <= v else v == w && 0 <= v < Pow2(emax)
  {
    hide Pow2, BP, IsInt, Operand, LogicLen, Bitwise, OnBits;
    SignOfResult(op, a, b, x, y, l);
    BitsOfLimbs(l);
    BitwiseSplit(op, x, y, LIMB_BITS * l);
    BitwiseSplit(op, x, y, emax);
    var p := Pow2(emax);
    if x < 0 { QuotientIs(x, p, -1, x + p); } else { QuotientIs(x, p, 0, x); }
    if y < 0 { QuotientIs(y, p, -1, y + p); } else { QuotientIs(y, p, 0, y); }
    OnSigns(op, x < 0, y < 0);
  }

  lemma OnSigns(op: LogicOp, a: bool, b: bool)
    ensures Bitwise(op, if a then -1 else 0, if b then -1 else 0) == if OnBits(op, a, b) then -1 else 0
  {
  }

  /** The end of bf_logic_op: the magnitude is normalized, and a negative result moved down by one. */
  method StoreLogic(r: Bf, rSign: bool, ghost v: int, ghost emax: nat) returns (ok: bool)
    requires r.LowExp() == 0 && r.sign == rSign && emax == EXACT.EMax() && -(Pow2(emax) as int) <= v < Pow2(emax)
    requires rSign == (v < 0) && r.Mant() == if rSign then -v - 1 else v
    modifies r, r.tab
    ensures ok <==> v != -(Pow2(emax) as int)
    ensures if ok then IsInt(r, v) else r.IsNan()
  {
    hide Pow2, V, BP, IsInt, Bf.RoundOutcome, Bf.CorrectResult;
    ghost var m := r.Mant();
    ExponentRange(emax);
    var st;
    ghost var n, shift;
    st, n, shift := r.BfNormalizeAndRound(PREC_INF, EXACT);
    NormalizedInt(r, rSign, m, n, shift, emax, st);
    ok := true;
    if rSign {
      var s := new Bf();
      st := AddUnit(s, r, true, -(m as int), emax);
      r.sign, r.expn, r.tab := s.sign, s.expn, s.tab;
      SameInt(r, s, v);
      if st != OK {
        r.BfSetNan();
        ok := false;
      }
    }
  }

  lemma NormalizedInt(r: Bf, neg: bool, m: nat, l: nat, shift: nat, emax: nat, st: Status)
    requires emax == EXACT.EMax() && m < Pow2(emax)
    requires m == 0 ==> r.IsZero()
    requires m != 0 ==> var x := m * Pow2(shift); BP(l) <= 2 * x < 2 * BP(l) && r.RoundOutcome(neg, 0 - shift + LIMB_BITS * l, x, l, PREC_INF, EXACT, OK, st)
    ensures IsInt(r, Signed(neg, m))
  {
    hide Pow2, V, BP, Bf.RoundOutcome, Bf.CorrectResult;
    if m != 0 {
      assert m / 1 == m && m % 1 == 0;
      OutcomeIsCorrect(r, neg, m, 1, 0, m, l, shift, PREC_INF, EXACT, st);
      Pow2One();
      IntegerResult(r, neg, m, 0, m, emax, st);
    }
  }

  lemma SameInt(r: Bf, s: Bf, v: int)
    requires r.sign == s.sign && r.expn == s.expn && r.tab == s.tab
    ensures IsInt(r, v) <==> IsInt(s, v)
  {
  }

  /** The operation on integers of at most 2^28 bits; it fails exactly if the result has more. */
  method BfLogicOp(r: Bf, a1: Bf, b1: Bf, op: LogicOp, ghost x: int, ghost y: int, ghost emax: nat) returns (ok: bool)
    requires IsInt(a1, x) && IsInt(b1, y) && r != a1 && r != b1
    requires emax == EXACT.EMax() && Abs(x) < Pow2(emax) && Abs(y) < Pow2(emax)
    modifies r
    ensures unchanged(a1) && unchanged(b1)
    ensures ok <==> Bitwise(op, x, y) != -(Pow2(emax) as int)
    ensures if ok then IsInt(r, Bitwise(op, x, y)) else r.IsNan()
  {
    hide Pow2, V, BP, IsInt, Bitwise, OnBits, LogicLen, Operand;
    SignIs(a1, x);
    SignIs(b1, y);
    // a zero with a minus sign is positive
    var aSign := a1.expn > 0 && a1.sign;
    var bSign := b1.expn > 0 && b1.sign;
    var a := MakeOperand(a1, aSign, x, emax);
    var b := MakeOperand(b1, bSign, y, emax);
    var rSign := OnBits(op, aSign, bSign);
    var l := LogicLen(op, aSign, bSign, a.expn, b.expn);
    ResultParts(op, a, b, x, y, l, emax);
    var t := LogicLimbs(a, b, op, aSign, bSign, rSign, l, x, y);
    r.tab := t;
    r.expn := l * LIMB_BITS;
    r.sign := rSign;
    ok := StoreLogic(r, rSign, Bitwise(op, x, y), emax);
  }

  /** Operands for which it fails. */
  lemma LogicCanFail(emax: nat)
    requires emax == EXACT.EMax()
    ensures var p := Pow2(emax) as int; 2 < p && Bitwise(AND, 1 - p, 2 - p) == -p
  {
    hide Pow2;
    ExponentRange(emax);
    Pow2One();
    Pow2Add(1, 1);
    Pow2Up(2, emax);
    var p: int := Pow2(emax);
    BitwiseSplit(AND, 1 - p, 2 - p, emax);
    QuotientIs(1 - p, p, -1, 1);
    QuotientIs(2 - p, p, -1, 2);
    assert Bitwise(AND, 1, 2) == 0;
  }
}
