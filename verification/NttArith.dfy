/**
 Arithmetic modulo a 30-bit prime in 32-bit limbs, with the quotient taken from
 precomputed inverses (libbf.c, 32-bit limbs without AVX2).
 */
module NttArith {
  import opened Limbs
  import opened MpBase
  import opened Congruence

  const MOD_LOG2_MIN := 29
  const MOD_LOG2_MAX := 30
  const P_MIN := 0x2000_0000
  const P_MAX := 0x4000_0000

  /** A modulus the transform can use. */
  predicate Modulus(m: int) {
    P_MIN < m < P_MAX
  }

  function AddMod(a: limb, b: limb, m: limb): (r: limb)
    requires a < m && b < m && m <= HALF
    ensures r == (a + b) % m
  {
    var r := Wrap(a + b);
    assert (a + b) % m == if a + b < m then a + b else a + b - m by {
      Rem(a + b, if a + b < m then 0 else 1, if a + b < m then a + b else a + b - m, m);
    }
    if m <= r then r - m else r
  }

  function SubMod(a: limb, b: limb, m: limb): (r: limb)
    requires a < m && b < m
    ensures r == (a - b) % m
  {
    SubModIs(a, b, m);
    var r := Wrap(a as int - b);
    if a < r then Wrap(r as int + m) else r
  }

  lemma SubModIs(a: limb, b: limb, m: limb)
    requires a < m && b < m
    ensures b <= a ==> Wrap(a as int - b) == a - b == (a - b) % m
    ensures a < b ==> Wrap(a as int - b) == a as int - b + B && Wrap(a as int - b + B + m) == a as int - b + m == (a - b) % m
  {
    if b <= a { Rem(a as int - b, 0, a as int - b, m); } else { Rem(a as int - b, -1, a as int - b + m, m); }
  }

  /** The fixed-point inverse of a constant multiplier. */
  function InitMulModFast2(b: limb, m: limb): (r: limb)
    requires b < m
    ensures r * m <= b * B < r * m + m
  {
    InverseBound(b * B, m, B);
    b * B / m
  }

  lemma InverseBound(x: int, m: int, bound: int)
    requires 0 < m && 0 <= x < bound * m
    ensures 0 <= x / m < bound && (x / m) * m <= x < (x / m) * m + m
  {
    assert x == (x / m) * m + x % m;
    LtMul(x / m, bound, m);
  }

  /** The quotient taken from the inverse is at most one too small. */
  lemma QuotientOff(a: int, b: int, m: int, inv: int, q: int)
    requires 0 <= a < B && 0 < m && 0 <= b < m && inv * m <= b * B < inv * m + m
    requires q * B <= a * inv < q * B + B
    ensures 0 <= a * b - q * m < 2 * m
  {
    QuotientLow(a, b * B, m, inv, q * B);
    QuotientHigh(a, b * B, m, inv, q * B);
    Assoc(a, b, B);
    assert q * B * m == q * m * B;
    LeMul(q * m, a * b, B);
    Dist(q * m, 2 * m, B);
    LtMul(a * b, q * m + 2 * m, B);
  }

  lemma QuotientLow(a: int, x: int, m: int, inv: int, y: int)
    requires 0 <= a < B && 0 < m && inv * m <= x && y <= a * inv
    ensures y * m <= a * x
  {
    MulLe(inv * m, x, a);
    MulLe(y, a * inv, m);
    Assoc(a, inv, m);
  }

  lemma QuotientHigh(a: int, x: int, m: int, inv: int, y: int)
    requires 0 <= a < B && 0 < m && x < inv * m + m && a * inv < y + B
    ensures a * x < y * m + 2 * m * B
  {
    MulLe(x, inv * m + m, a);
    DistL(a, inv * m, m);
    Assoc(a, inv, m);
    MulLe(a * inv + 1, y + B, m);
    Dist(a * inv, 1, m);
    Dist(y, B, m);
    MulLe(a, B, m);
  }

  /** a * b modulo m, or that plus m. */
  function MulModFast3(a: limb, b: limb, m: limb, bInv: limb): (r: limb)
    requires 0 < m <= HALF && b < m && bInv == InitMulModFast2(b, m)
    ensures r < 2 * m && Cong(r, a * b, m)
  {
    var q := High(a * bInv);
    assert 0 <= a * b - q * m < 2 * m by { QuotientOff(a, b, m, bInv, q); }
    Reduced(a, b, q, m);
    Wrap(a * b - q * m)
  }

  lemma Reduced(a: limb, b: limb, q: int, m: limb)
    requires 0 < m <= HALF && 0 <= a as int * b - q * m < 2 * m
    ensures Wrap(a * b - q * m) == a as int * b - q * m && Cong(a as int * b - q * m, a as int * b, m)
  {
    var x := a as int * b - q * m;
    Rem(x, 0, x, B);
    CongBy(a as int * b, x, q, m);
  }

  function MulModFast2(a: limb, b: limb, m: limb, bInv: limb): (r: limb)
    requires 0 < m <= HALF && b < m && bInv == InitMulModFast2(b, m)
    ensures r == a * b % m
  {
    var r := MulModFast3(a, b, m, bInv);
    assert r % m == if m <= r then r - m else r by {
      Rem(r, if m <= r then 1 else 0, if m <= r then r - m else r, m);
    }
    if m <= r then r - m else r
  }

  /**
   floor(2^61 / m).  The assertions in the source also allow 2^29, where the
   quotient no longer fits in a limb and is cut to zero.
   */
  function InitMulModFast(m: limb): (r: limb)
    requires P_MIN <= m < P_MAX
    ensures if m == P_MIN then r == 0 else r * m <= P_MIN * B < r * m + m
  {
    if m == P_MIN then
      Rem(P_MIN * B, B, 0, m);
      assert Wrap(P_MIN * B / m) == 0;
      Wrap(P_MIN * B / m)
    else
      MulLt(P_MIN, m, B);
      InverseBound(P_MIN * B, m, B);
      Wrap(P_MIN * B / m)
  }

  /** All ones or all zeros, as the arithmetic shift of such a word by one. */
  function SignShift(r: limb): (t: limb)
    ensures r == 0 ==> t == 0
    ensures r == B - 1 ==> t == B - 1
  {
    Wrap((if HALF <= r then r - B else r) / 2)
  }

  /** Bitwise and with a word whose bits are all equal. */
  function Mask(m: limb, t: limb): limb
    requires t == 0 || t == B - 1
  {
    if t == 0 then 0 else m
  }

  /** r mod m for a product r below 2^61: the quotient is at most two too small. */
  function ModFast(r: int, m: limb, mInv: limb): (r0: limb)
    requires Modulus(m) && mInv == InitMulModFast(m) && 0 <= r < P_MIN * B
    ensures r0 == r % m
  {
    assert r / P_MIN < B;
    var a1: limb := r / P_MIN;
    var q := High(a1 * mInv);
    assert 0 <= r - q * m < 3 * m by { FastQuotient(r, m, mInv); }
    var r1 := Wide(r - q * m - m * 2);
    WrapSigned(r - q * m - m * 2);
    var r2 := Wide(r1 + Mask(m, SignShift(High(r1))));
    assert r2 == Wide(Once(r - q * m - m * 2, m)) by { WideAdd(r - q * m - m * 2, Mask(m, SignShift(High(r1)))); }
    WrapSigned(Once(r - q * m - m * 2, m));
    WrapAdd(Once(r - q * m - m * 2, m), m);
    TwoSteps(r, q, m);
    Wrap(Wrap(r2) + Mask(m, High(r2)))
  }

  /** Adds the modulus to a negative number. */
  function Once(x: int, m: int): int {
    if x < 0 then x + m else x
  }

  lemma TwoSteps(r: int, q: int, m: int)
    requires 0 <= r - q * m < 3 * m
    ensures r % m == Once(Once(r - q * m - m * 2, m), m)
  {
    var x := r - q * m - m * 2;
    var k := if x < -m then 0 else if x < 0 then 1 else 2;
    Dist(q, k, m);
    Rem(r, q + k, Once(Once(x, m), m), m);
  }

  lemma FastQuotient(r: int, m: limb, mInv: limb)
    requires Modulus(m) && mInv == InitMulModFast(m) && 0 <= r < P_MIN * B
    ensures var q := High((r / P_MIN) * mInv); 0 <= r - q * m < 3 * m
  {
    var a := r / P_MIN;
    var q := High(a * mInv);
    QuotientLow(a, P_MIN * B, m, mInv, q * B);
    QuotientHigh(a, P_MIN * B, m, mInv, q * B);
    Assoc(a, P_MIN, B);
    assert q * B * m == q * m * B;
    LeMul(q * m, a * P_MIN, B);
    Dist(q * m, 2 * m, B);
    LtMul(a * P_MIN, q * m + 2 * m, B);
  }

  /** A small signed number as two limbs: the high limb is its sign. */
  lemma WrapSigned(x: int)
    requires -B <= x < B
    ensures High(Wide(x)) == (if x < 0 then B - 1 else 0) && Wrap(Wide(x)) == Wrap(x)
  {
    if x < 0 {
      Rem(x, -1, x + B * B, B * B);
      Rem(x + B * B, B - 1, x + B, B);
      Rem(x, -1, x + B, B);
    } else {
      Rem(x, 0, x, B * B);
      Rem(x, 0, x, B);
    }
  }

  lemma WideAdd(x: int, y: int)
    ensures Wide(Wide(x) + y) == Wide(x + y)
  {
    CongMod(x, B * B);
    CongAdd(x % (B * B), x, y, y, B * B);
  }

  lemma WrapAdd(y: int, m: int)
    requires -m <= y < m < B
    ensures Wrap(Wrap(y) + if y < 0 then m else 0) == if y < 0 then y + m else y
  {
    if y < 0 {
      Rem(y, -1, y + B, B);
      Rem(y + B + m, 1, y + m, B);
    } else {
      Rem(y, 0, y, B);
    }
  }

  function MulModFast(a: limb, b: limb, m: limb, mInv: limb): (r: limb)
    requires Modulus(m) && mInv == InitMulModFast(m) && a * b < P_MIN * B
    ensures r == a * b % m
  {
    MulLe(0, a, b);
    ModFast(a * b, m, mInv)
  }

  /** The representative below the modulus. */
  function NttLimbToInt(a: limb, m: limb): (r: limb)
    requires 0 < m && a < 2 * m
    ensures r == a % m
  {
    Rem(a, if m <= a then 1 else 0, if m <= a then a - m else a, m);
    if m <= a then a - m else a
  }
}
