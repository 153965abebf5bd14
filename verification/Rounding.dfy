/**
 Correct rounding (section 4.3 of IEEE 754-2008) of a positive number to a multiple of a unit, and
 why one sticky bit below two spare bits is enough to do it.
 */
module Rounding {
  import opened Limbs
  import opened Udiv

  /** Rounding modes of libbf. */
  datatype RndMode = RNDN | RNDZ | RNDD | RNDU | RNDNA | RNDA | RNDF

  /** The part of a number below the unit. */
  datatype Frac = Exact | Below | Half | Above

  /** Whether the magnitude is rounded up. */
  predicate Addend(mode: RndMode, neg: bool, odd: bool, f: Frac) {
    match mode
    case RNDZ => false
    case RNDN => f == Above || (f == Half && odd)
    case RNDD => f != Exact && neg
    case RNDU => f != Exact && !neg
    case RNDA => f != Exact
    case RNDNA => f == Half || f == Above
    case RNDF => f == Half || f == Above
  }

  function Pick(mode: RndMode, neg: bool, m: int, f: Frac): int {
    if Addend(mode, neg, m % 2 != 0, f) then m + 1 else m
  }

  function FracOf(rest: int, unit: int): Frac {
    if rest == 0 then Exact else if 2 * rest < unit then Below else if 2 * rest == unit then Half else Above
  }

  /** n / unit rounded to an integer; `neg` is the sign of the number. */
  function Round(mode: RndMode, neg: bool, n: int, unit: int): (r: int)
    requires 0 < unit
  {
    Pick(mode, neg, n / unit, FracAt(n, unit))
  }

  function Signed(neg: bool, x: int): int { if neg then -x else x }

  function Distance(x: int, y: int): nat { if x < y then y - x else x - y }

  /**
   What rounding means, for every mode: the result is one of the two neighbours of the number; the
   directed modes give the neighbour on their side, and the nearest modes the nearest neighbour, with
   ties to even or away from zero.
   */
  lemma RoundIsCorrect(mode: RndMode, neg: bool, n: nat, unit: nat)
    requires 0 < unit
    ensures var r := Round(mode, neg, n, unit) * unit;
      && Distance(r, n) < unit && (n % unit == 0 ==> r == n)
      && (mode == RNDZ ==> r <= n)
      && (mode == RNDA ==> n <= r)
      && (mode == RNDD ==> Signed(neg, r) <= Signed(neg, n))
      && (mode == RNDU ==> Signed(neg, n) <= Signed(neg, r))
      && (mode == RNDN || mode == RNDNA ==> 2 * Distance(r, n) <= unit)
      && (mode == RNDN && 2 * Distance(r, n) == unit ==> Round(mode, neg, n, unit) % 2 == 0)
      && (mode == RNDNA && 2 * Distance(r, n) == unit ==> n < r)
  {
    var m, rest := n / unit, n % unit;
    DivMod(n, unit);
    Dist(m, 1, unit);
  }

  /** The part of n / unit that rounding looks at. */
  function FracAt(n: int, unit: int): Frac
    requires 0 < unit
  {
    FracOf(n % unit, unit)
  }

  /** Rounding does not depend on the scale. */
  lemma RoundScales(mode: RndMode, neg: bool, n: nat, unit: nat, c: nat)
    requires 0 < unit && 0 < c
    ensures 0 < unit * c && Round(mode, neg, n * c, unit * c) == Round(mode, neg, n, unit)
    ensures FracAt(n * c, unit * c) == FracAt(n, unit)
  {
    var m, rest := n / unit, n % unit;
    DivMod(n, unit);
    Dist(m * unit, rest, c);
    Assoc(m, unit, c);
    MulLe(0, rest, c);
    MulLt(rest, unit, c);
    MulLt(0, unit, c);
    QuotientIs(n * c, unit * c, m, rest * c);
    SameFrac(rest, unit, c);
  }

  lemma QuotientIs(n: int, d: int, q: int, r: int)
    requires 0 < d && n == q * d + r && 0 <= r < d
    ensures n / d == q && n % d == r
  {
    DivModAny(n, d);
    var k := n / d - q;
    Dist(n / d, q, d);
    assert k * d == r - n % d;
    if 0 < k { MulLe(1, k, d); } else if k < 0 { MulLe(k, -1, d); }
  }

  lemma DivModAny(n: int, d: int)
    requires 0 < d
    ensures n == (n / d) * d + n % d && 0 <= n % d < d
  {
  }

  lemma SameFrac(rest: int, unit: int, c: int)
    requires 0 <= rest < unit && 0 < c
    ensures FracOf(rest * c, unit * c) == FracOf(rest, unit)
  {
    Assoc(2, rest, c);
    if rest != 0 { MulLe(1, rest, c); }
    if 2 * rest < unit { MulLt(2 * rest, unit, c); } else if unit < 2 * rest { MulLt(unit, 2 * rest, c); }
  }

  // ---------------------------------------------------------------- the sticky bit

  /** The integer part, with its lowest bit set if anything was cut off. */
  function Jam(m: int, inexact: bool): int {
    if inexact && m % 2 == 0 then m + 1 else m
  }

  /** Two spare bits and the sticky bit decide the rounding as the exact number does. */
  lemma StickyFrac(m: nat, inexact: bool, unit: nat)
    requires 0 < unit && unit % 4 == 0
    ensures Jam(m, inexact) / unit == m / unit
    ensures FracOf(Jam(m, inexact) % unit, unit) ==
      var rest := m % unit;
      if !inexact then FracOf(rest, unit) else if 2 * rest < unit then Below else Above
  {
    var q, rest := m / unit, m % unit;
    DivMod(m, unit);
    var h := unit / 4;
    assert unit == 4 * h;
    Assoc(q, 4, h);
    assert m % 2 == rest % 2 by { assert q * unit == 2 * (2 * (q * h)); EvenPart(2 * (q * h), rest); }
    if inexact && m % 2 == 0 {
      assert rest + 1 < unit;
      QuotientIs(m + 1, unit, q, rest + 1);
    }
  }

  lemma EvenPart(x: int, r: int)
    ensures (2 * x + r) % 2 == r % 2
  {
  }

  /** The same for the quotient n / d. */
  lemma StickyRound(mode: RndMode, neg: bool, n: nat, d: nat, unit: nat)
    requires 0 < d && 0 < unit && unit % 4 == 0
    ensures 0 < d * unit && Round(mode, neg, Jam(n / d, n % d != 0), unit) == Round(mode, neg, n, d * unit)
    ensures FracAt(Jam(n / d, n % d != 0), unit) == FracAt(n, d * unit)
  {
    var m, r := n / d, n % d;
    var q, rest := m / unit, m % unit;
    DivMod(n, d);
    DivMod(m, unit);
    MulLt(0, unit, d);
    StickyFrac(m, r != 0, unit);
    // n == q * (d * unit) + (rest * d + r)
    Dist(q * unit, rest, d);
    Assoc(q, unit, d);
    MulLe(rest + 1, unit, d);
    Dist(rest, 1, d);
    MulLe(0, rest, d);
    QuotientIs(n, d * unit, q, rest * d + r);
    HalfDivided(rest, r, d, unit);
  }

  lemma HalfDivided(rest: nat, r: nat, d: nat, unit: nat)
    requires 0 <= r < d && rest < unit && unit % 2 == 0
    ensures FracOf(rest * d + r, d * unit) ==
      if r == 0 then FracOf(rest, unit) else if 2 * rest < unit then Below else Above
  {
    var x := rest * d + r;
    if r == 0 {
      SameFrac(rest, unit, d);
    } else {
      MulLe(0, rest, d);
      Assoc(2, rest, d);
      if 2 * rest < unit {
        MulLe(2 * rest + 2, unit, d);
        Dist(2 * rest, 2, d);
      } else {
        MulLe(unit, 2 * rest, d);
      }
    }
  }

  // ---------------------------------------------------------------- square roots

  /** Where the square root of `a` lies in the interval from m * unit to (m + 1) * unit. */
  function RootFrac(a: int, m: int, unit: int): Frac {
    if a == m * unit * (m * unit) then Exact
    else if 4 * a < (2 * m + 1) * unit * ((2 * m + 1) * unit) then Below
    else if 4 * a == (2 * m + 1) * unit * ((2 * m + 1) * unit) then Half
    else Above
  }

  /** `r` is the square root of `a`, rounded to a multiple of `unit`. */
  ghost predicate IsRootRounded(mode: RndMode, a: int, unit: int, r: int) {
    exists m: nat :: m * unit * (m * unit) <= a < (m + 1) * unit * ((m + 1) * unit) && r == Pick(mode, false, m, RootFrac(a, m, unit))
  }

  /** The integer square root with a sticky bit decides the rounding of the exact root, on any scale c. */
  lemma StickyRoot(mode: RndMode, a: nat, s: nat, c: nat, unit: nat)
    requires 0 < unit && unit % 4 == 0 && 0 < c && s * c * (s * c) <= a < (s + 1) * c * ((s + 1) * c)
    ensures var x := Round(mode, false, Jam(s, a != s * c * (s * c)), unit);
      && IsRootRounded(mode, a, unit * c, x)
      && (FracAt(Jam(s, a != s * c * (s * c)), unit) == Exact <==> a == x * (unit * c) * (x * (unit * c)))
  {
    hide RootFrac, Jam;
    var m, rest, v := s / unit, s % unit, unit * c;
    var inexact := a != s * c * (s * c);
    DivMod(s, unit);
    StickyFrac(s, inexact, unit);
    MulLt(0, unit, c);
    Dist(m * unit, rest, c);
    Assoc(m, unit, c);
    Dist(m, 1, v);
    MulLe(0, m, v);
    MulLe(rest + 1, unit, c);
    Dist(s, 1, c);
    Dist(rest, 1, c);
    MulLe(0, rest, c);
    // m * v <= s * c and (s + 1) * c <= (m + 1) * v
    SquareMono(m * v, s * c);
    SquareMono((s + 1) * c, (m + 1) * v);
    RootFracIs(a, s, c, m, rest, unit);
    SameFrac(rest, unit, c);
    RootPicked(mode, a, v, m, FracAt(Jam(s, inexact), unit));
  }

  /** Only an exact root is a multiple of the unit. */
  lemma RootPicked(mode: RndMode, a: nat, v: nat, m: nat, f: Frac)
    requires 0 < v && m * v * (m * v) <= a < (m + 1) * v * ((m + 1) * v) && f == RootFrac(a, m, v)
    ensures IsRootRounded(mode, a, v, Pick(mode, false, m, f))
    ensures f == Exact <==> a == Pick(mode, false, m, f) * v * (Pick(mode, false, m, f) * v)
  {
    var x := m * v;
    Dist(m, 1, v);
    Dist(2 * m, 1, v);
    Assoc(2, m, v);
    MulLe(0, m, v);
    SquareMono(x, x);
    assert 4 * (x * x) == 2 * x * (2 * x);
    SquareStrict(2 * x, 2 * x + v);
  }

  lemma SquareMono(x: int, y: int)
    requires 0 <= x <= y
    ensures x * x <= y * y
  {
    MulLe(x, y, x);
    MulLe(x, y, y);
  }

  lemma SquareStrict(x: int, y: int)
    requires 0 <= x < y
    ensures x * x < y * y
  {
    MulLe(x, y, x);
    MulLt(x, y, y);
  }

  lemma RootFracIs(a: nat, s: nat, c: nat, m: nat, rest: nat, unit: nat)
    requires 0 < c && 0 < unit && unit % 2 == 0 && s == m * unit + rest && rest < unit
    requires s * c * (s * c) <= a < (s + 1) * c * ((s + 1) * c)
    ensures RootFrac(a, m, unit * c) ==
      if a == s * c * (s * c) then FracOf(rest, unit) else if 2 * rest < unit then Below else Above
  {
    var v, r := unit * c, rest * c;
    Dist(m * unit, rest, c);
    Assoc(m, unit, c);
    Dist(s, 1, c);
    Dist(2 * m, 1, v);
    Assoc(2, m, v);
    MulLe(0, m, v);
    MulLe(0, rest, c);
    MulLt(0, unit, c);
    Assoc(2, rest, c);
    if rest != 0 { MulLe(1, rest, c); }
    if 2 * rest < unit { MulLe(2 * rest + 2, unit, c); Dist(2 * rest, 2, c); }
    if unit < 2 * rest { MulLt(unit, 2 * rest, c); }
    RootParts(a, m * v, r, c, v);
    assert (2 * m + 1) * v == 2 * (m * v) + v;
  }

  /** Comparing a square with the squares of the unit's ends and middle: the root is in [x + r, x + r + c). */
  lemma RootParts(a: nat, x: nat, r: nat, c: nat, v: nat)
    requires 0 < c && (x + r) * (x + r) <= a < (x + r + c) * (x + r + c)
    requires 2 * r + 2 * c <= v || v <= 2 * r
    ensures r == 0 ==> (a == x * x <==> a == (x + r) * (x + r))
    ensures r != 0 ==> x * x < a
    ensures 2 * r + 2 * c <= v ==> 4 * a < (2 * x + v) * (2 * x + v)
    ensures v <= 2 * r ==> (2 * x + v) * (2 * x + v) <= 4 * a
    ensures v < 2 * r ==> (2 * x + v) * (2 * x + v) < 4 * a
    ensures v == 2 * r ==> ((2 * x + v) * (2 * x + v) == 4 * a <==> a == (x + r) * (x + r))
  {
    var z, y := x + r, 2 * x + v;
    FourSquares(z);
    FourSquares(z + c);
    if r != 0 { SquareStrict(x, z); }
    if 2 * r + 2 * c <= v { SquareMono(2 * (z + c), y); } else { SquareMono(y, 2 * z); }
    if v < 2 * r { SquareStrict(y, 2 * z); }
  }

  lemma FourSquares(z: int)
    ensures 4 * (z * z) == 2 * z * (2 * z)
  {
  }
}
