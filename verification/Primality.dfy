/**
 Modular powers, modular inverses and the primality test of the calculator
 (qjscalc.js).  In its math mode % is the Euclidean remainder, as here.
 */
module Primality {
  import opened Limbs
  import opened Congruence
  import opened NumberTheory
  import opened SmallPrimes
  import opened Wrappers

  // ---------------------------------------------------------------- invmod

  /** Floor division: the remainder has the sign of the divisor. */
  function Fdivrem(a: int, b: int): (r: (int, int))
    requires b != 0
    ensures a == r.0 * b + r.1
    ensures if 0 < b then 0 <= r.1 < b else b < r.1 <= 0
  {
    var q := if 0 < b then a / b else -a / -b;
    FloorRemainder(a, b);
    (q, a - q * b)
  }

  lemma FloorRemainder(a: int, b: int)
    requires b != 0
    ensures 0 < b ==> 0 <= a - (a / b) * b < b
    ensures b < 0 ==> b < a - (-a / -b) * b <= 0
  {
    if 0 < b {
      assert a == (a / b) * b + a % b;
    } else {
      assert -a == (-a / -b) * -b + -a % -b;
    }
  }

  function Abs(x: int): nat {
    if x < 0 then -x else x
  }

  /** A common divisor of x and y divides both u and v, and conversely. */
  ghost predicate SameDivisors(u: int, v: int, x: int, y: int) {
    forall d :: 1 <= d ==> (Divides(d, u) && Divides(d, v) <==> Divides(d, x) && Divides(d, y))
  }

  /**
   The inverse of x modulo y, or none.  A negative x has none here even if it
   is invertible: the floor remainders of a negative divisor stay negative.
   */
  method InvMod(x: int, y: int) returns (r: Option<int>)
    requires 1 <= y
    ensures r.Some? ==> 0 <= r.value < y && Cong(x * r.value, 1, y)
    ensures r.None? <==> x < 0 || !Invertible(x, y)
  {
    var u, v, c, a := x, y, 1, 0;
    Rem(0, 0, 0, y);
    Rem(y, 1, 0, y);
    while u != 0
      invariant v != 0 && SameDivisors(u, v, x, y)
      invariant if x < 0 then u <= 0 && (u == x || v < 0) && (u == 0 ==> v < 0) else 0 <= u && 0 < v
      invariant Cong(c * x, u, y) && Cong(a * x, v, y)
      decreases Abs(u)
    {
      var t := Fdivrem(v, u);
      var q := t.0;
      ExtendedStep(x, y, u, v, c, a, q, t.1);
      v := u;
      u := t.1;
      c, a := a - q * c, c;
    }
    Ended(x, y, v, a);
    if v != 1 {
      return None;
    }
    CongMod(a, y);
    CongMul(x, x, a % y, a, y);
    assert x * a == a * x;
    HasInverse(x, y, a % y);
    return Some(a % y);
  }

  ghost predicate Invertible(x: int, y: int)
    requires 1 <= y
  {
    exists r :: Cong(x * r, 1, y)
  }

  lemma HasInverse(x: int, y: int, r: int)
    requires 1 <= y && Cong(x * r, 1, y)
    ensures Invertible(x, y)
  {
  }

  lemma DividesSum(d: int, a: int, b: int, q: int)
    requires 1 <= d && Divides(d, a) && Divides(d, b)
    ensures Divides(d, a + q * b) && Divides(d, a - q * b)
  {
    var k := Quotient(d, a);
    var l := Quotient(d, b);
    Assoc(q, l, d);
    Dist(k, q * l, d);
    DividesBy(d, a + q * b, k + q * l);
    DividesBy(d, a - q * b, k - q * l);
  }

  lemma ExtendedStep(x: int, y: int, u: int, v: int, c: int, a: int, q: int, r: int)
    requires 1 <= y && v == q * u + r && SameDivisors(u, v, x, y)
    requires Cong(c * x, u, y) && Cong(a * x, v, y)
    ensures SameDivisors(r, u, x, y) && Cong((a - q * c) * x, r, y)
  {
    hide Divides, Cong;
    forall d | 1 <= d
      ensures Divides(d, r) && Divides(d, u) <==> Divides(d, x) && Divides(d, y)
    {
      if Divides(d, u) && Divides(d, v) { DividesSum(d, v, u, q); }
      if Divides(d, r) && Divides(d, u) { DividesSum(d, r, u, q); }
    }
    CongRefl(q, y);
    CongMul(q, q, c * x, u, y);
    CongAdd(a * x, v, q * (c * x), q * u, y);
    Dist(a, q * c, x);
    Assoc(q, c, x);
  }

  lemma CongRefl(a: int, m: int)
    requires 0 < m
    ensures Cong(a, a, m)
  {
  }

  /** At the end v is the greatest common divisor, up to its sign. */
  lemma Ended(x: int, y: int, v: int, a: int)
    requires 1 <= y && v != 0 && SameDivisors(0, v, x, y) && (if x < 0 then v < 0 else 0 < v)
    requires Cong(a * x, v, y)
    ensures v == 1 ==> Cong(a * x, 1, y)
    ensures v != 1 && 0 <= x ==> !Invertible(x, y)
  {
    if v != 1 && 0 <= x && Invertible(x, y) {
      var r :| Cong(x * r, 1, y);
      DividesBy(v, v, 1);
      DividesBy(v, 0, 0);
      assert Divides(v, x) && Divides(v, y);
      var m := Multiple(x * r, 1, y);
      var k := Quotient(v, x);
      var l := Quotient(v, y);
      assert 1 == (k * v) * r - m * (l * v);
      Assoc(m, l, v);
      assert k * v * r == k * r * v;
      Dist(k * r, m * l, v);
      Rem(1, 0, 1, v);
      Rem(1, k * r - m * l, 0, v);
    }
  }

  // ------------------------------------------------------------------ pmod

  /** a^b modulo m; none for a negative exponent of a number without an inverse. */
  method PMod(a0: int, b0: int, m: int) returns (r: Option<int>)
    requires 1 <= m
    ensures b0 == 0 ==> r == Some(1)
    ensures 0 < b0 ==> r == Some(Pow(a0, b0) % m)
    ensures b0 < 0 ==> (r.None? <==> a0 < 0 || !Invertible(a0, m))
    ensures b0 < 0 && r.Some? ==> 0 <= r.value < m && Cong(Pow(a0, -b0) * r.value, 1, m)
  {
    if b0 == 0 {
      return Some(1);
    }
    var a, b := a0, b0;
    if b < 0 {
      var inv := InvMod(a, m);
      if inv.None? {
        return None;
      }
      a := inv.value;
      b := -b;
    }
    var p := PositivePower(a, b, m);
    if b0 < 0 { InversePower(a0, a, b, p, m); }
    r := Some(p);
  }

  lemma InversePower(a: int, inv: int, n: nat, p: int, m: int)
    requires 0 < m && Cong(a * inv, 1, m) && p == Pow(inv, n) % m
    ensures 0 <= p < m && Cong(Pow(a, n) * p, 1, m)
  {
    CongMod(Pow(inv, n), m);
    CongRefl(Pow(a, n), m);
    CongMul(Pow(a, n), Pow(a, n), p, Pow(inv, n), m);
    PowTimes(a, inv, n);
    CongPow(a * inv, 1, n, m);
    PowOne(n);
  }

  /** Square and multiply, from the lowest bit of the exponent up. */
  method PositivePower(a0: int, b0: int, m: int) returns (r: int)
    requires 1 <= m && 1 <= b0
    ensures r == Pow(a0, b0) % m
  {
    hide Pow, Cong;
    var a, b := a0, b0;
    r := 1;
    CongRefl(Pow(a0, b0), m);
    while true
      invariant 1 <= b && Cong(r * Pow(a, b), Pow(a0, b0), m)
      invariant b < b0 || b == b0
      decreases b
    {
      ghost var r1, b1 := r, b;
      if b % 2 == 1 {
        r := r * a % m;
      }
      b := b / 2;
      PowerStep(r1, a, b1, m);
      if b == 0 {
        LastPower(r, r1, a, b1, Pow(a0, b0), m);
        break;
      }
      NextSquare(r, r1, a, b1, Pow(a0, b0), m);
      a := a * a % m;
    }
  }

  /** The value of the next accumulator. */
  function Folded(r: int, a: int, b: nat, m: int): int
    requires 1 <= m
  {
    if b % 2 == 1 then r * a % m else r
  }

  lemma PowerStep(r: int, a: int, b: nat, m: int)
    requires 1 <= m
    ensures Cong(Folded(r, a, b, m) * Pow(a * a % m, b / 2), r * Pow(a, b), m)
  {
    var h := b / 2;
    CongMod(a * a, m);
    CongPow(a * a % m, a * a, h, m);
    PowSmall(a);
    PowPow(a, 2, h);
    CongMod(r * a, m);
    if b % 2 == 1 {
      assert b == 1 + 2 * h;
      CongMul(r * a % m, r * a, Pow(a * a % m, h), Pow(a, 2 * h), m);
      Assoc(r, a, Pow(a, 2 * h));
    } else {
      CongRefl(r, m);
      CongMul(r, r, Pow(a * a % m, h), Pow(a, 2 * h), m);
    }
  }

  lemma NextSquare(r: int, r1: int, a: int, b: nat, goal: int, m: int)
    requires 1 <= m && r == Folded(r1, a, b, m) && Cong(r1 * Pow(a, b), goal, m)
    ensures Cong(r * Pow(a * a % m, b / 2), goal, m)
  {
    PowerStep(r1, a, b, m);
  }

  lemma LastPower(r: int, r1: int, a: int, b: nat, goal: int, m: int)
    requires 1 <= m && b == 1 && r == Folded(r1, a, b, m) && Cong(r1 * Pow(a, b), goal, m)
    ensures r == goal % m
  {
    PowSmall(a);
    CongMod(r1 * a, m);
    CongMod(goal, m);
    CongSmall(r, goal % m, m);
  }

  // ------------------------------------------------------------ Miller-Rabin

  /** The value of r after i squarings. */
  ghost predicate Squared(r: int, a: int, d: nat, i: nat, n: int)
    requires 2 <= n
  {
    0 <= r < n && Cong(r, Pow(a, d * Pow2i(i)), n)
  }

  ghost function Pow2i(i: nat): (p: nat)
    ensures 1 <= p
  {
    if i == 0 then 1 else 2 * Pow2i(i - 1)
  }

  /** The power of a after r squarings is -1. */
  ghost predicate IsMinusOne(a: int, d: nat, r: nat, n: int)
    requires 2 <= n
  {
    Pow(a, d * Pow2i(r)) % n == n - 1
  }

  /** n = d * 2^s + 1 is a strong probable prime to base a: 1 is met at once, or -1 before the last squaring. */
  ghost predicate StrongAt(a: int, d: nat, s: nat, n: int)
    requires 2 <= n
  {
    Pow(a, d) % n == 1 || exists r: nat :: (r < s || r == 0) && IsMinusOne(a, d, r, n)
  }

  /** One base. */
  method TestBase(a: int, d: nat, s: nat, n: int) returns (pass: bool)
    requires 2 <= n && 1 <= a && 1 <= d && d * Pow2i(s) == n - 1
    ensures pass <==> StrongAt(a, d, s, n)
  {
    hide Pow, Cong, Pow2i, IsMinusOne;
    var p := PMod(a, d, n);
    var r := p.value;
    FirstPower(r, a, d, n);
    SquaredIs(r, a, d, 0, n);
    if r == 1 || r == n - 1 {
      return true;
    }
    var i := 1;
    while i < s
      invariant 1 <= i && (i <= s || (s == 0 && i == 1))
      invariant r != 1 && r != n - 1 && Squared(r, a, d, i - 1, n)
      invariant Pow(a, d) % n != 1 && forall e: nat :: e < i ==> !IsMinusOne(a, d, e, n)
      decreases s - i
    {
      SquareAgain(r, a, d, i - 1, n);
      ghost var r0 := r;
      r := r * r % n;
      SquaredIs(r, a, d, i, n);
      if r == 1 {
        NotTwo(r0, n);
        forall e: nat | i <= e ensures !IsMinusOne(a, d, e, n) { OnesStay(a, d, i, e, n); }
        return false;
      }
      if r == n - 1 {
        return true;
      }
      i := i + 1;
    }
    pass := false;
  }

  lemma SquaredIs(r: int, a: int, d: nat, i: nat, n: int)
    requires 2 <= n && Squared(r, a, d, i, n)
    ensures r == Pow(a, d * Pow2i(i)) % n && (IsMinusOne(a, d, i, n) <==> r == n - 1)
    ensures i == 0 ==> r == Pow(a, d) % n
  {
    hide Pow;
    Rem(r, 0, r, n);
    assert d * 1 == d;
  }

  lemma NotTwo(r: int, n: int)
    requires 2 <= n && 0 <= r < n && r != 1 && r * r % n == 1
    ensures 3 <= n
  {
  }

  /** Once the power is 1 it stays 1. */
  lemma {:induction false} OnesStay(a: int, d: nat, i: nat, e: nat, n: int)
    requires 3 <= n && i <= e && Squared(1, a, d, i, n)
    ensures Squared(1, a, d, e, n) && !IsMinusOne(a, d, e, n)
    decreases e
  {
    hide Squared, IsMinusOne;
    if i < e {
      OnesStay(a, d, i, e - 1, n);
      SquareAgain(1, a, d, e - 1, n);
      Rem(1, 0, 1, n);
    }
    SquaredIs(1, a, d, e, n);
  }

  lemma FirstPower(r: int, a: int, d: nat, n: int)
    requires 2 <= n && r == Pow(a, d) % n
    ensures Squared(r, a, d, 0, n)
  {
    CongMod(Pow(a, d), n);
    assert d * 1 == d;
  }

  lemma SquareAgain(r: int, a: int, d: nat, i: nat, n: int)
    requires 2 <= n && Squared(r, a, d, i, n)
    ensures Squared(r * r % n, a, d, i + 1, n)
  {
    hide Pow;
    var e := d * Pow2i(i);
    MulLe(0, d, Pow2i(i));
    CongMod(r * r, n);
    CongMul(r, Pow(a, e), r, Pow(a, e), n);
    PowAdd(a, e, e);
    assert d * Pow2i(i + 1) == e + e;
  }

  /** A prime that divides the base makes every power zero. */
  lemma PowerNotZero(r: int, a: int, d: nat, i: nat, n: int)
    requires 2 <= n && 1 <= d && Squared(r, a, d, i, n) && r != 0
    ensures !Divides(n, a)
  {
    if Divides(n, a) {
      var e := d * Pow2i(i);
      MulLe(1, d, Pow2i(i));
      var k := Quotient(n, a);
      var p := Pow(a, e - 1);
      assert Pow(a, e) == k * n * p == (k * p) * n;
      CongBy(Pow(a, e), 0, k * p, n);
      CongRefl(0, n);
      Rem(0, 0, 0, n);
      Rem(r, 0, r, n);
    }
  }

  /** A prime passes exactly if it does not divide the base. */
  lemma PrimeIsStrong(a: int, d: nat, s: nat, n: int)
    requires 2 <= n && Prime(n) && 1 <= a && 1 <= d && d * Pow2i(s) == n - 1
    ensures StrongAt(a, d, s, n) <==> !Divides(n, a)
  {
    hide Pow, Prime, Divides, Squared, IsMinusOne;
    if StrongAt(a, d, s, n) {
      if Pow(a, d) % n == 1 {
        FirstPower(1, a, d, n);
        PowerNotZero(1, a, d, 0, n);
      } else {
        var r: nat :| (r < s || r == 0) && IsMinusOne(a, d, r, n);
        MinusOneSquared(a, d, r, n);
        PowerNotZero(n - 1, a, d, r, n);
      }
    }
    if !Divides(n, a) {
      FullPower(a, d, s, n);
      RootsOfOne(a, d, s, s, n);
    }
  }

  lemma MinusOneSquared(a: int, d: nat, r: nat, n: int)
    requires 2 <= n && IsMinusOne(a, d, r, n)
    ensures Squared(n - 1, a, d, r, n)
  {
    hide Pow;
    CongMod(Pow(a, d * Pow2i(r)), n);
  }

  lemma FullPower(a: int, d: nat, s: nat, n: int)
    requires 2 <= n && Prime(n) && 1 <= a && d * Pow2i(s) == n - 1 && !Divides(n, a)
    ensures Squared(1, a, d, s, n)
  {
    hide Pow, Prime, Divides;
    Fermat(a, n);
    Rem(1, 0, 1, n);
  }

  /** Below a power that is 1 there is a power that is -1, or the first one is 1. */
  lemma {:induction false} RootsOfOne(a: int, d: nat, s: nat, i: nat, n: int)
    requires 2 <= n && Prime(n) && i <= s && Squared(1, a, d, i, n)
    ensures StrongAt(a, d, s, n)
  {
    hide Pow, Prime, Squared, IsMinusOne;
    SquaredIs(1, a, d, i, n);
    if i != 0 {
      var r := Pow(a, d * Pow2i(i - 1)) % n;
      PowerSquared(r, a, d, i - 1, n);
      SquareAgain(r, a, d, i - 1, n);
      SquaredIs(r * r % n, a, d, i, n);
      SquaredIs(r, a, d, i - 1, n);
      if r == 1 {
        RootsOfOne(a, d, s, i - 1, n);
      } else {
        Rem(1, 0, 1, n);
        SquareRootsOfOne(r, n);
        assert IsMinusOne(a, d, i - 1, n);
      }
    }
  }

  lemma PowerSquared(r: int, a: int, d: nat, i: nat, n: int)
    requires 2 <= n && r == Pow(a, d * Pow2i(i)) % n
    ensures Squared(r, a, d, i, n)
  {
    hide Pow;
    CongMod(Pow(a, d * Pow2i(i)), n);
  }

  // ---------------------------------------------------- all bases, for every number

  /** n - 1 is d * 2^s with d odd, and n passes for base a. */
  ghost predicate Strong(a: int, n: int)
    requires 2 <= n
  {
    exists d: nat, s: nat :: IsOddPart(d, s, n) && StrongAt(a, d, s, n)
  }

  ghost predicate IsOddPart(d: nat, s: nat, n: int) {
    d % 2 == 1 && d * Pow2i(s) == n - 1
  }

  lemma {:induction false} OddPartIsUnique(d: nat, s: nat, d': nat, s': nat, n: int)
    requires IsOddPart(d, s, n) && IsOddPart(d', s', n)
    ensures d == d' && s == s'
    decreases s
  {
    if s == 0 || s' == 0 {
      OddOrEven(d, s);
      OddOrEven(d', s');
    } else {
      OddOrEven(d, s);
      OddOrEven(d', s');
      OddPartIsUnique(d, s - 1, d', s' - 1, d * Pow2i(s - 1) + 1);
    }
  }

  lemma OddOrEven(d: nat, s: nat)
    requires d % 2 == 1
    ensures d * Pow2i(s) % 2 == 0 <==> s != 0
    ensures s != 0 ==> d * Pow2i(s) == 2 * (d * Pow2i(s - 1))
    ensures s == 0 ==> d * Pow2i(s) == d
  {
    if s != 0 { Assoc(d, 2, Pow2i(s - 1)); }
  }

  lemma StrongIs(a: int, d: nat, s: nat, n: int)
    requires 2 <= n && IsOddPart(d, s, n)
    ensures Strong(a, n) <==> StrongAt(a, d, s, n)
  {
    hide StrongAt, IsOddPart;
    if Strong(a, n) {
      var d': nat, s': nat :| IsOddPart(d', s', n) && StrongAt(a, d', s', n);
      OddPartIsUnique(d, s, d', s', n);
    }
  }

  /** The base with this place in the list passes, if the place is among the first t0. */
  ghost predicate PassesAt(n: int, t0: int, j: nat)
    requires 2 <= n && j < |SMALL_PRIMES|
  {
    j < t0 ==> Strong(SMALL_PRIMES[j], n)
  }

  /** n passes for the first t0 bases of the list. */
  ghost predicate PassesBases(n: int, t0: int)
    requires 2 <= n
  {
    forall j :: 0 <= j < |SMALL_PRIMES| ==> PassesAt(n, t0, j)
  }

  /** Miller-Rabin: exactly the numbers that are strong probable primes to the first t0 bases pass. */
  method MillerRabinTest(n: int, t0: int) returns (res: bool)
    requires 2 <= n
    ensures res <==> PassesBases(n, t0)
  {
    hide Prime, Pow2i, Divides, SMALL_PRIMES, StrongAt, Strong;
    var d, s: nat := n - 1, 0;
    NoHalving(d);
    while d % 2 == 0
      invariant 1 <= d && d * Pow2i(s) == n - 1
      decreases d
    {
      HalveExponent(d, s, n);
      d := d / 2;
      s := s + 1;
    }
    var t := if |SMALL_PRIMES| < t0 then |SMALL_PRIMES| else t0;
    var j := 0;
    while j < t
      invariant 0 <= j && (j == 0 || j <= t) && t <= |SMALL_PRIMES|
      invariant forall e :: 0 <= e < j ==> PassesAt(n, t0, e)
      decreases t - j
    {
      var a := SMALL_PRIMES[j];
      assert a in SMALL_PRIMES;
      ListedPrime(a);
      StrongIs(a, d, s, n);
      var pass := TestBase(a, d, s, n);
      if !pass {
        assert !PassesAt(n, t0, j);
        return false;
      }
      j := j + 1;
    }
    res := true;
  }

  /** A prime fails only if it is one of the bases. */
  lemma PrimePasses(n: int, t0: int)
    requires 2 <= n && Prime(n)
    ensures PassesBases(n, t0) <==> forall j :: 0 <= j < |SMALL_PRIMES| && j < t0 ==> SMALL_PRIMES[j] != n
  {
    hide Prime, SMALL_PRIMES, Strong;
    forall j | 0 <= j < |SMALL_PRIMES| ensures PassesAt(n, t0, j) <==> (j < t0 ==> SMALL_PRIMES[j] != n) {
      assert SMALL_PRIMES[j] in SMALL_PRIMES;
      PrimeBase(SMALL_PRIMES[j], n);
    }
  }

  lemma PrimeBase(a: int, n: int)
    requires 2 <= n && Prime(n) && a in SMALL_PRIMES
    ensures Strong(a, n) <==> a != n
  {
    hide Prime, SMALL_PRIMES, Strong, StrongAt, Divides;
    ListedPrime(a);
    var d, s := OddPart(n - 1);
    StrongIs(a, d, s, n);
    PrimeIsStrong(a, d, s, n);
    OnlyItself(n, a);
  }

  lemma {:induction false} OddPart(m: nat) returns (d: nat, s: nat)
    requires 1 <= m
    ensures 1 <= d && IsOddPart(d, s, m + 1)
  {
    if m % 2 == 1 {
      d, s := m, 0;
      NoHalving(m);
    } else {
      d, s := OddPart(m / 2);
      Assoc(d, 2, Pow2i(s));
      s := s + 1;
    }
  }

  lemma NoHalving(d: int)
    ensures d * Pow2i(0) == d
  {
  }

  lemma HalveExponent(d: nat, s: nat, n: int)
    requires 1 <= d && d % 2 == 0 && d * Pow2i(s) == n - 1
    ensures 1 <= d / 2 && (d / 2) * Pow2i(s + 1) == n - 1
  {
    assert d == 2 * (d / 2);
    assert (d / 2) * (2 * Pow2i(s)) == 2 * (d / 2) * Pow2i(s);
  }

  /** A prime divides another one only if it is the same. */
  lemma OnlyItself(n: int, a: int)
    requires Prime(n) && Prime(a)
    ensures Divides(n, a) <==> n == a
  {
    if n == a {
      DividesBy(n, a, 1);
    } else if n < a {
      assert a % n != 0;
    } else {
      Rem(a, 0, a, n);
    }
  }

  // -------------------------------------------------------- the listed primes

  /** Everything in the list is prime. */
  lemma ListedPrime(p: int)
    requires p in SMALL_PRIMES
    ensures Prime(p) && p <= 499
  {
    ListedSurvives(p);
    if !Prime(p) {
      var q := SmallPrimeFactor(p);
      if 23 <= q { MulLe(23, q, q); MulLe(q, q, 23); }
      PrimeBelow23(q);
      NoSmallFactor(p, q);
    }
  }

  lemma PrimeBelow23(q: int)
    requires Prime(q) && q < 23
    ensures Eight(q)
  {
    if 2 < q { assert q % 2 != 0; }
    if 3 < q { assert q % 3 != 0; }
  }

  lemma NoSmallFactor(p: int, q: int)
    requires Listable(p) && Eight(q) && q * q <= p
    ensures !Divides(q, p)
  {
  }

  /** Every prime below 500 is in the list. */
  lemma SmallPrimeListed(q: int)
    requires Prime(q) && q < 500
    ensures q in SMALL_PRIMES
  {
    var p := SmallFactor(q);
    OnlyFactor(p, q);
  }

  lemma OnlyFactor(p: int, q: int)
    requires Prime(q) && 2 <= p && Divides(p, q)
    ensures p == q
  {
    if p < q {
      assert false;
    } else if q < p {
      Rem(q, 0, q, p);
    }
  }

  // ----------------------------------------------------------------- isPrime

  /** No listed prime divides n. */
  ghost predicate Unlisted(n: int) {
    forall e :: 0 <= e < |SMALL_PRIMES| ==> !Divides(SMALL_PRIMES[e], n)
  }

  /** Below 499^2 a factor would have to be in the list. */
  lemma NoListedFactor(n: int)
    requires 2 <= n < 499 * 499 && Unlisted(n)
    ensures Prime(n)
  {
    hide Prime, SMALL_PRIMES;
    if !Prime(n) {
      var p := SmallPrimeFactor(n);
      if 499 <= p { MulLe(499, p, p); MulLe(499, p, 499); }
      SmallPrimeListed(p);
    }
  }

  /** No listed prime but n itself divides n. */
  ghost predicate OnlyListedFactor(n: int) {
    forall e :: 0 <= e < |SMALL_PRIMES| ==> SMALL_PRIMES[e] == n || !Divides(SMALL_PRIMES[e], n)
  }

  ghost predicate ListedBelow(n: int, i: nat) {
    forall e :: 0 <= e < i && e < |SMALL_PRIMES| ==> SMALL_PRIMES[e] < n
  }

  /** A number passed over by the ascending list has a listed factor. */
  lemma PassedOver(n: int, i: nat)
    requires 2 <= n && i < |SMALL_PRIMES| && n < SMALL_PRIMES[i] && ListedBelow(n, i)
    ensures !OnlyListedFactor(n)
  {
    hide Prime, SMALL_PRIMES;
    ListAscends();
    assert SMALL_PRIMES[i] in SMALL_PRIMES;
    ListedPrime(SMALL_PRIMES[i]);
    var p := SmallFactor(n);
    var k :| 0 <= k < |SMALL_PRIMES| && SMALL_PRIMES[k] == p;
    assert k < i || SMALL_PRIMES[i] <= SMALL_PRIMES[k];
    DivisorAtMost(p, n);
  }

  lemma DivisorAtMost(p: int, n: int)
    requires 0 < p && 0 < n && Divides(p, n)
    ensures p <= n
  {
    if n < p { Rem(n, 0, n, p); }
  }

  /** What isPrime accepts: numbers without a small factor that are small themselves or pass all bases. */
  ghost predicate Accepted(n: int, t0: int) {
    && 2 <= n && OnlyListedFactor(n)
    && (499 * 499 <= n ==> PassesBases(n, t0))
  }

  /** The number of bases, 64 unless the caller says otherwise. */
  const BASES := 64

  /** The first i primes of the list are smaller than n and do not divide it. */
  ghost predicate Tried(n: int, i: nat) {
    forall e :: 0 <= e < i && e < |SMALL_PRIMES| ==> SMALL_PRIMES[e] < n && !Divides(SMALL_PRIMES[e], n)
  }

  /** Trial division by the listed primes, then Miller-Rabin. */
  method IsPrime(n: int, t: Option<int>) returns (res: bool)
    ensures res <==> Accepted(n, if t.Some? then t.value else BASES)
  {
    hide Prime, SMALL_PRIMES, PassesBases, Tried, Divides, OnlyListedFactor, ListedBelow, Accepted;
    ghost var t0 := if t.Some? then t.value else BASES;
    AcceptedIs(n, t0);
    if n <= 1 {
      return false;
    }
    var d := 0;
    NoneTried(n);
    for i := 0 to |SMALL_PRIMES|
      invariant Tried(n, i) && (0 < i ==> d == SMALL_PRIMES[i - 1])
    {
      d := SMALL_PRIMES[i];
      ListedAt(i);
      if d == n {
        ListedIsAccepted(n, t0);
        return true;
      }
      if n < d {
        TriedBelow(n, i);
        PassedOver(n, i);
        return false;
      }
      NextTried(n, i);
      if n % d == 0 {
        return false;
      }
    }
    LastListed(n, d);
    if n < d * d {
      return true;
    }
    res := MillerRabinTest(n, if t.Some? then t.value else 64);
  }

  lemma AcceptedIs(n: int, t0: int)
    ensures Accepted(n, t0) <==> 2 <= n && OnlyListedFactor(n) && (499 * 499 <= n ==> PassesBases(n, t0))
  {
    hide OnlyListedFactor, PassesBases;
  }

  lemma NoneTried(n: int)
    ensures Tried(n, 0) && SMALL_PRIMES != []
  {
  }

  lemma TriedBelow(n: int, i: nat)
    requires Tried(n, i)
    ensures ListedBelow(n, i)
  {
    hide SMALL_PRIMES, Divides;
  }

  lemma ListedAt(i: nat)
    requires i < |SMALL_PRIMES|
    ensures SMALL_PRIMES[i] in SMALL_PRIMES && Prime(SMALL_PRIMES[i]) && 2 <= SMALL_PRIMES[i] <= 499
  {
    hide SMALL_PRIMES;
    assert SMALL_PRIMES[i] in SMALL_PRIMES;
    ListedPrime(SMALL_PRIMES[i]);
  }

  lemma NextTried(n: int, i: nat)
    requires i < |SMALL_PRIMES| && Tried(n, i) && 0 < SMALL_PRIMES[i] < n
    ensures if n % SMALL_PRIMES[i] == 0 then !OnlyListedFactor(n) else Tried(n, i + 1)
  {
    hide SMALL_PRIMES;
    assert n % SMALL_PRIMES[i] == 0 <==> Divides(SMALL_PRIMES[i], n);
  }

  lemma LastListed(n: int, d: int)
    requires Tried(n, |SMALL_PRIMES|) && d == SMALL_PRIMES[|SMALL_PRIMES| - 1]
    ensures d == 499 && OnlyListedFactor(n)
  {
    assert d == 499;
    hide SMALL_PRIMES;
  }

  lemma ListedIsAccepted(n: int, t0: int)
    requires n in SMALL_PRIMES && Prime(n) && n <= 499
    ensures Accepted(n, t0)
  {
    hide Prime, SMALL_PRIMES, PassesBases;
    PrimesFrom2(n);
    PrimeHasNoOther(n);
  }

  lemma PrimeHasNoOther(n: int)
    requires 2 <= n && Prime(n)
    ensures OnlyListedFactor(n)
  {
    hide Prime, SMALL_PRIMES;
    forall e | 0 <= e < |SMALL_PRIMES| ensures SMALL_PRIMES[e] == n || !Divides(SMALL_PRIMES[e], n) {
      assert SMALL_PRIMES[e] in SMALL_PRIMES;
      ListedPrime(SMALL_PRIMES[e]);
      OnlyItself(SMALL_PRIMES[e], n);
    }
  }

  /** No prime is rejected, and below 499^2 nothing else is accepted. */
  lemma AcceptedPrimes(n: int, t0: int)
    ensures Prime(n) ==> Accepted(n, t0)
    ensures Accepted(n, t0) ==> 2 <= n
    ensures n < 499 * 499 && Accepted(n, t0) ==> Prime(n)
  {
    hide Prime, SMALL_PRIMES, PassesBases;
    PrimesFrom2(n);
    if Prime(n) {
      PrimeHasNoOther(n);
      PrimePasses(n, t0);
      if 499 * 499 <= n {
        forall j: nat | j < |SMALL_PRIMES| ensures SMALL_PRIMES[j] != n {
          assert SMALL_PRIMES[j] in SMALL_PRIMES;
          ListedPrime(SMALL_PRIMES[j]);
        }
      }
    }
    if n < 499 * 499 && Accepted(n, t0) {
      if n in SMALL_PRIMES { ListedPrime(n); } else { NoListedFactor(n); }
    }
  }

  lemma PrimesFrom2(n: int)
    ensures Prime(n) ==> 2 <= n
  {
  }

  lemma NotBelow2(n0: int)
    ensures forall k :: n0 < k <= 1 ==> !Accepted(k, BASES) && !Prime(k)
  {
  }

  /** The next number that is accepted; no prime is skipped, and one is always found. */
  method NextPrime(n0: int) returns (n: int)
    ensures n0 < n && Accepted(n, BASES) && (n < 499 * 499 ==> Prime(n))
    ensures forall k :: n0 < k < n ==> !Accepted(k, BASES) && !Prime(k)
  {
    hide Prime, Accepted;
    NotBelow2(n0);
    n := if n0 < 1 then 1 else n0;
    ghost var bound := PrimeAbove(n);
    while true
      invariant 1 <= n < bound && n0 <= n
      invariant forall k :: n0 < k <= n ==> !Accepted(k, BASES) && !Prime(k)
      decreases bound - n
    {
      n := n + 1;
      var found := IsPrime(n, None);
      AcceptedPrimes(n, BASES);
      if found {
        return;
      }
    }
  }

  // ------------------------------------------------------------------ factor

  ghost function Times(r: seq<int>): int {
    if r == [] then 1 else Times(r[..|r| - 1]) * r[|r| - 1]
  }

  lemma TimesAppend(r: seq<int>, d: int)
    ensures Times(r + [d]) == Times(r) * d
  {
    assert (r + [d])[..|r|] == r;
  }

  /** Primes, in order; only the last may be a number that merely was accepted. */
  ghost predicate Factors(r: seq<int>) {
    forall i :: 0 <= i < |r| ==>
      && 2 <= r[i] && (Prime(r[i]) || (i == |r| - 1 && Accepted(r[i], BASES)))
      && (0 < i ==> r[i - 1] <= r[i])
  }

  /** No number from 2 to below d divides n. */
  ghost predicate NoneBelow(n: int, d: int) {
    forall e :: 2 <= e < d ==> n % e != 0
  }

  /** The least divisor of a number is prime. */
  lemma LeastIsPrime(n: int, d: int)
    requires 1 <= n && 2 <= d && NoneBelow(n, d) && n % d == 0
    ensures Prime(d) && d <= n
  {
    var k := Quotient(d, n);
    if k <= 0 { MulLe(k, 0, d); } else { MulLe(1, k, d); }
    forall e | 2 <= e < d ensures d % e != 0 {
      if d % e == 0 {
        var l := Quotient(e, d);
        Assoc(k, l, e);
        DividesBy(e, n, k * l);
      }
    }
  }

  /** A divisor of n / d divides n. */
  lemma StillNone(n: int, q: int, d: int)
    requires 2 <= d && n == q * d && NoneBelow(n, d)
    ensures NoneBelow(q, d)
  {
    forall e | 2 <= e < d ensures q % e != 0 {
      if q % e == 0 {
        var k := Quotient(e, q);
        assert n == (k * e) * d == (k * d) * e;
        DividesBy(e, n, k * d);
      }
    }
  }

  /** A composite number has a divisor from d on if it has none below. */
  lemma DivisorAhead(n: int, d: int) returns (p: int)
    requires 2 <= n && !Prime(n) && NoneBelow(n, d)
    ensures 2 <= p && d <= p < n && n % p == 0
  {
    p :| 2 <= p < n && n % p == 0;
  }

  /** A number that has no divisor below d has itself as a divisor from d on. */
  lemma AtLeast(n: int, d: int)
    requires 2 <= n && NoneBelow(n, d)
    ensures d <= n
  {
    if n < d { Rem(n, 1, 0, n); }
  }

  lemma AppendFactor(r: seq<int>, d: int)
    requires Factors(r) && (r == [] || (Prime(r[|r| - 1]) && r[|r| - 1] <= d)) && 2 <= d && (Prime(d) || Accepted(d, BASES))
    ensures Factors(r + [d]) && (r + [d])[|r|] == d
  {
  }

  /** Takes every factor d out of n. */
  method DivideOut(n0: int, d: int, r0: seq<int>) returns (n: int, r: seq<int>)
    requires 2 <= n0 && 2 <= d && n0 % d == 0 && NoneBelow(n0, d) && Factors(r0)
    requires r0 == [] || (Prime(r0[|r0| - 1]) && r0[|r0| - 1] <= d)
    ensures 1 <= n < n0 && NoneBelow(n, d + 1) && (n0 % 2 == 1 ==> n % 2 == 1)
    ensures Factors(r) && r != [] && Prime(r[|r| - 1]) && r[|r| - 1] == d && Times(r) * n == Times(r0) * n0
  {
    hide Prime, NoneBelow, Factors, Times;
    n, r := n0, r0;
    while true
      invariant 1 <= n <= n0 && n % d == 0 && NoneBelow(n, d) && (n0 % 2 == 1 ==> n % 2 == 1)
      invariant Factors(r) && (r == [] || (Prime(r[|r| - 1]) && r[|r| - 1] <= d)) && Times(r) * n == Times(r0) * n0
      decreases n
    {
      LeastIsPrime(n, d);
      ghost var n1 := n;
      AppendFactor(r, d);
      TimesAppend(r, d);
      r := r + [d];
      n := n / d;
      DividedOut(n1, d, n, Times(r[..|r| - 1]));
      assert r[..|r| - 1] + [d] == r;
      if n % d != 0 {
        OneMore(n, d);
        break;
      }
    }
  }

  lemma DividedOut(n1: int, d: int, n: int, v: int)
    requires 1 <= n1 && 2 <= d && n1 % d == 0 && n == n1 / d && NoneBelow(n1, d)
    ensures 1 <= n < n1 && NoneBelow(n, d) && (n1 % 2 == 1 ==> n % 2 == 1) && v * d * n == v * n1
  {
    hide NoneBelow;
    assert n1 == n * d;
    if n <= 0 { MulLe(n, 0, d); }
    MulLe(2, d, n);
    StillNone(n1, n, d);
    Assoc(v, d, n);
    if n % 2 == 0 { EvenTimes(n, d); }
  }

  lemma EvenTimes(n: int, d: int)
    requires n % 2 == 0
    ensures n * d % 2 == 0
  {
    var h := n / 2;
    Assoc(2, h, d);
    Rem(n * d, h * d, 0, 2);
  }

  lemma OneMore(n: int, d: int)
    requires 2 <= d && NoneBelow(n, d) && n % d != 0
    ensures NoneBelow(n, d + 1)
  {
  }

  lemma OddStep(n: int, d: int)
    requires 3 <= d && d % 2 == 1 && n % 2 == 1 && NoneBelow(n, d) && n % d != 0
    ensures NoneBelow(n, d + 2)
  {
    forall e | 2 <= e < d + 2 ensures n % e != 0 {
      if e == d + 1 && n % e == 0 {
        var k := Quotient(e, n);
        Assoc(k, 2, e / 2);
        Rem(n, k * (e / 2), 0, 2);
      }
    }
  }

  /** The least odd divisor from d on; the test has said that there is one. */
  method NextDivisor(n: int, d0: int) returns (d: int)
    requires 2 <= n && n % 2 == 1 && !Prime(n) && 3 <= d0 && d0 % 2 == 1 && NoneBelow(n, d0)
    ensures d0 <= d && d % 2 == 1 && n % d == 0 && NoneBelow(n, d)
  {
    hide Prime;
    d := d0;
    ghost var p := DivisorAhead(n, d0);
    while n % d != 0
      invariant d0 <= d <= p && d % 2 == 1 && NoneBelow(n, d)
      decreases p - d
    {
      OddStep(n, d);
      if p < d + 2 { assert false; }
      d := d + 2;
    }
  }

  /**
   Factorisation by trial division; the search for a divisor ends because a
   number that fails the test is composite.
   */
  method Factor(n0: int) returns (r: seq<int>)
    ensures Times(r) == n0
    ensures -1 <= n0 <= 1 ==> r == [n0]
    ensures 2 <= n0 ==> Factors(r)
    ensures n0 <= -2 ==> r != [] && r[0] == -1 && Factors(r[1..])
  {
    hide Prime, NoneBelow, Factors, Times;
    if -1 <= n0 <= 1 {
      TimesOne(n0);
      return [n0];
    }
    var n := if n0 < 0 then -n0 else n0;
    var fs := FactorAbove1(n);
    if n0 < 0 {
      TimesPrepend(-1, fs);
      r := [-1] + fs;
      assert r[1..] == fs;
    } else {
      r := fs;
    }
  }

  lemma TimesOne(n: int)
    ensures Times([n]) == n && Times([]) == 1
  {
    assert [n][..0] == [];
  }

  lemma {:induction false} TimesPrepend(x: int, r: seq<int>)
    ensures Times([x] + r) == x * Times(r)
  {
    if r == [] {
      TimesOne(x);
      assert [x] + r == [x];
    } else {
      TimesPrepend(x, r[..|r| - 1]);
      assert ([x] + r)[..|r|] == [x] + r[..|r| - 1];
      Assoc(x, Times(r[..|r| - 1]), r[|r| - 1]);
    }
  }

  method FactorAbove1(n0: int) returns (r: seq<int>)
    requires 2 <= n0
    ensures Times(r) == n0 && Factors(r)
  {
    hide Prime, NoneBelow, Factors, Times;
    var n := n0;
    r := [];
    StartFactors(n);
    if n % 2 == 0 {
      n, r := DivideOut(n, 2, r);
      BelowThree(n);
    } else {
      BelowThree2(n);
    }
    var d := 3;
    while n != 1
      invariant 1 <= n && n % 2 == 1 && 3 <= d && d % 2 == 1 && NoneBelow(n, d)
      invariant Factors(r) && (r == [] || (Prime(r[|r| - 1]) && r[|r| - 1] <= d)) && Times(r) * n == n0
      decreases n
    {
      var prime := IsPrime(n, None);
      AcceptedPrimes(n, BASES);
      if prime {
        AtLeast(n, d);
        AppendFactor(r, n);
        TimesAppend(r, n);
        r := r + [n];
        return;
      }
      d := NextDivisor(n, d);
      n, r := DivideOut(n, d, r);
      Shorter(n, d);
    }
  }

  lemma StartFactors(n: int)
    ensures Factors([]) && Times([]) == 1 && NoneBelow(n, 2)
  {
  }

  lemma BelowThree(n: int)
    requires NoneBelow(n, 3)
    ensures n % 2 == 1
  {
    assert n % 2 != 0;
  }

  lemma BelowThree2(n: int)
    requires n % 2 == 1
    ensures NoneBelow(n, 3)
  {
  }

  lemma Shorter(n: int, d: int)
    requires NoneBelow(n, d + 1)
    ensures NoneBelow(n, d)
  {
  }
}
