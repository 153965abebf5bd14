/**
 Congruence of integers, and powers.
 */
module Congruence {
  import opened Limbs

  ghost predicate Cong(a: int, b: int, m: int)
    requires 0 < m
  {
    a % m == b % m
  }

  /** x^n */
  function Pow(x: int, n: nat): int {
    if n == 0 then 1 else x * Pow(x, n - 1)
  }

  lemma Rem(a: int, q: int, r: int, m: int)
    requires 0 <= r < m && a == q * m + r
    ensures a % m == r && a / m == q
  {
    var d := a / m - q;
    assert a == (a / m) * m + a % m;
    Dist(a / m, q, m);
    assert d * m == r - a % m;
    if 0 < d { MulLe(1, d, m); }
    if d < 0 { MulLe(d, -1, m); }
  }

  lemma CongBy(a: int, b: int, k: int, m: int)
    requires 0 < m && a == b + k * m
    ensures Cong(a, b, m)
  {
    Dist(b / m, k, m);
    Rem(a, b / m + k, b % m, m);
  }

  lemma Multiple(a: int, b: int, m: int) returns (k: int)
    requires 0 < m && Cong(a, b, m)
    ensures a == b + k * m
  {
    k := a / m - b / m;
    Dist(a / m, b / m, m);
  }

  lemma CongMod(a: int, m: int)
    requires 0 < m
    ensures 0 <= a % m < m && Cong(a % m, a, m) && Cong(a, a % m, m)
  {
    Rem(a % m, 0, a % m, m);
  }

  /** Two numbers below the modulus that are congruent are equal. */
  lemma CongSmall(a: int, b: int, m: int)
    requires 0 <= a < m && 0 <= b < m && Cong(a, b, m)
    ensures a == b
  {
    Rem(a, 0, a, m);
    Rem(b, 0, b, m);
  }

  lemma CongAdd(a: int, a': int, b: int, b': int, m: int)
    requires 0 < m && Cong(a, a', m) && Cong(b, b', m)
    ensures Cong(a + b, a' + b', m) && Cong(a - b, a' - b', m)
  {
    var k := Multiple(a, a', m);
    var l := Multiple(b, b', m);
    Dist(k, l, m);
    CongBy(a + b, a' + b', k + l, m);
    CongBy(a - b, a' - b', k - l, m);
  }

  lemma CongMul(a: int, a': int, b: int, b': int, m: int)
    requires 0 < m && Cong(a, a', m) && Cong(b, b', m)
    ensures Cong(a * b, a' * b', m)
  {
    var k := Multiple(a, a', m);
    var l := Multiple(b, b', m);
    calc {
      a * b;
      (a' + k * m) * b;
      { Dist(a', k * m, b); }
      a' * (b' + l * m) + k * m * b;
      { DistL(a', b', l * m); Assoc(a', l, m); assert k * m * b == k * b * m; Dist(a' * l, k * b, m); }
      a' * b' + (a' * l + k * b) * m;
    }
    CongBy(a * b, a' * b', a' * l + k * b, m);
  }

  lemma {:induction false} CongPow(a: int, b: int, n: nat, m: int)
    requires 0 < m && Cong(a, b, m)
    ensures Cong(Pow(a, n), Pow(b, n), m)
  {
    if n != 0 {
      CongPow(a, b, n - 1, m);
      CongMul(a, b, Pow(a, n - 1), Pow(b, n - 1), m);
    }
  }

  lemma {:induction false} PowAdd(x: int, a: nat, b: nat)
    ensures Pow(x, a + b) == Pow(x, a) * Pow(x, b)
  {
    if a != 0 {
      PowAdd(x, a - 1, b);
      assert Pow(x, a + b) == x * Pow(x, (a - 1) + b);
      Assoc(x, Pow(x, a - 1), Pow(x, b));
    }
  }

  lemma {:induction false} PowTimes(x: int, y: int, n: nat)
    ensures Pow(x * y, n) == Pow(x, n) * Pow(y, n)
  {
    if n != 0 {
      PowTimes(x, y, n - 1);
      calc {
        x * y * (Pow(x, n - 1) * Pow(y, n - 1));
        x * (y * (Pow(x, n - 1) * Pow(y, n - 1)));
        { Assoc(y, Pow(x, n - 1), Pow(y, n - 1)); }
        x * (Pow(x, n - 1) * (y * Pow(y, n - 1)));
        { Assoc(x, Pow(x, n - 1), y * Pow(y, n - 1)); }
        (x * Pow(x, n - 1)) * (y * Pow(y, n - 1));
      }
    }
  }

  lemma {:induction false} PowPow(x: int, a: nat, b: nat)
    ensures 0 <= a * b && Pow(Pow(x, a), b) == Pow(x, a * b)
  {
    MulLe(0, a, b);
    if b == 0 {
    } else {
      PowPow(x, a, b - 1);
      DistL(a, b, 1);
      PowAdd(x, a, a * (b - 1));
    }
  }

  lemma {:induction false} PowOne(n: nat)
    ensures Pow(1, n) == 1
  {
    if n != 0 { PowOne(n - 1); }
  }

  lemma PowSmall(x: int)
    ensures Pow(x, 1) == x && Pow(x, 2) == x * x
  {
    assert Pow(x, 1) == x * Pow(x, 0);
    assert Pow(x, 2) == x * Pow(x, 1);
  }
}
