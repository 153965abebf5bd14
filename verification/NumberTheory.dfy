/**
 Primes, Euclid's lemma and Fermat's little theorem.
 */
module NumberTheory {
  import opened Limbs
  import opened Congruence

  ghost predicate Prime(n: int) {
    2 <= n && forall d :: 2 <= d < n ==> n % d != 0
  }

  ghost predicate Divides(d: int, n: int) {
    d != 0 && n % d == 0
  }

  lemma DividesBy(d: int, n: int, k: int)
    requires 0 < d && n == k * d
    ensures Divides(d, n)
  {
    Rem(n, k, 0, d);
  }

  lemma Quotient(d: int, n: int) returns (k: int)
    requires 0 < d && Divides(d, n)
    ensures n == k * d
  {
    k := n / d;
  }

  /** A number from 2 on has a prime factor: its least factor. */
  lemma LeastFactor(n: int) returns (p: int)
    requires 2 <= n
    ensures Prime(p) && p <= n && Divides(p, n)
  {
    p := 2;
    while n % p != 0
      invariant 2 <= p <= n && forall d :: 2 <= d < p ==> n % d != 0
      decreases n - p
    {
      if p == n { Rem(n, 1, 0, n); }
      p := p + 1;
    }
    forall d | 2 <= d < p ensures p % d != 0 {
      if p % d == 0 {
        var k := Quotient(p, n);
        var l := Quotient(d, p);
        Assoc(k, l, d);
        DividesBy(d, n, k * l);
      }
    }
  }

  /** A composite number has a prime factor at most its square root. */
  lemma SmallPrimeFactor(n: int) returns (p: int)
    requires 2 <= n && !Prime(n)
    ensures Prime(p) && Divides(p, n) && p * p <= n
  {
    p := LeastFactor(n);
    var d :| 2 <= d < n && n % d == 0;
    var k := Quotient(d, n);
    if k <= 1 { MulLe(k, 1, d); }
    // the least prime factor of the smaller of d and k
    if d <= k { p := FactorOfFactor(n, d, k); } else { p := FactorOfFactor(n, k, d); }
  }

  lemma FactorOfFactor(n: int, d: int, k: int) returns (p: int)
    requires 2 <= d <= k && n == k * d
    ensures Prime(p) && Divides(p, n) && p * p <= n
  {
    hide Prime;
    p := LeastFactor(d);
    var l := Quotient(p, d);
    Assoc(k, l, p);
    DividesBy(p, n, k * l);
    MulLe(p, d, p);
    MulLe(p, k, d);
  }

  // ------------------------------------------------------------ Euclid's lemma

  /** The greatest common divisor as a combination. */
  lemma Bezout(a: nat, b: nat) returns (g: int, x: int, y: int)
    requires 0 < a || 0 < b
    ensures 0 < g && Divides(g, a) && Divides(g, b) && a * x + b * y == g
    decreases b
  {
    if b == 0 {
      g, x, y := a, 1, 0;
      DividesBy(g, a, 1);
      DividesBy(g, 0, 0);
    } else {
      var q, r := a / b, a % b;
      var x', y';
      g, x', y' := Bezout(b, r);
      x, y := y', x' - q * y';
      var k := Quotient(g, b);
      var l := Quotient(g, r);
      assert a == q * b + r;
      Assoc(q, k, g);
      Dist(q * k, l, g);
      DividesBy(g, a, q * k + l);
      calc {
        a * x + b * y;
        (q * b + r) * y' + b * (x' - q * y');
        { Dist(q * b, r, y'); DistL(b, x', q * y'); assert q * b * y' == b * (q * y'); }
        r * y' + b * x';
      }
    }
  }

  /** A number that a prime does not divide has an inverse modulo the prime. */
  lemma PrimeInverse(a: nat, p: int) returns (x: int)
    requires Prime(p) && !Divides(p, a)
    ensures Cong(a * x, 1, p)
  {
    var g, u, y := Bezout(a, p);
    var k := Quotient(g, p);
    if p < g { MulLe(g, p, 0); if k <= 0 { MulLe(k, 0, g); } else { MulLe(1, k, g); } }
    x := u;
    CongBy(a * x, 1, -y, p);
  }

  lemma Euclid(a: nat, b: nat, p: int)
    requires Prime(p) && Divides(p, a * b)
    ensures Divides(p, a) || Divides(p, b)
  {
    if !Divides(p, a) {
      var x := PrimeInverse(a, p);
      var k := Quotient(p, a * b);
      // b == b * (a * x) == (a * b) * x modulo p
      var m := Multiple(a * x, 1, p);
      assert a * x == 1 + m * p;
      assert b * (a * x) == (a * b) * x;
      DistL(b, 1, m * p);
      Assoc(b, m, p);
      assert k * p * x == k * x * p;
      Dist(k * x, b * m, p);
      DividesBy(p, b, k * x - b * m);
    }
  }

  /** Modulo a prime, 1 has only the square roots 1 and -1. */
  lemma SquareRootsOfOne(r: nat, p: int)
    requires Prime(p) && r < p && Cong(r * r, 1, p)
    ensures r == 1 || r == p - 1
  {
    if r == 0 {
      Rem(1, 0, 1, p);
      Rem(0, 0, 0, p);
    } else {
      var k := Multiple(r * r, 1, p);
      Dist(r, 1, r + 1);
      assert (r - 1) * (r + 1) == r * r - 1;
      DividesBy(p, (r - 1) * (r + 1), k);
      Euclid(r - 1, r + 1, p);
      if Divides(p, r - 1) { Rem(r - 1, 0, r - 1, p); } else if r + 1 < p { Rem(r + 1, 0, r + 1, p); }
    }
  }

  // --------------------------------------------------- Fermat's little theorem

  ghost function ProdSet(s: set<int>): int
    decreases s
  {
    if exists x :: x in s then var x :| x in s; x * ProdSet(s - {x}) else 1
  }

  lemma {:induction false} ProdRemove(s: set<int>, x: int)
    requires x in s
    ensures ProdSet(s) == x * ProdSet(s - {x})
    decreases s
  {
    var y :| y in s && ProdSet(s) == y * ProdSet(s - {y});
    if y != x {
      ProdRemove(s - {y}, x);
      ProdRemove(s - {x}, y);
      assert s - {y} - {x} == s - {x} - {y};
      var r := ProdSet(s - {x} - {y});
      Assoc(x, y, r);
    }
  }

  ghost function Factorial(n: nat): (f: int)
    ensures 0 < f
  {
    if n == 0 then 1 else Positive(n, Factorial(n - 1)); n * Factorial(n - 1)
  }

  lemma Positive(a: int, b: int)
    requires 0 < a && 0 < b
    ensures 0 < a * b
  {
    MulLt(0, a, b);
  }

  /** 1, ..., n */
  ghost function UpTo(n: nat): (s: set<int>)
    ensures forall i :: i in s <==> 1 <= i <= n
  {
    if n == 0 then {} else UpTo(n - 1) + {n}
  }

  lemma {:induction false} UpToProduct(n: nat)
    ensures |UpTo(n)| == n && ProdSet(UpTo(n)) == Factorial(n)
  {
    if n == 0 {
    } else {
      UpToProduct(n - 1);
      assert UpTo(n) - {n} == UpTo(n - 1);
      ProdRemove(UpTo(n), n);
    }
  }

  /** The remainders of a, 2a, ..., ka. */
  ghost function Multiples(a: int, p: int, k: nat): set<int>
    requires 0 < p
  {
    set i | 1 <= i <= k :: a * i % p
  }

  lemma NewMultiple(a: nat, p: int, i: nat, k: nat)
    requires Prime(p) && !Divides(p, a) && i < k < p
    ensures a * k % p != a * i % p
  {
    if a * k % p == a * i % p {
      var m := Multiple(a * k, a * i, p);
      DistL(a, k, i);
      DividesBy(p, a * (k - i), m);
      Euclid(a, k - i, p);
      Rem(k - i, 0, k - i, p);
    }
  }

  lemma {:induction false} MultiplesProduct(a: nat, p: int, k: nat)
    requires Prime(p) && !Divides(p, a) && k < p
    ensures Multiples(a, p, k) <= UpTo(p - 1) && |Multiples(a, p, k)| == k
    ensures Cong(ProdSet(Multiples(a, p, k)), Pow(a, k) * Factorial(k), p)
  {
    if k == 0 {
      assert Multiples(a, p, 0) == {};
    } else {
      MultiplesProduct(a, p, k - 1);
      var s, t, x := Multiples(a, p, k), Multiples(a, p, k - 1), a * k % p;
      assert s == t + {x};
      assert x !in t by {
        if x in t {
          var i :| 1 <= i <= k - 1 && x == a * i % p;
          NewMultiple(a, p, i, k);
        }
      }
      NewMultiple(a, p, 0, k);
      Rem(0, 0, 0, p);
      assert s - {x} == t;
      ProdRemove(s, x);
      CongMod(a * k, p);
      CongMul(x, a * k, ProdSet(t), Pow(a, k - 1) * Factorial(k - 1), p);
      Regroup(a, k, Pow(a, k - 1), Factorial(k - 1));
    }
  }

  lemma Regroup(a: int, k: int, u: int, v: int)
    ensures (a * k) * (u * v) == (a * u) * (k * v)
  {
    Assoc(a, k, u * v);
    Assoc(k, u, v);
    Assoc(a, u, k * v);
  }

  lemma {:induction false} FactorialPrime(n: nat, p: int)
    requires Prime(p) && n < p
    ensures !Divides(p, Factorial(n))
  {
    if n == 0 {
      Rem(1, 0, 1, p);
    } else {
      FactorialPrime(n - 1, p);
      Rem(n, 0, n, p);
      if Divides(p, Factorial(n)) {
        Euclid(n, Factorial(n - 1), p);
      }
    }
  }

  lemma {:induction false} SubsetCard(s: set<int>, t: set<int>)
    requires s <= t && |s| == |t|
    ensures s == t
  {
    if exists x :: x in t && x !in s {
      var x :| x in t && x !in s;
      CardLe(s, t - {x});
    }
  }

  lemma {:induction false} CardLe(s: set<int>, t: set<int>)
    requires s <= t
    ensures |s| <= |t|
    decreases s
  {
    if exists x :: x in s {
      var x :| x in s;
      CardLe(s - {x}, t - {x});
    }
  }

  lemma Fermat(a: nat, p: int)
    requires Prime(p) && !Divides(p, a)
    ensures Cong(Pow(a, p - 1), 1, p)
  {
    hide ProdSet, Multiples, UpTo, Factorial, Pow;
    var k := p - 1;
    MultiplesProduct(a, p, k);
    UpToProduct(k);
    SubsetCard(Multiples(a, p, k), UpTo(k));
    NonnegPow(a, k);
    FactorialPrime(k, p);
    CancelFactor(Factorial(k), Pow(a, k), p);
  }

  /** A factor that the prime does not divide can be cancelled. */
  lemma CancelFactor(f: nat, e: nat, p: int)
    requires Prime(p) && !Divides(p, f) && Cong(f, e * f, p)
    ensures Cong(e, 1, p)
  {
    var m := Multiple(f, e * f, p);
    if e == 0 {
      DividesBy(p, f, m);
    } else {
      Dist(e, 1, f);
      DividesBy(p, f * (e - 1), -m);
      Euclid(f, e - 1, p);
      var q := Quotient(p, e - 1);
      CongBy(e, 1, q, p);
    }
  }

  lemma {:induction false} NonnegPow(a: nat, k: nat)
    ensures 0 <= Pow(a, k)
  {
    if k != 0 { NonnegPow(a, k - 1); MulLe(0, a, Pow(a, k - 1)); }
  }

  // ------------------------------------------------------ primes never run out

  lemma {:induction false} FactorialDivides(n: nat, d: int)
    requires 1 <= d <= n
    ensures Divides(d, Factorial(n))
  {
    if d == n {
      DividesBy(d, Factorial(n), Factorial(n - 1));
    } else {
      FactorialDivides(n - 1, d);
      var k := Quotient(d, Factorial(n - 1));
      Assoc(n, k, d);
      DividesBy(d, Factorial(n), n * k);
    }
  }

  lemma PrimeAbove(n: nat) returns (p: int)
    ensures Prime(p) && n < p
  {
    p := LeastFactor(Factorial(n) + 1);
    if p <= n {
      FactorialDivides(n, p);
      var k := Quotient(p, Factorial(n));
      Rem(Factorial(n) + 1, k, 1, p);
    }
  }
}
