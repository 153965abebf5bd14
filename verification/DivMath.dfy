/**
 The inequalities behind Newton's reciprocal and behind division by an approximate reciprocal.
 */
module DivMath {
  import opened Limbs

  /** `r` is the reciprocal of the n-limb number `a`, up to two units. */
  ghost predicate IsRecip(a: int, r: int, n: nat) {
    a * r < BP(2 * n) < a * (r + 2)
  }

  /**
   One Newton step (algorithm 3.5 of Brent and Zimmermann): `xh` is a reciprocal of the top h limbs,
   T = B^(n+h) - a * xh == tm * B^l + tl, and U = tm * xh == f * B^(2h-l) + u.
   */
  lemma NewtonStep(a: int, n: nat, l: nat, h: nat, xh: int, tm: int, tl: int, f: int, u: int)
    requires l < h && n == l + h && 2 * a >= BP(n) && a < BP(n)
    requires 0 <= tm && 0 <= tl < BP(l) && 0 <= u < BP(2 * h - l) && 0 <= xh
    requires BP(n + h) - a * xh == tm * BP(l) + tl && 0 < tm * BP(l) + tl < 2 * a
    requires tm * xh == f * BP(2 * h - l) + u
    ensures IsRecip(a, xh * BP(l) + f, n)
  {
    hide BP;
    var t := tm * BP(l) + tl;
    var g := BP(2 * n) - a * (xh * BP(l) + f);
    NewtonIdentity(a, n, l, h, xh, tm, tl, f, u);
    NewtonError(a, n, l, h, tm, tl);
    RestPositive(tm, tl, t, BP(2 * h));
    Squeeze(BP(2 * h - l), g, a, tl * BP(2 * h) + tm * t, u);
    DistL(a, xh * BP(l) + f, 2);
  }

  lemma RestPositive(tm: int, tl: int, t: int, p: int)
    requires 0 <= tm && 0 <= tl && 0 < t && 0 < p && (tm == 0 ==> 0 < tl)
    ensures 0 < tl * p + tm * t
  {
    MulLe(0, tl, p);
    MulLe(0, tm, t);
    if tm == 0 { MulLe(1, tl, p); } else { MulLe(1, tm, t); }
  }

  lemma Squeeze(d: int, g: int, a: int, rest: int, u: int)
    requires 0 < d && 0 < a && d * g == rest + a * u && 0 < rest <= d * a && 0 <= u < d
    ensures 0 < g < 2 * a
  {
    MulLe(0, u, a);
    MulLt(u, d, a);
    DistL(d, a, a);
    LtMul(0, g, d);
    LtMul(g, a + a, d);
  }

  /** The error after the step, times B^(2h-l). */
  lemma NewtonIdentity(a: int, n: nat, l: nat, h: nat, xh: int, tm: int, tl: int, f: int, u: int)
    requires l < h && n == l + h
    requires BP(n + h) - a * xh == tm * BP(l) + tl && tm * xh == f * BP(2 * h - l) + u
    ensures BP(2 * h - l) * (BP(2 * n) - a * (xh * BP(l) + f))
         == tl * BP(2 * h) + tm * (tm * BP(l) + tl) + a * u
  {
    hide BP;
    var d, t, p := BP(2 * h - l), tm * BP(l) + tl, BP(2 * h);
    BPAdd(2 * h - l, 2 * n);
    BPAdd(n + h, 2 * h);
    BPAdd(l, 2 * h - l);
    BPAdd(l, 2 * h);
    assert BP(l) * p == BP(n + h) && d * BP(2 * n) == BP(n + h) * p && BP(l) * d == p;
    calc {
      d * (BP(2 * n) - a * (xh * BP(l) + f));
      { DistL(d, BP(2 * n), a * (xh * BP(l) + f)); DistL(a, xh * BP(l), f); DistL(d, a * (xh * BP(l)), a * f); }
      d * BP(2 * n) - d * (a * (xh * BP(l))) - d * (a * f);
      { Shuffle(d, a, xh, BP(l)); Assoc(d, a, f); assert d * (a * f) == a * (f * d); }
      BP(n + h) * p - a * xh * p - a * (f * d);
      { Dist(BP(n + h), a * xh, p); }
      t * p - a * (f * d);
      { DistL(a, tm * xh, u); }
      t * p - a * (tm * xh) + a * u;
      { Assoc(a, tm, xh); assert a * (tm * xh) == tm * (a * xh); DistL(tm, BP(n + h), t); }
      t * p - tm * BP(n + h) + tm * t + a * u;
      { Dist(tm * BP(l), tl, p); Assoc(tm, BP(l), p); }
      tl * p + tm * t + a * u;
    }
  }

  lemma Shuffle(d: int, a: int, x: int, q: int)
    ensures d * (a * (x * q)) == a * x * (q * d)
  {
    Assoc(a, x, q);
    assert d * (a * x * q) == a * x * (q * d);
  }

  lemma NewtonError(a: int, n: nat, l: nat, h: nat, tm: int, tl: int)
    requires l < h && n == l + h && 2 * a >= BP(n) && a < BP(n)
    requires 0 <= tm && 0 <= tl < BP(l) && tm * BP(l) + tl < 2 * a
    ensures tl * BP(2 * h) + tm * (tm * BP(l) + tl) <= BP(2 * h - l) * a
  {
    hide BP;
    var t, g := tm * BP(l) + tl, BP(h);
    LowPart(a, n, l, h, tl);
    HighPart(a, n, l, h, tm, t);
    // 6 * B^h <= B^(2h-l)
    BPAdd(h, h - l);
    PowBig(h - l);
    MulLe(6, BP(h - l), g);
    MulLe(g * 6, BP(2 * h - l), a);
    Assoc(6, g, a);
  }

  lemma LowPart(a: int, n: nat, l: nat, h: nat, tl: int)
    requires n == l + h && 2 * a >= BP(n) && tl < BP(l)
    ensures tl * BP(2 * h) <= 2 * (BP(h) * a)
  {
    hide BP;
    BPAdd(l, 2 * h);
    BPAdd(n, h);
    MulLe(tl, BP(l), BP(2 * h));
    MulLe(BP(n), 2 * a, BP(h));
    Assoc(2, a, BP(h));
  }

  lemma HighPart(a: int, n: nat, l: nat, h: nat, tm: int, t: int)
    requires n == l + h && a < BP(n) && 0 <= tm && 0 < a
    requires tm * BP(l) <= t < 2 * a
    ensures tm * t <= 4 * (BP(h) * a)
  {
    hide BP;
    BPAdd(h, l);
    var g := BP(h);
    Assoc(2, g, BP(l));
    LtMul(tm, 2 * g, BP(l));
    MulLe(t, 2 * a, tm);
    MulLe(tm, 2 * g, 2 * a);
    Fours(g, a);
  }

  lemma Fours(g: int, a: int)
    ensures 2 * g * (2 * a) == 4 * (g * a)
  {
  }

  lemma PowBig(k: nat)
    requires 0 < k
    ensures B <= BP(k)
  {
    MulLe(1, BP(k - 1), B);
  }

  /** The reciprocal of a normalized number has top limb 1. */
  lemma RecipRange(a: int, r: int, n: nat)
    requires 2 * a >= BP(n) && 0 < a < BP(n) && a * r < BP(2 * n)
    ensures r < 2 * BP(n)
  {
    hide BP;
    BPAdd(n, n);
    MulLe(BP(n), 2 * a, BP(n));
    Assoc(2, a, BP(n));
    Assoc(2, BP(n), a);
    LtMul(r, 2 * BP(n), a);
  }

  /** The exact quotient of B^(2n), made smaller by one if the division leaves nothing. */
  lemma BaseRecip(a: int, n: nat, q: int, rem: int, r: int)
    requires 2 * a >= BP(n) && 0 < a < BP(n) && BP(2 * n) == q * a + rem && 0 <= rem < a
    requires r == if rem == 0 then q - 1 else q
    ensures IsRecip(a, r, n) && BP(n) <= r < 2 * BP(n) && q <= 2 * BP(n)
  {
    hide BP;
    DistL(a, r, 2);
    DistL(a, q, 1);
    assert IsRecip(a, r, n);
    RecipRange(a, r, n);
    BPAdd(n, n);
    MulLt(a, BP(n), BP(n));
    // r + 1 > B^n, since a * (r + 1) >= B^(2n) > a * B^n
    DistL(a, r, 1);
    LtMul(BP(n), r + 1, a);
  }

  /** What the reciprocal of the divisor's top limbs, made larger if they were cut, is for the divisor. */
  lemma CutRecip(b: int, nb: nat, n: nat, bt: int, r: int)
    requires n <= nb && bt <= BP(n) && 2 * bt >= BP(n) && 14 < BP(n)
    requires b < bt * BP(nb - n) && (bt - 1) * BP(nb - n) <= b
    requires 0 <= r < 2 * BP(n) && bt * r <= BP(2 * n) < bt * (r + 2)
    ensures b * r <= BP(n + nb) <= b * (r + 7)
  {
    hide BP;
    BPAdd(2 * n, nb - n);
    CutBelow(b, bt, r, BP(nb - n), BP(2 * n));
    Dist(bt, 1, r + 7);
    DistL(bt, r + 2, 5);
    CutAbove(b, bt, r, BP(nb - n), BP(2 * n));
  }

  lemma CutBelow(b: int, bt: int, r: int, s: int, p: int)
    requires b <= bt * s && bt * r <= p && 0 <= r && 0 <= s
    ensures b * r <= p * s
  {
    MulLe(b, bt * s, r);
    MulLe(bt * r, p, s);
    assert bt * s * r == bt * r * s;
  }

  lemma CutAbove(b: int, bt: int, r: int, s: int, p: int)
    requires (bt - 1) * s <= b && p <= (bt - 1) * (r + 7) && 0 <= r && 0 <= s
    ensures p * s <= b * (r + 7)
  {
    var c, d := bt - 1, r + 7;
    MulLe(c * s, b, d);
    MulLe(p, c * d, s);
    assert c * s * d == c * d * s;
  }

  /** The same when the divisor is extended with zero limbs. */
  lemma ExtendedRecip(b: int, nb: nat, n: nat, r: int)
    requires nb <= n && 0 <= b && 0 <= r && IsRecip(b * BP(n - nb), r, n)
    ensures b * r <= BP(n + nb) <= b * (r + 7)
  {
    hide BP;
    var s := BP(n - nb);
    BPAdd(n + nb, n - nb);
    assert b * s * r == b * r * s && b * s * (r + 2) == b * (r + 2) * s;
    LtMul(b * r, BP(n + nb), s);
    LtMul(BP(n + nb), b * (r + 2), s);
    MulLe(r + 2, r + 7, b);
  }

  /**
   The quotient by the approximate reciprocal never exceeds the true one and is at most a few units
   smaller: a == ah * B^f + al, q == floor(r * ah / B^e).
   */
  lemma FirstQuotient(a: int, b: int, r: int, ah: int, al: int, q: int, rho: int, e: nat, f: nat)
    requires b * r <= BP(e + f) <= b * (r + 7) && 0 <= b && BP(f) <= b
    requires a == ah * BP(f) + al && 0 <= al < BP(f) && 0 <= ah < BP(e)
    requires r * ah == q * BP(e) + rho && 0 <= rho < BP(e)
    ensures 0 <= a - q * b < 9 * b
  {
    hide BP;
    var x := BP(e);
    BPAdd(e, f);
    var m := ah * BP(f) - q * b;
    // x * m == ah * (B^(e+f) - b * r) + b * rho
    assert x * m == ah * (BP(e + f) - b * r) + b * rho by { QuotientIdentity(b, r, ah, q, rho, x, BP(f)); }
    var g := BP(e + f) - b * r;
    DistL(b, r, 7);
    assert 0 <= g <= 7 * b;
    MulLe(0, ah, g);
    MulLe(0, rho, b);
    MulLe(g, 7 * b, ah);
    MulLe(ah, x, 7 * b);
    MulLe(rho, x, b);
    assert 0 <= x * m <= 8 * b * x by { assert 7 * b * x + b * x == 8 * b * x; }
    LeMul(0, m, x);
    LeMul(m, 8 * b, x);
  }

  lemma QuotientIdentity(b: int, r: int, ah: int, q: int, rho: int, x: int, y: int)
    requires r * ah == q * x + rho
    ensures x * (ah * y - q * b) == ah * (x * y - b * r) + b * rho
  {
    calc {
      x * (ah * y - q * b);
      { DistL(x, ah * y, q * b); Assoc(x, ah, y); assert x * (q * b) == b * (q * x); }
      ah * (x * y) - b * (q * x);
      { DistL(b, q * x, rho); }
      ah * (x * y) - b * (r * ah) + b * rho;
      { assert b * (r * ah) == ah * (b * r); DistL(ah, x * y, b * r); }
      ah * (x * y - b * r) + b * rho;
    }
  }
}
