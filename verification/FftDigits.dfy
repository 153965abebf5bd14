/**
 Numbers as polynomials in a power of two, their product as a convolution, and
 the Chinese remainder form of its coefficients.
 */
module FftDigits {
  import opened Limbs
  import opened Congruence
  import opened Dft
  import opened Udiv
  import opened Rounding

  // ------------------------------------------------------------------ digits

  lemma {:induction false} PowPositive(x: int, n: nat)
    requires 0 < x
    ensures 0 < Pow(x, n)
  {
    if n != 0 { PowPositive(x, n - 1); MulLt(0, x, Pow(x, n - 1)); }
  }

  /** Digit i of v in base x. */
  ghost function Digit(v: nat, x: nat, i: nat): int
    requires 0 < x
  {
    PowPositive(x, i);
    v / Pow(x, i) % x
  }

  /** The n low digits. */
  ghost function Digits(v: nat, x: nat, n: nat): (d: seq<int>)
    requires 0 < x
    ensures |d| == n
  {
    seq(n, i requires 0 <= i < n => Digit(v, x, i))
  }

  lemma DigitRange(v: nat, x: nat, i: nat)
    requires 0 < x
    ensures 0 <= Digit(v, x, i) < x
  {
  }

  lemma NextDigit(v: nat, x: nat, i: nat)
    requires 0 < x
    ensures 0 <= v / x && Digit(v, x, i + 1) == Digit(v / x, x, i) && Digit(v, x, 0) == v % x
  {
    DivMod(v, x);
    PowPositive(x, i);
    PowPositive(x, i + 1);
    DivByProduct(v, x, Pow(x, i));
    QuotientIs(v, 1, v, 0);
  }

  lemma DivByProduct(v: nat, a: nat, b: nat)
    requires 0 < a && 0 < b
    ensures 0 < a * b && v / (a * b) == v / a / b
  {
    var q, r := v / a, v % a;
    DivMod(v, a);
    DivMod(q, b);
    MulLt(0, a, b);
    Dist(q / b * b, q % b, a);
    Assoc(q / b, b, a);
    MulLe(q % b + 1, b, a);
    Dist(q % b, 1, a);
    MulLe(0, q % b, a);
    QuotientIs(v, a * b, q / b, a * (q % b) + r);
  }

  /** The digits of a number short enough give it back. */
  lemma {:induction false} DigitsValue(v: nat, x: nat, n: nat)
    requires 0 < x && v < Pow(x, n)
    ensures Eval(Digits(v, x, n), x) == v
    decreases n
  {
    if n == 0 {
      assert Digits(v, x, n) == [];
    } else {
      hide Digit, Digits, Eval;
      var q := v / x;
      ShorterRest(v, x, Pow(x, n - 1));
      DigitsValue(q, x, n - 1);
      DigitsRest(v, x, n);
      SplitEval(Digits(v, x, n), x);
      DigitPlus(v, x);
    }
  }

  lemma DigitPlus(v: int, x: int)
    requires 0 < x
    ensures v % x + x * (v / x) == v
  {
  }

  lemma SplitEval(d: seq<int>, x: int)
    requires d != []
    ensures Eval(d, x) == d[0] + x * Eval(d[1..], x)
  {
  }

  lemma DigitsRest(v: nat, x: nat, n: nat)
    requires 0 < x && 0 < n
    ensures 0 <= v / x && Digits(v, x, n)[1..] == Digits(v / x, x, n - 1) && Digits(v, x, n)[0] == v % x
  {
    hide Digit;
    NextDigit(v, x, 0);
    forall i | 0 <= i < n - 1 ensures Digit(v, x, i + 1) == Digit(v / x, x, i) { NextDigit(v, x, i); }
  }

  lemma ShorterRest(v: nat, x: nat, p: int)
    requires 0 < x && v < x * p
    ensures 0 <= v / x < p
  {
    DivMod(v, x);
    LtMul(v / x, p, x);
  }

  lemma DigitsEnd(v: nat, x: nat, n: nat, t: nat, i: nat)
    requires 1 < x && v < Pow(x, t) && t <= i < n
    ensures Digits(v, x, n)[i] == 0
  {
    hide Pow;
    PowGrows(x, t, i);
    QuotientIs(v, Pow(x, i), 0, v);
    QuotientIs(0, x, 0, 0);
  }

  lemma PowGrows(x: nat, t: nat, i: nat)
    requires 1 <= x && t <= i
    ensures 0 < Pow(x, t) <= Pow(x, i)
  {
    PowPositive(x, t);
    PowPositive(x, i - t);
    PowAdd(x, t, i - t);
    MulLe(1, Pow(x, i - t), Pow(x, t));
  }

  // ----------------------------------------------------------------- product

  lemma RotateExact(b: seq<int>, t: nat, x: int) returns (r: seq<int>)
    requires t < |b| && forall i :: |b| - t <= i < |b| ==> b[i] == 0
    ensures |r| == |b| && (forall i :: 0 <= i < |b| ==> r[i] == b[(i - t) % |b|])
    ensures Eval(r, x) == Pow(x, t) * Eval(b, x)
  {
    hide Pow, Eval;
    var n := |b|;
    var lo := b[..n - t];
    r := Zeros(t) + lo;
    forall i | 0 <= i < n ensures r[i] == b[(i - t) % n] {
      Rem(i - t, if i < t then -1 else 0, if i < t then i - t + n else i - t, n);
    }
    assert b == lo + Zeros(t);
    EvalConcat(lo, Zeros(t), x);
    EvalConcat(Zeros(t), lo, x);
    EvalZeros(t, x);
  }

  /** With enough zeros at the top of both factors nothing wraps around. */
  lemma {:induction false} PartialExact(a: seq<int>, b: seq<int>, na: nat, nb: nat, t: nat, x: int)
    requires t <= |a| == |b| && 0 < |b| && na + nb <= |b| + 1
    requires forall i :: na <= i < |a| ==> a[i] == 0
    requires forall i :: nb <= i < |b| ==> b[i] == 0
    ensures Eval(Partial(a, b, t), x) == Eval(a[..t], x) * Eval(b, x)
  {
    if t == 0 {
      assert Partial(a, b, 0) == Zeros(|b|);
      EvalZeros(|b|, x);
    } else {
      PartialExact(a, b, na, nb, t - 1, x);
      if t - 1 < na {
        var r := RotateExact(b, t - 1, x);
        ExactStep(a, b, t, r, x);
      } else {
        assert Partial(a, b, t) == Partial(a, b, t - 1);
        PrefixEval(a, t, x);
      }
    }
  }

  lemma PrefixEval(a: seq<int>, t: nat, x: int)
    requires 0 < t <= |a|
    ensures Eval(a[..t], x) == Eval(a[..t - 1], x) + Pow(x, t - 1) * a[t - 1]
  {
    hide Pow;
    assert a[..t] == a[..t - 1] + [a[t - 1]];
    EvalConcat(a[..t - 1], [a[t - 1]], x);
    OneTerm(a[t - 1], x);
  }

  lemma OneTerm(c: int, x: int)
    ensures Eval([c], x) == c
  {
    assert [c][1..] == [];
    assert Eval([], x) == 0;
  }

  lemma ExactStep(a: seq<int>, b: seq<int>, t: nat, r: seq<int>, x: int)
    requires 0 < t <= |a| && 0 < |b| == |r| && (forall i :: 0 <= i < |b| ==> r[i] == b[(i - (t - 1)) % |b|])
    requires Eval(r, x) == Pow(x, t - 1) * Eval(b, x)
    requires Eval(Partial(a, b, t - 1), x) == Eval(a[..t - 1], x) * Eval(b, x)
    ensures Eval(Partial(a, b, t), x) == Eval(a[..t], x) * Eval(b, x)
  {
    hide Pow, Eval;
    assert Partial(a, b, t) == Mix(Partial(a, b, t - 1), a[t - 1], r);
    EvalMix(Partial(a, b, t - 1), a[t - 1], r, x);
    PrefixEval(a, t, x);
    Assoc(a[t - 1], Pow(x, t - 1), Eval(b, x));
    Dist(Eval(a[..t - 1], x), Pow(x, t - 1) * a[t - 1], Eval(b, x));
  }

  /** The convolution of the digits holds the product. */
  lemma ConvIsProduct(u: nat, v: nat, x: nat, n: nat, na: nat, nb: nat)
    requires 1 < x && u < Pow(x, na) && v < Pow(x, nb) && na <= n && nb <= n && na + nb <= n + 1 && 0 < n
    ensures Eval(Conv(Digits(u, x, n), Digits(v, x, n)), x) == u * v
  {
    hide Pow, Eval, Digits, Partial;
    var a, b := Digits(u, x, n), Digits(v, x, n);
    forall i | na <= i < n ensures a[i] == 0 { DigitsEnd(u, x, n, na, i); }
    forall i | nb <= i < n ensures b[i] == 0 { DigitsEnd(v, x, n, nb, i); }
    PartialExact(a, b, na, nb, n, x);
    assert a[..n] == a;
    PowGrows(x, na, n);
    PowGrows(x, nb, n);
    DigitsValue(u, x, n);
    DigitsValue(v, x, n);
  }

  lemma {:induction false} ConvBound(a: seq<int>, b: seq<int>, i: int, t: nat, x: nat)
    requires 0 < x && t <= |a| && 0 < |b|
    requires forall e :: 0 <= e < |a| ==> 0 <= a[e] < x
    requires forall e :: 0 <= e < |b| ==> 0 <= b[e] < x
    ensures 0 <= ConvSum(a, b, i, t) <= t * ((x - 1) * (x - 1))
  {
    if t != 0 {
      ConvBound(a, b, i, t - 1, x);
      var p, q := a[t - 1], b[(i - (t - 1)) % |b|];
      MulLe(0, p, q);
      MulLe(p, x - 1, q);
      MulLe(q, x - 1, x - 1);
      Dist(t - 1, 1, (x - 1) * (x - 1));
    }
  }

  /** Every coefficient of the product is small. */
  lemma CoefficientBound(u: nat, v: nat, x: nat, n: nat, i: nat)
    requires 0 < x && i < n
    ensures 0 <= Conv(Digits(u, x, n), Digits(v, x, n))[i] <= n * ((x - 1) * (x - 1))
  {
    hide Digit, ConvSum;
    var a, b := Digits(u, x, n), Digits(v, x, n);
    forall e | 0 <= e < n ensures 0 <= a[e] < x && 0 <= b[e] < x {
      DigitRange(u, x, e);
      DigitRange(v, x, e);
    }
    ConvBound(a, b, i, n, x);
  }

  // ------------------------------------------------- Chinese remainder digits

  /** v divided by the first j moduli in turn. */
  ghost function MixedRest(v: nat, ms: seq<limb>, j: nat): (r: nat)
    requires j <= |ms| && forall e :: 0 <= e < |ms| ==> 0 < ms[e]
  {
    if j == 0 then v else MixedRest(v, ms, j - 1) / ms[j - 1]
  }

  ghost function ModProduct(ms: seq<limb>, n: nat): int
    requires n <= |ms|
  {
    if n == 0 then 1 else ModProduct(ms, n - 1) * ms[n - 1]
  }

  lemma {:induction false} MixedBound(v: nat, ms: seq<limb>, j: nat, k: nat)
    requires j <= k <= |ms| && (forall e :: 0 <= e < |ms| ==> 0 < ms[e])
    requires v < ModProduct(ms, k)
    ensures MixedRest(v, ms, j) * ModProduct(ms, j) <= v
    decreases j
  {
    if j != 0 {
      MixedBound(v, ms, j - 1, k);
      var r, m, p := MixedRest(v, ms, j - 1), ms[j - 1], ModProduct(ms, j - 1);
      DivMod(r, m);
      ModProductPositive(ms, j - 1);
      MulLe(r / m * m, r, p);
      assert r / m * (p * m) == r / m * m * p;
    }
  }

  lemma {:induction false} ModProductPositive(ms: seq<limb>, n: nat)
    requires n <= |ms| && forall e :: 0 <= e < |ms| ==> 0 < ms[e]
    ensures 0 < ModProduct(ms, n)
  {
    if n != 0 { ModProductPositive(ms, n - 1); MulLt(0, ModProduct(ms, n - 1), ms[n - 1]); }
  }

  /** The last mixed radix digit is below its modulus. */
  lemma MixedLast(v: nat, ms: seq<limb>)
    requires 0 < |ms| && (forall e :: 0 <= e < |ms| ==> 0 < ms[e]) && v < ModProduct(ms, |ms|)
    ensures MixedRest(v, ms, |ms| - 1) < ms[|ms| - 1]
  {
    hide MixedRest;
    var j := |ms| - 1;
    MixedBound(v, ms, j, |ms|);
    ModProductPositive(ms, j);
    assert ModProduct(ms, |ms|) == ms[j] * ModProduct(ms, j);
    LtMul(MixedRest(v, ms, j), ms[j], ModProduct(ms, j));
  }

  /** One elimination step: subtract the digit and divide by its modulus. */
  lemma Eliminate(v: nat, yj: int, yk: int, mj: int, mk: int, cr: int)
    requires 0 < mj && 0 < mk && yj == v % mj && Cong(yk, v, mk) && Cong(cr * mj, 1, mk)
    ensures Cong((yk - yj + mk) * cr, v / mj, mk)
  {
    DivMod(v, mj);
    var q := v / mj;
    CongBy(yk - yj + mk, yk - yj, 1, mk);
    CongSelf(yj, mk);
    CongAdd(yk, v, yj, yj, mk);
    CongSelf(cr, mk);
    CongMul(yk - yj + mk, v - yj, cr, cr, mk);
    assert (v - yj) * cr == q * (cr * mj);
    CongSelf(q, mk);
    CongMul(q, q, cr * mj, 1, mk);
  }
}
