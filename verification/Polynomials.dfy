/**
 Polynomials of qjscalc.js over a field, here the real numbers: a polynomial is the list of its
 coefficients from the constant one up, without zeros at the end.
 */
module Polynomials {
  import opened Wrappers

  type Poly = seq<real>

  function Power(x: real, n: nat): real {
    if n == 0 then 1.0 else x * Power(x, n - 1)
  }

  /** Horner's rule. */
  function Horner(p: Poly, x: real): real {
    if p == [] then 0.0 else p[0] + x * Horner(p[1..], x)
  }

  /** The value of a polynomial. */
  function Eval(p: Poly, x: real): real { Horner(p, x) }

  predicate Trimmed(p: Poly) {
    |p| == 1 || (1 < |p| && p[|p| - 1] != 0.0)
  }

  /** trim, and the list [0] for an empty one. */
  function Trim(p: Poly): (r: Poly)
    ensures Trimmed(r) && (1 <= |p| ==> |r| <= |p|)
  {
    if |p| == 0 then [0.0]
    else if 1 < |p| && p[|p| - 1] == 0.0 then Trim(p[..|p| - 1])
    else p
  }

  /** The degree; that of the zero polynomial is below all others. */
  function Deg(p: Poly): int { if p == [0.0] then -1 else |p| - 1 }

  // ---------------------------------------------------------------- values

  lemma EvalNext(p: Poly, x: real)
    requires p != []
    ensures Eval(p, x) == p[0] + x * Eval(p[1..], x)
  {
  }

  lemma PowerNext(x: real, n: nat)
    ensures Power(x, n + 1) == x * Power(x, n) && Power(x, 0) == 1.0
  {
  }

  lemma {:induction false} EvalSnoc(p: Poly, c: real, x: real)
    ensures Eval(p + [c], x) == Eval(p, x) + c * Power(x, |p|)
  {
    hide Eval, Power;
    var q := p + [c];
    EvalNext(q, x);
    PowerNext(x, 0);
    EvalEmpty(x);
    if p == [] {
      assert q[1..] == [];
    } else {
      EvalNext(p, x);
      PowerNext(x, |p| - 1);
      assert q[1..] == p[1..] + [c];
      EvalSnoc(p[1..], c, x);
      Spread(x, Eval(p[1..], x), c, Power(x, |p| - 1));
    }
  }

  lemma Spread(x: real, e: real, c: real, w: real)
    ensures x * (e + c * w) == x * e + c * (x * w)
  {
  }

  lemma {:induction false} EvalTrim(p: Poly, x: real)
    ensures Eval(Trim(p), x) == Eval(p, x)
  {
    hide Eval;
    if |p| == 0 {
      EvalEmpty(x);
      ConstantIs(0.0, x);
    } else if 1 < |p| && p[|p| - 1] == 0.0 {
      EvalTrim(p[..|p| - 1], x);
      EvalSnoc(p[..|p| - 1], 0.0, x);
      assert p == p[..|p| - 1] + [0.0];
    }
  }

  lemma {:induction false} EvalSet(p: Poly, i: nat, c: real, x: real)
    requires i < |p|
    ensures Eval(p[i := c], x) == Eval(p, x) + (c - p[i]) * Power(x, i)
  {
    hide Eval, Power;
    var q := p[i := c];
    EvalNext(p, x);
    EvalNext(q, x);
    PowerNext(x, 0);
    if i == 0 {
      assert q[1..] == p[1..];
    } else {
      assert q[1..] == p[1..][i - 1 := c];
      EvalSet(p[1..], i - 1, c, x);
      PowerNext(x, i - 1);
      Spread(x, Eval(p[1..], x), c - p[i], Power(x, i - 1));
    }
  }

  /** `c` times `b` is added from position `i` on. */
  function AddShifted(r: Poly, b: Poly, c: real, i: nat): (s: Poly)
    requires i + |b| <= |r|
    ensures |s| == |r| && forall k :: 0 <= k < |r| ==> s[k] == if i <= k < i + |b| then r[k] + b[k - i] * c else r[k]
  {
    seq(|r|, k requires 0 <= k < |r| => if i <= k < i + |b| then r[k] + b[k - i] * c else r[k])
  }

  lemma {:induction false} EvalAddShifted(r: Poly, b: Poly, c: real, i: nat, x: real)
    requires i + |b| <= |r|
    ensures Eval(AddShifted(r, b, c, i), x) == Eval(r, x) + c * Power(x, i) * Eval(b, x)
    decreases i, |b|
  {
    hide Eval, Power, AddShifted;
    var s := AddShifted(r, b, c, i);
    if 0 < i {
      EvalNext(r, x);
      EvalNext(s, x);
      PowerNext(x, i - 1);
      assert s[1..] == AddShifted(r[1..], b, c, i - 1);
      EvalAddShifted(r[1..], b, c, i - 1, x);
      Outer(x, Eval(r[1..], x), c, Power(x, i - 1), Eval(b, x));
    } else if b == [] {
      assert s == r;
      EvalEmpty(x);
    } else {
      EvalNext(r, x);
      EvalNext(s, x);
      EvalNext(b, x);
      PowerNext(x, 0);
      forall k | 0 <= k < |r| - 1 ensures s[1..][k] == AddShifted(r[1..], b[1..], c, 0)[k] {
        if k < |b| - 1 { assert b[1..][k] == b[k + 1]; }
      }
      assert s[1..] == AddShifted(r[1..], b[1..], c, 0);
      EvalAddShifted(r[1..], b[1..], c, 0, x);
      Inner(x, Eval(r[1..], x), c, b[0], Eval(b[1..], x));
    }
  }

  lemma EvalEmpty(x: real)
    ensures Eval([], x) == 0.0
  {
  }

  lemma Outer(x: real, e: real, c: real, w: real, v: real)
    ensures x * (e + c * w * v) == x * e + c * (x * w) * v
  {
    assert x * (c * w * v) == c * (x * w) * v;
  }

  lemma Inner(x: real, e: real, c: real, b: real, v: real)
    ensures b * c + x * (e + c * 1.0 * v) == x * e + c * 1.0 * (b + x * v)
  {
    assert x * (c * v) == c * (x * v);
  }

  // ---------------------------------------------------------------- a polynomial is determined by its values

  /** p(2x) scaled by k, less m times p(x). */
  function Dilated(p: Poly, k: real, m: real): (r: Poly)
    ensures |r| == |p|
  {
    if p == [] then [] else [p[0] * (k - m)] + Dilated(p[1..], 2.0 * k, m)
  }

  lemma {:induction false} EvalDilated(p: Poly, k: real, m: real, x: real)
    ensures Eval(Dilated(p, k, m), x) == k * Eval(p, 2.0 * x) - m * Eval(p, x)
  {
    if p != [] {
      EvalDilated(p[1..], 2.0 * k, m, x);
      assert Dilated(p, k, m)[1..] == Dilated(p[1..], 2.0 * k, m);
      var e, f := Eval(p[1..], 2.0 * x), Eval(p[1..], x);
      assert x * (2.0 * k * e - m * f) == k * (2.0 * x * e) - m * (x * f);
      assert p[0] * (k - m) == k * p[0] - m * p[0];
    }
  }

  lemma {:induction false} DilatedAt(p: Poly, k: real, m: real, i: nat)
    requires i < |p|
    ensures Dilated(p, k, m)[i] == p[i] * (k * Power(2.0, i) - m)
  {
    if i != 0 {
      DilatedAt(p[1..], 2.0 * k, m, i - 1);
      assert 2.0 * k * Power(2.0, i - 1) == k * Power(2.0, i);
    }
  }

  lemma {:induction false} PowersOfTwo(i: nat, n: nat)
    requires i < n
    ensures 0.0 < Power(2.0, i) < Power(2.0, n)
  {
    if i < n - 1 { PowersOfTwo(i, n - 1); } else if 0 < i { PowersOfTwo(i - 1, i); }
  }

  ghost predicate Vanishes(p: Poly) {
    forall x :: Eval(p, x) == 0.0
  }

  /** Only the zero polynomial is zero everywhere. */
  lemma {:induction false} OnlyZeroVanishes(p: Poly)
    requires Vanishes(p)
    ensures forall i :: 0 <= i < |p| ==> p[i] == 0.0
    decreases |p|
  {
    if p != [] {
      var n := |p| - 1;
      var m := Power(2.0, n);
      var g := Dilated(p, 1.0, m);
      DilatedAt(p, 1.0, m, n);
      assert g == g[..n] + [0.0];
      forall x ensures Eval(g[..n], x) == 0.0 {
        EvalDilated(p, 1.0, m, x);
        EvalSnoc(g[..n], 0.0, x);
        assert Eval(p, 2.0 * x) == 0.0 && Eval(p, x) == 0.0;
      }
      OnlyZeroVanishes(g[..n]);
      forall i | 0 <= i < n ensures p[i] == 0.0 {
        DilatedAt(p, 1.0, m, i);
        PowersOfTwo(i, n);
        assert g[..n][i] == g[i];
      }
      LastCoefficient(p);
    }
  }

  lemma LastCoefficient(p: Poly)
    requires p != [] && Vanishes(p) && forall i :: 0 <= i < |p| - 1 ==> p[i] == 0.0
    ensures p[|p| - 1] == 0.0
  {
    var n := |p| - 1;
    assert p == p[..n] + [p[n]];
    EvalSnoc(p[..n], p[n], 1.0);
    AllZero(p[..n], 1.0);
    PowerOfOne(n);
    assert Eval(p, 1.0) == 0.0;
  }

  lemma {:induction false} AllZero(p: Poly, x: real)
    requires forall i :: 0 <= i < |p| ==> p[i] == 0.0
    ensures Eval(p, x) == 0.0
  {
    if p != [] { AllZero(p[1..], x); }
  }

  lemma {:induction false} PowerOfOne(n: nat)
    ensures Power(1.0, n) == 1.0
  {
    if n != 0 { PowerOfOne(n - 1); }
  }

  /** Two trimmed polynomials with the same values are the same list. */
  lemma ValuesDetermine(p: Poly, q: Poly)
    requires Trimmed(p) && Trimmed(q) && forall x :: Eval(p, x) == Eval(q, x)
    ensures p == q
  {
    if |p| < |q| {
      SameCoefficients(q, p);
    } else {
      SameCoefficients(p, q);
    }
  }

  lemma SameCoefficients(p: Poly, q: Poly)
    requires |q| <= |p| && Trimmed(p) && Trimmed(q) && forall x :: Eval(p, x) == Eval(q, x)
    ensures p == q
  {
    var d := AddShifted(p, q, -1.0, 0);
    forall x ensures Eval(d, x) == 0.0 {
      EvalAddShifted(p, q, -1.0, 0, x);
      assert Eval(p, x) == Eval(q, x);
    }
    assert |q| < |p| ==> d[|p| - 1] == p[|p| - 1];
    OnlyZeroVanishes(d);
    forall k | 0 <= k < |q| ensures p[k] == q[k] {
      assert d[k] == 0.0;
    }
  }

  // ---------------------------------------------------------------- arithmetic

  /** The first i rows of the product. */
  function Rows(a: Poly, b: Poly, i: nat): (r: Poly)
    requires i <= |a| && 1 <= |a| && 1 <= |b|
    ensures |r| == |a| + |b| - 1
  {
    if i == 0 then seq(|a| + |b| - 1, _ => 0.0) else AddShifted(Rows(a, b, i - 1), b, a[i - 1], i - 1)
  }

  function Product(a: Poly, b: Poly): (r: Poly)
    requires 1 <= |a| && 1 <= |b|
    ensures Trimmed(r)
  {
    Trim(Rows(a, b, |a|))
  }

  lemma {:induction false} EvalRows(a: Poly, b: Poly, i: nat, x: real)
    requires i <= |a| && 1 <= |a| && 1 <= |b|
    ensures Eval(Rows(a, b, i), x) == Eval(a[..i], x) * Eval(b, x)
  {
    if i == 0 {
      AllZero(Rows(a, b, 0), x);
    } else {
      EvalRows(a, b, i - 1, x);
      EvalAddShifted(Rows(a, b, i - 1), b, a[i - 1], i - 1, x);
      assert a[..i] == a[..i - 1] + [a[i - 1]];
      EvalSnoc(a[..i - 1], a[i - 1], x);
    }
  }

  lemma EvalProduct(a: Poly, b: Poly, x: real)
    requires 1 <= |a| && 1 <= |b|
    ensures Eval(Product(a, b), x) == Eval(a, x) * Eval(b, x)
  {
    hide Eval, Rows;
    EvalRows(a, b, |a|, x);
    assert a[..|a|] == a;
    EvalTrim(Rows(a, b, |a|), x);
  }

  /** The leading coefficients multiply. */
  lemma {:induction false} RowsTop(a: Poly, b: Poly, i: nat)
    requires i <= |a| && 1 <= |a| && 1 <= |b|
    ensures i < |a| ==> Rows(a, b, i)[|a| + |b| - 2] == 0.0
    ensures i == |a| ==> Rows(a, b, i)[|a| + |b| - 2] == b[|b| - 1] * a[|a| - 1]
  {
    if i != 0 { RowsTop(a, b, i - 1); }
  }

  /** The degrees add up. */
  lemma ProductDegree(a: Poly, b: Poly)
    requires Trimmed(a) && Trimmed(b) && a != [0.0] && b != [0.0]
    ensures |Product(a, b)| == |a| + |b| - 1 && Product(a, b) != [0.0]
  {
    RowsTop(a, b, |a|);
    var u, v := b[|b| - 1], a[|a| - 1];
    NoZeroDivisors(u, v);
  }

  lemma NoZeroDivisors(u: real, v: real)
    requires u != 0.0 && v != 0.0
    ensures u * v != 0.0
  {
  }

  /** polynomial_mul */
  method PolynomialMul(a: Poly, b: Poly) returns (p: Poly)
    requires 1 <= |a| && 1 <= |b|
    ensures p == Product(a, b)
  {
    var n1, n2 := |a|, |b|;
    var r := new real[n1 + n2 - 1](_ => 0.0);
    assert r[..] == Rows(a, b, 0);
    for i := 0 to n1
      invariant r[..] == Rows(a, b, i)
    {
      ghost var m := r[..];
      for j := 0 to n2
        invariant forall k :: 0 <= k < n1 + n2 - 1 ==> r[k] == if i <= k < i + j then m[k] + b[k - i] * a[i] else m[k]
      {
        r[i + j] := r[i + j] + a[i] * b[j];
      }
      assert r[..] == AddShifted(m, b, a[i], i);
    }
    p := Trim(r[..]);
  }

  function Sum(a: Poly, b: Poly): (r: Poly)
    ensures Trimmed(r)
  {
    if |a| < |b| then Trim(AddShifted(b, a, 1.0, 0)) else Trim(AddShifted(a, b, 1.0, 0))
  }

  lemma EvalSum(a: Poly, b: Poly, x: real)
    ensures Eval(Sum(a, b), x) == Eval(a, x) + Eval(b, x)
  {
    if |a| < |b| {
      EvalAddShifted(b, a, 1.0, 0, x);
      EvalTrim(AddShifted(b, a, 1.0, 0), x);
    } else {
      EvalAddShifted(a, b, 1.0, 0, x);
      EvalTrim(AddShifted(a, b, 1.0, 0), x);
    }
  }

  /** polynomial_add */
  method PolynomialAdd(a0: Poly, b0: Poly) returns (p: Poly)
    ensures p == Sum(a0, b0)
  {
    hide AddShifted, Trim;
    var a, b := a0, b0;
    if |a| < |b| {
      a, b := b, a;
    }
    var r := new real[|a|];
    for i := 0 to |b|
      invariant forall k :: 0 <= k < i ==> r[k] == a[k] + b[k]
    {
      r[i] := a[i] + b[i];
    }
    for i := |b| to |a|
      invariant forall k :: 0 <= k < i ==> r[k] == if k < |b| then a[k] + b[k] else a[k]
    {
      r[i] := a[i];
    }
    AddedOnce(a, b, r[..]);
    p := Trim(r[..]);
  }

  lemma AddedOnce(a: Poly, b: Poly, r: Poly)
    requires |b| <= |a| == |r| && forall k :: 0 <= k < |a| ==> r[k] == if k < |b| then a[k] + b[k] else a[k]
    ensures r == AddShifted(a, b, 1.0, 0)
  {
    hide AddShifted;
    forall k | 0 <= k < |b| ensures b[k] * 1.0 == b[k] {
    }
  }

  function Negated(b: Poly): Poly { seq(|b|, i requires 0 <= i < |b| => -b[i]) }

  function Difference(a: Poly, b: Poly): (r: Poly)
    ensures Trimmed(r)
  {
    Sum(a, Trim(Negated(b)))
  }

  lemma {:induction false} EvalNegated(b: Poly, x: real)
    ensures Eval(Negated(b), x) == -Eval(b, x)
  {
    if b != [] {
      EvalNegated(b[1..], x);
      assert Negated(b)[1..] == Negated(b[1..]);
      assert x * -Eval(b[1..], x) == -(x * Eval(b[1..], x));
    }
  }

  lemma EvalDifference(a: Poly, b: Poly, x: real)
    ensures Eval(Difference(a, b), x) == Eval(a, x) - Eval(b, x)
  {
    EvalNegated(b, x);
    EvalTrim(Negated(b), x);
    EvalSum(a, Trim(Negated(b)), x);
  }

  /** polynomial_sub */
  method PolynomialSub(a: Poly, b: Poly) returns (p: Poly)
    ensures p == Difference(a, b)
  {
    p := PolynomialAdd(a, Trim(Negated(b)));
  }

  // ---------------------------------------------------------------- division

  function Over(c: real, b: real): real
    requires b != 0.0
  {
    c / b
  }

  predicate Divisor(b: Poly) { 1 <= |b| && b[|b| - 1] != 0.0 }

  /** One step of the division, which clears the coefficient at i + deg b. */
  function DivStep(r: Poly, b: Poly, i: nat): (s: Poly)
    requires Divisor(b) && i + |b| <= |r|
    ensures |s| == |r|
  {
    var n2 := |b| - 1;
    if r[i + n2] != 0.0 then AddShifted(r[i + n2 := 0.0], b[..n2], -Over(r[i + n2], b[n2]), i) else r
  }

  /** The steps for i - 1 down to 0: the quotient and what is left. */
  function DivLoop(r: Poly, b: Poly, i: nat): (z: (Poly, Poly))
    requires Divisor(b) && i + |b| - 1 <= |r|
    ensures |z.0| == i && |z.1| == |r|
    ensures forall k :: |b| - 1 <= k < |r| ==> z.1[k] == if k < i + |b| - 1 then 0.0 else r[k]
    decreases i
  {
    if i == 0 then ([], r)
    else
      var z := DivLoop(DivStep(r, b, i - 1), b, i - 1);
      (z.0 + [Over(r[i - 1 + |b| - 1], b[|b| - 1])], z.1)
  }

  lemma EvalDivStep(r: Poly, b: Poly, i: nat, x: real)
    requires Divisor(b) && i + |b| <= |r|
    ensures Eval(r, x) == Eval(DivStep(r, b, i), x) + Over(r[i + |b| - 1], b[|b| - 1]) * Power(x, i) * Eval(b, x)
  {
    hide Eval, Power, DivStep, AddShifted, Over;
    var d := Over(r[i + |b| - 1], b[|b| - 1]);
    if r[i + |b| - 1] == 0.0 {
      NothingToClear(r, b, i, x);
    } else {
      Quotient(r[i + |b| - 1], b[|b| - 1]);
      StepIs(r, b, i);
      EvalCleared(r, b, i, d, x);
    }
  }

  lemma Quotient(c: real, b: real)
    requires b != 0.0
    ensures Over(c, b) * b == c
  {
  }

  lemma StepIs(r: Poly, b: Poly, i: nat)
    requires Divisor(b) && i + |b| <= |r| && r[i + |b| - 1] != 0.0
    ensures DivStep(r, b, i) == AddShifted(r[i + |b| - 1 := 0.0], b[..|b| - 1], -Over(r[i + |b| - 1], b[|b| - 1]), i)
  {
  }

  lemma EvalCleared(r: Poly, b: Poly, i: nat, d: real, x: real)
    requires Divisor(b) && i + |b| <= |r| && d * b[|b| - 1] == r[i + |b| - 1]
    ensures Eval(r, x) == Eval(AddShifted(r[i + |b| - 1 := 0.0], b[..|b| - 1], -d, i), x) + d * Power(x, i) * Eval(b, x)
  {
    hide Eval, Power, AddShifted;
    var n2 := |b| - 1;
    var s := r[i + n2 := 0.0];
    EvalSet(r, i + n2, 0.0, x);
    EvalAddShifted(s, b[..n2], -d, i, x);
    assert b == b[..n2] + [b[n2]];
    EvalSnoc(b[..n2], b[n2], x);
    PowerAdd(x, i, n2);
    StepValue(Eval(r, x), Eval(s, x), Eval(b[..n2], x), b[n2], r[i + n2], d, Power(x, i), Power(x, n2));
  }

  lemma NothingToClear(r: Poly, b: Poly, i: nat, x: real)
    requires Divisor(b) && i + |b| <= |r| && r[i + |b| - 1] == 0.0
    ensures Over(r[i + |b| - 1], b[|b| - 1]) * Power(x, i) * Eval(b, x) == 0.0 && DivStep(r, b, i) == r
  {
  }

  lemma StepValue(r: real, s: real, e: real, b: real, c: real, d: real, w: real, v: real)
    requires d * b == c && s == r + (0.0 - c) * (w * v)
    ensures r == s + -d * w * e + d * w * (e + b * v)
  {
    assert d * w * (b * v) == d * b * (w * v);
    assert d * w * (e + b * v) == d * w * e + d * w * (b * v);
    assert -d * w * e == -(d * w * e);
  }

  lemma {:induction false} PowerAdd(x: real, i: nat, j: nat)
    ensures Power(x, i + j) == Power(x, i) * Power(x, j)
  {
    hide Power;
    PowerNext(x, 0);
    if i != 0 {
      PowerAdd(x, i - 1, j);
      PowerNext(x, i - 1);
      PowerNext(x, i - 1 + j);
      Regroup(x, Power(x, i - 1), Power(x, j));
    }
  }

  lemma Regroup(x: real, y: real, z: real)
    ensures x * (y * z) == x * y * z
  {
  }

  lemma {:induction false} EvalDivLoop(r: Poly, b: Poly, i: nat, x: real)
    requires Divisor(b) && i + |b| - 1 <= |r|
    ensures Eval(r, x) == Eval(DivLoop(r, b, i).0, x) * Eval(b, x) + Eval(DivLoop(r, b, i).1, x)
    decreases i
  {
    hide Eval, Power, DivStep, DivLoop, Over;
    DivLoopNext(r, b, i);
    if i == 0 {
      EvalEmpty(x);
    } else {
      var s := DivStep(r, b, i - 1);
      var q, d := DivLoop(s, b, i - 1).0, Over(r[i - 1 + |b| - 1], b[|b| - 1]);
      EvalDivLoop(s, b, i - 1, x);
      EvalDivStep(r, b, i - 1, x);
      EvalSnoc(q, d, x);
      Factor(Eval(q, x), d * Power(x, i - 1), Eval(b, x));
    }
  }

  lemma Factor(x: real, y: real, z: real)
    ensures (x + y) * z == x * z + y * z
  {
  }

  lemma DivLoopNext(r: Poly, b: Poly, i: nat)
    requires Divisor(b) && i + |b| - 1 <= |r|
    ensures i == 0 ==> DivLoop(r, b, i) == ([], r)
    ensures i != 0 ==> var z := DivLoop(DivStep(r, b, i - 1), b, i - 1);
      DivLoop(r, b, i) == (z.0 + [Over(r[i - 1 + |b| - 1], b[|b| - 1])], z.1)
  {
  }

  /** The quotient and the remainder. */
  function DivRem(a: Poly, b: Poly): (z: (Poly, Poly))
    requires Divisor(b)
  {
    if |a| < |b| then ([0.0], a)
    else
      var z := DivLoop(a, b, |a| - |b| + 1);
      (Trim(z.0), Trim(z.1))
  }

  /** a = q * b + r */
  ghost predicate IsDivision(a: Poly, q: Poly, b: Poly, r: Poly) {
    forall x :: DivisionHere(a, q, b, r, x)
  }

  ghost predicate DivisionHere(a: Poly, q: Poly, b: Poly, r: Poly, x: real) {
    IsSum(Eval(a, x), Eval(q, x), Eval(b, x), Eval(r, x))
  }

  predicate IsSum(a: real, q: real, b: real, r: real) {
    a == q * b + r
  }

  /** Division with a remainder of smaller degree. */
  lemma DivRemIs(a: Poly, b: Poly)
    requires Trimmed(a) && Divisor(b)
    ensures var (q, r) := DivRem(a, b);
      Trimmed(q) && Trimmed(r) && Deg(r) < Deg(b) && IsDivision(a, q, b, r)
  {
    hide Eval, DivLoop;
    var z := DivRem(a, b);
    if |b| <= |a| {
      var l := DivLoop(a, b, |a| - |b| + 1);
      TrimShort(l.1, |b| - 1);
      forall x ensures DivisionHere(a, z.0, b, z.1, x) {
        EvalDivLoop(a, b, |a| - |b| + 1, x);
        TrimmedDivision(a, l.0, b, l.1, x);
      }
    } else {
      forall x ensures DivisionHere(a, z.0, b, z.1, x) {
        AllZero(z.0, x);
        assert 0.0 * Eval(b, x) == 0.0;
      }
    }
  }

  lemma TrimmedDivision(a: Poly, q: Poly, b: Poly, r: Poly, x: real)
    requires IsSum(Eval(a, x), Eval(q, x), Eval(b, x), Eval(r, x))
    ensures DivisionHere(a, Trim(q), b, Trim(r), x)
  {
    hide Eval, Trim, IsSum;
    EvalTrim(q, x);
    EvalTrim(r, x);
  }

  lemma {:induction false} TrimShort(p: Poly, m: nat)
    requires 1 <= |p| && forall k :: m <= k < |p| ==> p[k] == 0.0
    ensures Deg(Trim(p)) < m
  {
    if m < |p| && 1 < |p| { TrimShort(p[..|p| - 1], m); }
  }

  /** There is only one such quotient and remainder. */
  lemma DivRemUnique(a: Poly, b: Poly, q: Poly, r: Poly, q': Poly, r': Poly)
    requires Trimmed(b) && Divisor(b) && Trimmed(q) && Trimmed(r) && Trimmed(q') && Trimmed(r') && Deg(r) < Deg(b) && Deg(r') < Deg(b)
    requires IsDivision(a, q, b, r) && IsDivision(a, q', b, r')
    ensures q == q' && r == r'
  {
    hide Eval, Product, Difference, Deg, IsDivision;
    SameDifference(a, b, q, r, q', r');
    DifferenceDegree(r', r, Deg(b));
    TooLargeUnlessZero(Difference(q, q'), b);
    SameIfZero(q, q');
    SameRemainder(a, b, q, r, r');
  }

  lemma SameDifference(a: Poly, b: Poly, q: Poly, r: Poly, q': Poly, r': Poly)
    requires Trimmed(b) && Trimmed(q) && Trimmed(r) && Trimmed(q') && Trimmed(r')
    requires IsDivision(a, q, b, r) && IsDivision(a, q', b, r')
    ensures Product(Difference(q, q'), b) == Difference(r', r)
  {
    hide Eval, Product, Difference, IsDivision;
    var d, e := Difference(q, q'), Difference(r', r);
    forall x ensures Eval(Product(d, b), x) == Eval(e, x) {
      EvalProduct(d, b, x);
      EvalDifference(q, q', x);
      EvalDifference(r', r, x);
      DivisionAt(a, q, b, r, x);
      DivisionAt(a, q', b, r', x);
      Subtracted(Eval(q, x), Eval(q', x), Eval(b, x));
    }
    ValuesDetermine(Product(d, b), e);
  }

  lemma DivisionAt(a: Poly, q: Poly, b: Poly, r: Poly, x: real)
    requires IsDivision(a, q, b, r)
    ensures Eval(a, x) == Eval(q, x) * Eval(b, x) + Eval(r, x)
  {
    hide Eval;
    assert DivisionHere(a, q, b, r, x);
  }

  lemma Subtracted(x: real, y: real, z: real)
    ensures (x - y) * z == x * z - y * z
  {
  }

  lemma SameRemainder(a: Poly, b: Poly, q: Poly, r: Poly, r': Poly)
    requires Trimmed(r) && Trimmed(r') && IsDivision(a, q, b, r) && IsDivision(a, q, b, r')
    ensures r == r'
  {
    hide Eval, IsDivision;
    forall x ensures Eval(r, x) == Eval(r', x) {
      DivisionAt(a, q, b, r, x);
      DivisionAt(a, q, b, r', x);
    }
    ValuesDetermine(r, r');
  }

  lemma DifferenceDegree(a: Poly, b: Poly, n: int)
    requires Trimmed(a) && Trimmed(b) && Deg(a) < n && Deg(b) < n
    ensures Deg(Difference(a, b)) < n
  {
  }

  lemma SameIfZero(p: Poly, q: Poly)
    requires Trimmed(p) && Trimmed(q) && Difference(p, q) == [0.0]
    ensures p == q
  {
    forall x ensures Eval(p, x) == Eval(q, x) {
      EvalDifference(p, q, x);
      AllZero([0.0], x);
    }
    ValuesDetermine(p, q);
  }

  lemma TooLargeUnlessZero(d: Poly, b: Poly)
    requires Trimmed(d) && Trimmed(b) && Divisor(b) && Deg(Product(d, b)) < Deg(b)
    ensures d == [0.0]
  {
    if d != [0.0] { ProductDegree(d, b); }
  }

  lemma Joined(p: Poly, q: Poly, r: Poly)
    ensures p + (q + r) == p + q + r
  {
  }

  /** The body of the loop in Polynomial.divrem: a multiple of `b` is subtracted. */
  method ClearCoefficient(r: array<real>, b: Poly, i: nat) returns (d: real)
    requires Divisor(b) && i + |b| <= r.Length
    modifies r
    ensures r[..] == DivStep(old(r[..]), b, i) && d == Over(old(r[i + |b| - 1]), b[|b| - 1])
  {
    hide DivStep, Over;
    ghost var m := r[..];
    var n2 := |b| - 1;
    var c := r[i + n2];
    if c != 0.0 {
      c := Over(c, b[n2]);
      r[i + n2] := 0.0;
      for j := 0 to n2
        invariant forall k :: 0 <= k < r.Length ==>
          r[k] == (if i <= k < i + j then m[k] - b[k - i] * c else if k == i + n2 then 0.0 else m[k])
      {
        r[i + j] := r[i + j] - b[j] * c;
      }
    }
    Cleared(m, b, i, r[..]);
    d := c;
  }

  lemma Cleared(m: Poly, b: Poly, i: nat, r: Poly)
    requires Divisor(b) && i + |b| <= |m| == |r|
    requires var n2 := |b| - 1; var c := m[i + n2];
      if c == 0.0 then r == m else forall k :: 0 <= k < |m| ==>
        r[k] == (if i <= k < i + n2 then m[k] - b[k - i] * Over(c, b[n2]) else if k == i + n2 then 0.0 else m[k])
    ensures r == DivStep(m, b, i) && Over(0.0, b[|b| - 1]) == 0.0
  {
    hide AddShifted;
    var n2 := |b| - 1;
    var d := Over(m[i + n2], b[n2]);
    var s := DivStep(m, b, i);
    forall k | 0 <= k < |m| ensures r[k] == s[k] {
      if i <= k < i + n2 { Opposite(b[k - i], d); }
    }
  }

  lemma Opposite(x: real, y: real)
    ensures x * -y == -(x * y)
  {
  }

  /** With `r` left and the digits `q` found, the steps below `i` are still to do. */
  ghost predicate LeftToDo(a: Poly, b: Poly, n: nat, r: Poly, q: Poly, i: nat) {
    && Divisor(b) && n + |b| - 1 <= |a| && i + |b| - 1 <= |r|
    && DivLoop(a, b, n) == (DivLoop(r, b, i).0 + q, DivLoop(r, b, i).1)
  }

  lemma NoneDone(a: Poly, b: Poly, n: nat)
    requires Divisor(b) && n + |b| - 1 <= |a|
    ensures LeftToDo(a, b, n, a, [], n)
  {
    hide DivLoop;
    assert DivLoop(a, b, n).0 + [] == DivLoop(a, b, n).0;
  }

  lemma OneDone(a: Poly, b: Poly, n: nat, m: Poly, r: Poly, q: Poly, i: nat)
    requires LeftToDo(a, b, n, m, q, i + 1) && r == DivStep(m, b, i)
    ensures LeftToDo(a, b, n, r, [Over(m[i + |b| - 1], b[|b| - 1])] + q, i)
  {
    hide DivStep, DivLoop, Over;
    DivLoopNext(m, b, i + 1);
    Joined(DivLoop(r, b, i).0, [Over(m[i + |b| - 1], b[|b| - 1])], q);
  }

  lemma AllDone(a: Poly, b: Poly, n: nat, r: Poly, q: Poly)
    requires LeftToDo(a, b, n, r, q, 0)
    ensures DivLoop(a, b, n) == (q, r)
  {
    hide DivStep, DivLoop, Over;
    DivLoopNext(r, b, 0);
    assert [] + q == q;
  }

  /** Polynomial.divrem; a division by zero is an error. */
  method PolynomialDivRem(a: Poly, b: Poly) returns (res: Option<(Poly, Poly)>)
    requires Trimmed(a) && Trimmed(b)
    ensures res == if Deg(b) < 0 then None else Some(DivRem(a, b))
  {
    hide DivStep, DivLoop, Over, LeftToDo;
    if Deg(b) < 0 { return None; }
    var n1, n2 := |a|, |b|;
    if n1 < n2 { return Some(([0.0], a)); }
    var r := new real[n1](k requires 0 <= k < n1 => a[k]);
    assert r[..] == a;
    n2 := n2 - 1;
    var n := n1 - n2;
    var q := new real[n](_ => 0.0);
    assert q[n..] == [];
    NoneDone(a, b, n);
    for i := n downto 0
      invariant LeftToDo(a, b, n, r[..], q[i..], i)
    {
      ghost var m, done := r[..], q[i + 1..];
      q[i] := ClearCoefficient(r, b, i);
      assert q[i..] == [Over(m[i + n2], b[n2])] + done;
      OneDone(a, b, n, m, r[..], done, i);
    }
    assert q[0..] == q[..];
    AllDone(a, b, n, r[..], q[..]);
    res := Some((Trim(q[..]), Trim(r[..])));
  }

  // ---------------------------------------------------------------- inverse modulo a polynomial

  /** The last remainder but zero of the division algorithm, which is what invmod has when it stops. */
  function LastRemainder(u: Poly, v: Poly): (w: Poly)
    requires Trimmed(u) && Trimmed(v)
    ensures Trimmed(w)
    decreases Deg(u) + 1
  {
    if Deg(u) < 0 then v
    else
      DivRemIs(v, u);
      LastRemainder(DivRem(v, u).1, u)
  }

  /** s * x = w + k * y: modulo y, s times x is w. */
  ghost predicate Combines(s: Poly, x: Poly, w: Poly, k: Poly, y: Poly) {
    forall t :: CombinesHere(s, x, w, k, y, t)
  }

  ghost predicate CombinesHere(s: Poly, x: Poly, w: Poly, k: Poly, y: Poly, t: real) {
    Eval(s, t) * Eval(x, t) == Eval(w, t) + Eval(k, t) * Eval(y, t)
  }

  lemma CombinesAt(s: Poly, x: Poly, w: Poly, k: Poly, y: Poly, t: real)
    requires Combines(s, x, w, k, y)
    ensures Eval(s, t) * Eval(x, t) == Eval(w, t) + Eval(k, t) * Eval(y, t)
  {
    hide Eval;
    assert CombinesHere(s, x, w, k, y, t);
  }

  /** a - q * c */
  function MinusTimes(a: Poly, q: Poly, c: Poly): (r: Poly)
    requires 1 <= |q| && 1 <= |c|
    ensures Trimmed(r)
  {
    Difference(a, Product(q, c))
  }

  lemma EvalMinusTimes(a: Poly, q: Poly, c: Poly, t: real)
    requires 1 <= |q| && 1 <= |c|
    ensures Eval(MinusTimes(a, q, c), t) == Eval(a, t) - Eval(q, t) * Eval(c, t)
  {
    hide Eval;
    EvalProduct(q, c, t);
    EvalDifference(a, Product(q, c), t);
  }

  /** One step keeps both combinations. */
  lemma CombineStep(x: Poly, y: Poly, u: Poly, v: Poly, c: Poly, a: Poly, kc: Poly, ka: Poly, q: Poly, r: Poly)
    requires 1 <= |q| && 1 <= |c| && 1 <= |kc|
    requires Combines(c, x, u, kc, y) && Combines(a, x, v, ka, y) && IsDivision(v, q, u, r)
    ensures Combines(MinusTimes(a, q, c), x, r, MinusTimes(ka, q, kc), y)
  {
    hide Eval, IsDivision, MinusTimes;
    forall t ensures CombinesHere(MinusTimes(a, q, c), x, r, MinusTimes(ka, q, kc), y, t) {
      CombinesAt(c, x, u, kc, y, t);
      CombinesAt(a, x, v, ka, y, t);
      DivisionAt(v, q, u, r, t);
      EvalMinusTimes(a, q, c, t);
      EvalMinusTimes(ka, q, kc, t);
      StepNumbers(Eval(x, t), Eval(y, t), Eval(u, t), Eval(v, t), Eval(c, t), Eval(a, t), Eval(kc, t), Eval(ka, t), Eval(q, t), Eval(r, t));
    }
  }

  lemma StepNumbers(x: real, y: real, u: real, v: real, c: real, a: real, kc: real, ka: real, q: real, r: real)
    requires c * x == u + kc * y && a * x == v + ka * y && v == q * u + r
    ensures (a - q * c) * x == r + (ka - q * kc) * y
  {
    Subtracted(a, q * c, x);
    Subtracted(ka, q * kc, y);
    Regroup(q, c, x);
    Regroup(q, kc, y);
    SpreadSum(q, u, kc * y);
  }

  lemma SpreadSum(q: real, x: real, y: real)
    ensures q * (x + y) == q * x + q * y
  {
  }

  /** What is left after the constants 1 and 0 at the start. */
  lemma CombineStart(x: Poly, y: Poly)
    ensures Combines([1.0], x, x, [0.0], y) && Combines([0.0], x, y, [-1.0], y)
  {
    hide Eval;
    forall t ensures CombinesHere([1.0], x, x, [0.0], y, t) && CombinesHere([0.0], x, y, [-1.0], y, t) {
      Constants(t);
      Units(Eval(x, t), Eval(y, t));
    }
    assert Combines([1.0], x, x, [0.0], y);
  }

  lemma Units(x: real, y: real)
    ensures 1.0 * x == x && 0.0 * x == 0.0 && 0.0 * y == 0.0 && -1.0 * y == -y
  {
  }

  lemma Constants(t: real)
    ensures Eval([1.0], t) == 1.0 && Eval([0.0], t) == 0.0 && Eval([-1.0], t) == -1.0
  {
    ConstantIs(1.0, t);
    ConstantIs(0.0, t);
    ConstantIs(-1.0, t);
  }

  lemma ConstantIs(c: real, t: real)
    ensures Eval([c], t) == c
  {
    hide Eval;
    EvalNext([c], t);
    EvalEmpty(t);
    assert [c][1..] == [];
  }

  /**
   Polynomial.invmod: None stands for the range error.  The result times x is the last remainder modulo
   y, which is a constant but not always 1.
   */
  method PolynomialInvMod(x: Poly, y: Poly) returns (res: Option<Poly>)
    requires Trimmed(x) && Trimmed(y)
    ensures res.Some? <==> 0 <= Deg(y) && Deg(LastRemainder(x, y)) <= 0
    ensures res.Some? ==> Trimmed(res.value) && Deg(res.value) < Deg(y)
    ensures res.Some? ==> exists k :: Combines(res.value, x, LastRemainder(x, y), k, y)
  {
    hide Combines, DivRem, Difference, Product;
    var u, v, c, a := x, y, [1.0], [0.0];
    ghost var kc, ka := [0.0], [-1.0];
    CombineStart(x, y);
    while Deg(u) >= 0
      invariant Trimmed(u) && Trimmed(v) && Trimmed(c) && Trimmed(a) && Trimmed(kc)
      invariant LastRemainder(u, v) == LastRemainder(x, y)
      invariant Combines(c, x, u, kc, y) && Combines(a, x, v, ka, y)
      decreases Deg(u) + 1
    {
      DivRemIs(v, u);
      var t := PolynomialDivRem(v, u);
      var q := t.value.0;
      CombineStep(x, y, u, v, c, a, kc, ka, q, t.value.1);
      v := u;
      u := t.value.1;
      var p := PolynomialMul(q, c);
      var d := PolynomialSub(a, p);
      kc, ka := MinusTimes(ka, q, kc), kc;
      c, a := d, c;
    }
    if Deg(v) > 0 { return None; }
    var t := PolynomialDivRem(a, y);
    if t.None? { return None; }
    DivRemIs(a, y);
    Reduced(x, y, v, a, ka, t.value.0, t.value.1);
    return Some(t.value.1);
  }

  /** Taking the remainder modulo y changes nothing modulo y. */
  lemma Reduced(x: Poly, y: Poly, v: Poly, a: Poly, ka: Poly, q: Poly, r: Poly)
    requires 1 <= |q| && 1 <= |x| && Combines(a, x, v, ka, y) && IsDivision(a, q, y, r)
    ensures exists k :: Combines(r, x, v, k, y)
  {
    hide Eval, IsDivision, MinusTimes;
    var k := MinusTimes(ka, q, x);
    forall t ensures CombinesHere(r, x, v, k, y, t) {
      CombinesAt(a, x, v, ka, y, t);
      DivisionAt(a, q, y, r, t);
      EvalMinusTimes(ka, q, x, t);
      ReducedNumbers(Eval(x, t), Eval(y, t), Eval(v, t), Eval(a, t), Eval(ka, t), Eval(q, t), Eval(r, t));
    }
    assert Combines(r, x, v, k, y);
  }

  lemma ReducedNumbers(x: real, y: real, v: real, a: real, ka: real, q: real, r: real)
    requires a * x == v + ka * y && a == q * y + r
    ensures r * x == v + (ka - q * x) * y
  {
    Factor(q * y, r, x);
    Subtracted(ka, q * x, y);
    assert q * y * x == q * x * y;
  }

  /** `s` is an inverse of x modulo y. */
  ghost predicate IsInverse(s: Poly, x: Poly, y: Poly) {
    exists k :: Trimmed(k) && Combines(s, x, [1.0], k, y)
  }

  /**
   The result of invmod is an inverse if and only if the last remainder is 1, or the modulus is a
   constant, for which everything is an inverse.
   */
  lemma InverseExactly(s: Poly, x: Poly, y: Poly)
    requires Trimmed(s) && Trimmed(x) && Trimmed(y) && 0 <= Deg(y) && Deg(LastRemainder(x, y)) <= 0
    requires exists k :: Combines(s, x, LastRemainder(x, y), k, y)
    ensures IsInverse(s, x, y) <==> LastRemainder(x, y) == [1.0] || Deg(y) == 0
  {
    hide LastRemainder, Combines;
    var v := LastRemainder(x, y);
    var k :| Combines(s, x, v, k, y);
    if v == [1.0] {
      TrimCombines(s, x, v, k, y);
    } else if Deg(y) == 0 {
      ConstantModulus(s, x, y);
    } else if IsInverse(s, x, y) {
      var k' :| Trimmed(k') && Combines(s, x, [1.0], k', y);
      OnlyOne(s, x, v, k, k', y);
    }
  }

  /** Modulo a constant other than zero every product is 1. */
  lemma ConstantModulus(s: Poly, x: Poly, y: Poly)
    requires Trimmed(s) && Trimmed(x) && Trimmed(y) && Deg(y) == 0
    ensures IsInverse(s, x, y)
  {
    hide Eval, Product, Difference;
    var p := Difference(Product(s, x), [1.0]);
    var k := Product(p, [1.0 / y[0]]);
    Quotient(1.0, y[0]);
    forall t ensures CombinesHere(s, x, [1.0], k, y, t) {
      EvalProduct(s, x, t);
      EvalDifference(Product(s, x), [1.0], t);
      EvalProduct(p, [1.0 / y[0]], t);
      ConstantIs(1.0, t);
      ConstantIs(1.0 / y[0], t);
      ConstantIs(y[0], t);
      assert y == [y[0]];
      Regroup(Eval(p, t), 1.0 / y[0], y[0]);
      assert 1.0 / y[0] * y[0] == 1.0;
      Units(Eval(p, t), 0.0);
    }
    assert Combines(s, x, [1.0], k, y);
  }

  lemma TrimCombines(s: Poly, x: Poly, v: Poly, k: Poly, y: Poly)
    requires Combines(s, x, v, k, y)
    ensures Combines(s, x, v, Trim(k), y)
  {
    hide Eval;
    forall t ensures CombinesHere(s, x, v, Trim(k), y, t) {
      CombinesAt(s, x, v, k, y, t);
      EvalTrim(k, t);
    }
  }

  /** Two remainders of smaller degree for one product are equal. */
  lemma OnlyOne(s: Poly, x: Poly, v: Poly, k: Poly, k': Poly, y: Poly)
    requires Trimmed(s) && Trimmed(x) && Trimmed(v) && Trimmed(y) && 1 <= Deg(y) && Deg(v) <= 0
    requires Combines(s, x, v, k, y) && Combines(s, x, [1.0], k', y)
    ensures v == [1.0]
  {
    hide Eval, Combines, IsDivision, Product, Trim;
    var q, q' := Trim(k), Trim(k');
    TrimCombines(s, x, v, k, y);
    TrimCombines(s, x, [1.0], k', y);
    AsDivision(s, x, v, q, y);
    AsDivision(s, x, [1.0], q', y);
    DivRemUnique(Product(s, x), y, q, v, q', [1.0]);
  }

  lemma AsDivision(s: Poly, x: Poly, v: Poly, k: Poly, y: Poly)
    requires 1 <= |s| && 1 <= |x| && Combines(s, x, v, k, y)
    ensures IsDivision(Product(s, x), k, y, v)
  {
    hide Eval, Combines, Product;
    forall t ensures DivisionHere(Product(s, x), k, y, v, t) {
      CombinesAt(s, x, v, k, y, t);
      EvalProduct(s, x, t);
    }
  }

  /** The last remainder divides both operands. */
  ghost predicate Factors(p: Poly, v: Poly) {
    exists f :: Trimmed(f) && TimesIs(f, v, p)
  }

  ghost predicate TimesIs(f: Poly, v: Poly, p: Poly) {
    forall t :: Eval(f, t) * Eval(v, t) == Eval(p, t)
  }

  lemma TimesAt(f: Poly, v: Poly, p: Poly, t: real)
    requires TimesIs(f, v, p)
    ensures Eval(f, t) * Eval(v, t) == Eval(p, t)
  {
    hide Eval;
  }

  lemma {:induction false} LastRemainderDivides(u: Poly, v: Poly)
    requires Trimmed(u) && Trimmed(v)
    ensures Factors(u, LastRemainder(u, v)) && Factors(v, LastRemainder(u, v))
    decreases Deg(u) + 1
  {
    hide Eval, TimesIs, IsDivision, DivRem;
    var w := LastRemainder(u, v);
    if Deg(u) < 0 {
      ZeroAndOne(w);
    } else {
      DivRemIs(v, u);
      var q, r := DivRem(v, u).0, DivRem(v, u).1;
      LastRemainderDivides(r, u);
      var f :| Trimmed(f) && TimesIs(f, w, r);
      var g :| Trimmed(g) && TimesIs(g, w, u);
      SumFactors(v, q, u, r, f, g, w);
    }
  }

  lemma ZeroAndOne(w: Poly)
    ensures Factors([0.0], w) && Factors(w, w)
  {
    hide Eval;
    forall t ensures Eval([0.0], t) * Eval(w, t) == Eval([0.0], t) && Eval([1.0], t) * Eval(w, t) == Eval(w, t) {
      Constants(t);
      Units(Eval(w, t), 0.0);
    }
    assert TimesIs([0.0], w, [0.0]) && TimesIs([1.0], w, w);
  }

  lemma SumFactors(v: Poly, q: Poly, u: Poly, r: Poly, f: Poly, g: Poly, w: Poly)
    requires 1 <= |q| && 1 <= |g| && IsDivision(v, q, u, r) && TimesIs(f, w, r) && TimesIs(g, w, u)
    ensures Factors(v, w)
  {
    hide Eval, IsDivision, Product, Sum;
    var h := Sum(Product(q, g), f);
    forall t ensures Eval(h, t) * Eval(w, t) == Eval(v, t) {
      DivisionAt(v, q, u, r, t);
      TimesAt(f, w, r, t);
      TimesAt(g, w, u, t);
      EvalProduct(q, g, t);
      EvalSum(Product(q, g), f, t);
      Factor(Eval(q, t) * Eval(g, t), Eval(f, t), Eval(w, t));
      Regroup(Eval(q, t), Eval(g, t), Eval(w, t));
    }
    assert TimesIs(h, w, v);
  }

  /** When invmod throws for a modulus other than zero there is no inverse. */
  lemma NotInvertible(x: Poly, y: Poly)
    requires Trimmed(x) && Trimmed(y) && 0 < Deg(LastRemainder(x, y))
    ensures forall s :: Trimmed(s) ==> !IsInverse(s, x, y)
  {
    hide LastRemainder, Factors, Combines, Eval;
    forall s ensures Trimmed(s) ==> !IsInverse(s, x, y) {
      if Trimmed(s) && IsInverse(s, x, y) {
        var k :| Trimmed(k) && Combines(s, x, [1.0], k, y);
        LastRemainderDivides(x, y);
        DividesOne(s, x, k, y, LastRemainder(x, y));
      }
    }
  }

  lemma DividesOne(s: Poly, x: Poly, k: Poly, y: Poly, w: Poly)
    requires Trimmed(s) && Trimmed(k) && Trimmed(w) && Combines(s, x, [1.0], k, y) && Factors(x, w) && Factors(y, w)
    ensures Deg(w) <= 0
  {
    hide Eval, Combines, TimesIs, Product, Difference;
    var f :| Trimmed(f) && TimesIs(f, w, x);
    var g :| Trimmed(g) && TimesIs(g, w, y);
    var h := MinusTimes(Product(s, f), k, g);
    forall t ensures Eval(Product(h, w), t) == Eval([1.0], t) {
      CombinesAt(s, x, [1.0], k, y, t);
      TimesAt(f, w, x, t);
      TimesAt(g, w, y, t);
      EvalProduct(s, f, t);
      EvalMinusTimes(Product(s, f), k, g, t);
      EvalProduct(h, w, t);
      Subtracted(Eval(s, t) * Eval(f, t), Eval(k, t) * Eval(g, t), Eval(w, t));
      Regroup(Eval(s, t), Eval(f, t), Eval(w, t));
      Regroup(Eval(k, t), Eval(g, t), Eval(w, t));
    }
    ValuesDetermine(Product(h, w), [1.0]);
    UnitFactor(h, w);
  }

  lemma UnitFactor(h: Poly, w: Poly)
    requires Trimmed(h) && Trimmed(w) && Product(h, w) == [1.0]
    ensures Deg(w) <= 0
  {
    if h == [0.0] {
      ZeroProduct(w);
    } else if w != [0.0] {
      ProductDegree(h, w);
    }
  }

  lemma ZeroProduct(w: Poly)
    requires 1 <= |w|
    ensures Product([0.0], w) != [1.0]
  {
    hide Product;
    EvalProduct([0.0], w, 0.0);
    Constants(0.0);
  }

  /** X + 1 modulo X^2 + 1: the last remainder is 2, so the result of invmod is twice an inverse. */
  lemma InvModDiffers()
    ensures var x, y := [1.0, 1.0], [1.0, 0.0, 1.0];
      LastRemainder(x, y) == [2.0] && forall s :: Trimmed(s) && (exists k :: Combines(s, x, [2.0], k, y)) ==> !IsInverse(s, x, y)
  {
    hide Eval, Combines, DivRem, IsDivision;
    var x, y := [1.0, 1.0], [1.0, 0.0, 1.0];
    ExampleRemainder(x, y);
    DivRemIs(x, [2.0]);
    assert LastRemainder([0.0], [2.0]) == [2.0];
    assert LastRemainder([2.0], x) == LastRemainder([0.0], [2.0]);
    forall s | Trimmed(s) && (exists k :: Combines(s, x, [2.0], k, y)) ensures !IsInverse(s, x, y) {
      InverseExactly(s, x, y);
    }
  }

  lemma ExampleRemainder(x: Poly, y: Poly)
    requires x == [1.0, 1.0] && y == [1.0, 0.0, 1.0]
    ensures DivRem(y, x).1 == [2.0]
  {
    hide Eval, DivRem, IsDivision;
    DivRemIs(y, x);
    var q := [-1.0, 1.0];
    ExampleDivision(x, y, q);
    DivRemUnique(y, x, DivRem(y, x).0, DivRem(y, x).1, q, [2.0]);
  }

  lemma ExampleDivision(x: Poly, y: Poly, q: Poly)
    requires x == [1.0, 1.0] && y == [1.0, 0.0, 1.0] && q == [-1.0, 1.0]
    ensures IsDivision(y, q, x, [2.0])
  {
    hide Eval;
    forall t ensures DivisionHere(y, q, x, [2.0], t) {
      Linear(1.0, 1.0, t);
      Linear(-1.0, 1.0, t);
      Linear(0.0, 1.0, t);
      EvalNext(y, t);
      assert y[1..] == [0.0, 1.0];
      ConstantIs(2.0, t);
      assert (t - 1.0) * (t + 1.0) == t * t - 1.0;
    }
  }

  lemma Linear(a: real, b: real, t: real)
    ensures Eval([a, b], t) == a + t * b
  {
    hide Eval;
    EvalNext([a, b], t);
    assert [a, b][1..] == [b];
    ConstantIs(b, t);
  }
}
