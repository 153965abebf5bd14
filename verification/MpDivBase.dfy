/**
 Schoolbook division of libbf.c: one quotient digit at a time, guessed from the top limbs and then
 repaired.
 */
module MpDivBase {
  import opened Limbs
  import opened MpBase
  import opened Udiv

  /** The divisor is normalized. */
  ghost predicate Normalized(b: seq<limb>, bo: nat, nb: nat) {
    1 <= nb && bo + nb <= |b| && HALF <= b[bo + nb - 1]
  }

  lemma NormalizedBounds(b: seq<limb>, bo: nat, nb: nat)
    requires Normalized(b, bo, nb)
    ensures BP(nb) == B * BP(nb - 1) && HALF * BP(nb - 1) <= V(b, bo, nb) < BP(nb)
    ensures b[bo + nb - 1] * BP(nb - 1) <= V(b, bo, nb) < (b[bo + nb - 1] as int + 1) * BP(nb - 1)
  {
    VTop(b, bo, nb);
    VBound(b, bo, nb);
    MulLe(HALF, b[bo + nb - 1], BP(nb - 1));
    Dist(b[bo + nb - 1], 1, BP(nb - 1));
  }

  /**
   A digit guessed from the top two limbs of `u` and the top limb b1 of `b` is not too small, and at
   most two too large.
   */
  lemma GuessBounds(u: int, u2: int, u0: int, b: int, b1: int, b0: int, q: int, p: int)
    requires 0 < p && u == u2 * p + u0 && 0 <= u0 < p && b == b1 * p + b0 && 0 <= b0 < p && HALF <= b1
    requires u < B * b && 0 <= q < B && q * b1 <= u2
    requires q == B - 1 || u2 < (q + 1) * b1
    ensures -2 * b <= u - q * b && u < (q + 1) * b
  {
    assert u - q * b >= -2 * b by {
      MulLe(q * b1, u2, p);
      DistL(q, b1 * p, b0);
      Assoc(q, b1, p);
      MulLe(q, B - 1, b0);
      MulLe(b0, p, B - 1);
      MulLe(HALF, b1, p);
    }
    if q == B - 1 {
      assert (q + 1) * b == B * b;
    } else {
      MulLe(u2 + 1, (q + 1) * b1, p);
      Dist(u2, 1, p);
      DistL(q + 1, b1 * p, b0);
      Assoc(q + 1, b1, p);
      MulLe(0, q + 1, b0);
    }
  }

  /** The guess of one digit in mp_divnorm; b1Inv is 0 when there is no inverse. */
  method GuessDigit(taba: array<limb>, o: nat, tabb: array<limb>, bo: nat, nb: nat, b1Inv: limb) returns (q: limb)
    requires 2 <= nb && o + nb + 1 <= taba.Length && Normalized(tabb[..], bo, nb)
    requires b1Inv == 0 || IsInverse(tabb[bo + nb - 1], b1Inv)
    requires V(taba[..], o, nb + 1) < B * V(tabb[..], bo, nb)
    ensures -2 * V(tabb[..], bo, nb) <= V(taba[..], o, nb + 1) - q * V(tabb[..], bo, nb)
    ensures V(taba[..], o, nb + 1) < (q as int + 1) * V(tabb[..], bo, nb)
  {
    hide V, BP, IsInverse;
    var b1 := tabb[bo + nb - 1];
    ghost var a, b, p := taba[..], tabb[..], BP(nb - 1);
    ghost var u2 := a[o + nb] * B + a[o + nb - 1] as int;
    TopTwo(a, o, nb);
    NormalizedBounds(b, bo, nb);
    VBound(a, o, nb - 1);
    VTop(b, bo, nb);
    if taba[o + nb] >= b1 {
      q := B - 1;
      MulLe(b1, a[o + nb], B);
      Dist(B, 1, b1);
    } else if b1Inv != 0 {
      var dummy;
      q, dummy := Udiv1norm(taba[o + nb], taba[o + nb - 1], b1, b1Inv);
      Dist(q, 1, b1);
    } else {
      var al := taba[o + nb] * B + taba[o + nb - 1] as int;
      OneDigit(taba[o + nb], taba[o + nb - 1], b1);
      q := al / b1;
      Dist(q, 1, b1);
    }
    GuessBounds(V(a, o, nb + 1), u2, V(a, o, nb - 1), V(b, bo, nb), b1, V(b, bo, nb - 1), q, p);
  }

  lemma TopTwo(a: seq<limb>, o: nat, nb: nat)
    requires 1 <= nb && o + nb + 1 <= |a|
    ensures V(a, o, nb + 1) == (a[o + nb] * B + a[o + nb - 1]) * BP(nb - 1) + V(a, o, nb - 1)
  {
    VNext(a, o, nb);
    VNext(a, o, nb - 1);
    Dist(a[o + nb] * B, a[o + nb - 1], BP(nb - 1));
    Assoc(a[o + nb], B, BP(nb - 1));
  }

  /**
   One digit of the quotient: taba[o..o + nb + 1] loses `q` times the divisor, with what is left
   below the divisor.
   */
  method NextDigit(taba: array<limb>, o: nat, tabb: array<limb>, bo: nat, nb: nat, b1Inv: limb) returns (q: limb)
    requires 2 <= nb && o + nb + 1 <= taba.Length && bo + nb <= tabb.Length && Normalized(tabb[..], bo, nb) && taba != tabb
    requires b1Inv == 0 || IsInverse(tabb[bo + nb - 1], b1Inv)
    requires V(taba[..], o, nb + 1) < B * V(tabb[..], bo, nb)
    modifies taba
    ensures Only(old(taba[..]), taba[..], o, nb + 1)
    ensures V(old(taba[..]), o, nb + 1) == q * V(tabb[..], bo, nb) + V(taba[..], o, nb)
    ensures V(taba[..], o, nb) < V(tabb[..], bo, nb)
  {
    hide V, BP, IsInverse, Wrap, Normalized;
    ghost var s, b := taba[..], V(tabb[..], bo, nb);
    ghost var u := V(s, o, nb + 1);
    q := GuessDigit(taba, o, tabb, bo, nb, b1Inv);
    var r := MpSubMul1(taba, o, tabb, bo, nb, q);
    ghost var m := taba[..];
    var v := taba[o + nb];
    UiLimb(v, r);
    var a := Wrap(v as int - r);
    var c := a > v;
    taba[o + nb] := a;
    TopSub(s, m, taba[..], o, nb, r, a, if c then 1 else 0);
    Dist(q, 1, b);
    if c {
      // the estimate was too large
      VBound(taba[..], o, nb + 1);
      q := AddBackLoop(taba, o, tabb, bo, nb, q, u);
    }
    FitsBelow(taba[..], o, nb, tabb[..], bo);
  }

  /** The top limb after a subtraction. */
  lemma TopSub(s: seq<limb>, m: seq<limb>, t: seq<limb>, o: nat, nb: nat, r: limb, a: limb, c: int)
    requires o + nb < |s| && Only(s, m, o, nb) && t == m[o + nb := a]
    requires a - c * B == s[o + nb] as int - r
    ensures Only(s, t, o, nb + 1)
    ensures V(t, o, nb + 1) - c * BP(nb + 1) == V(s, o, nb + 1) - V(s, o, nb) + V(m, o, nb) - r * BP(nb)
  {
    hide V, BP;
    VNext(s, o, nb);
    VNext(t, o, nb);
    VOnly(m, t, o, nb, o + nb, 1);
    Carry(a, -c, s[o + nb] as int - r, BP(nb));
    Dist(s[o + nb], r, BP(nb));
  }

  /** A number below the divisor has no limb above it. */
  lemma FitsBelow(t: seq<limb>, o: nat, nb: nat, b: seq<limb>, bo: nat)
    requires o + nb + 1 <= |t| && bo + nb <= |b| && V(t, o, nb + 1) < V(b, bo, nb)
    ensures V(t, o, nb) == V(t, o, nb + 1) && t[o + nb] == 0
  {
    VBound(b, bo, nb);
    VNext(t, o, nb);
    if t[o + nb] != 0 { MulLe(1, t[o + nb], BP(nb)); }
  }

  /** The repair loop of mp_divnorm: the result is negative, stored modulo B^(nb + 1). */
  method AddBackLoop(taba: array<limb>, o: nat, tabb: array<limb>, bo: nat, nb: nat, q0: limb, ghost u: int) returns (q: limb)
    requires o + nb + 1 <= taba.Length && bo + nb <= tabb.Length && taba != tabb && 0 <= u
    requires -2 * V(tabb[..], bo, nb) <= u - q0 * V(tabb[..], bo, nb) < 0
    requires V(taba[..], o, nb + 1) == u - q0 * V(tabb[..], bo, nb) + BP(nb + 1)
    modifies taba
    ensures Only(old(taba[..]), taba[..], o, nb + 1)
    ensures V(taba[..], o, nb + 1) == u - q * V(tabb[..], bo, nb)
    ensures 0 <= u - q * V(tabb[..], bo, nb) < V(tabb[..], bo, nb) && q < q0 <= q + 2
  {
    hide V, BP, Only;
    ghost var s, b := taba[..], V(tabb[..], bo, nb);
    q := q0;
    OnlySelf(s, o, nb + 1);
    while true
      invariant Only(s, taba[..], o, nb + 1) && q <= q0
      invariant u - q * b < 0 && V(taba[..], o, nb + 1) == u - q * b + BP(nb + 1)
      decreases q
    {
      Positive(u, q, b);
      Dist(q, 1, b);
      q := q - 1;
      ghost var before := taba[..];
      var c := MpAdd(taba, o, taba, o, tabb, bo, nb, 0);
      ghost var m := taba[..];
      MoreOnly(s, before, m, o, nb, nb + 1);
      AddTop(before, m, o, nb, b, c);
      // add the divisor back until the borrow is paid
      if c != 0 {
        taba[o + nb] := if taba[o + nb] == B - 1 then 0 else taba[o + nb] + 1;
        MoreTop(s, m, taba[..], o, nb);
        VBound(taba[..], o, nb + 1);
        if taba[o + nb] == 0 { break; }
      } else {
        VBound(m, o, nb + 1);
      }
    }
    AtMostTwo(u, q0, q, b);
  }

  lemma AtMostTwo(u: int, q0: int, q: int, b: int)
    requires -2 * b <= u - q0 * b && u - q * b < b && 0 <= b
    ensures q0 <= q + 2
  {
    Dist(q0, q, b);
    Dist(q0 - q, 3, b);
    LtMul(q0 - q, 3, b);
  }

  lemma Positive(u: int, q: int, b: int)
    requires 0 <= u && u - q * b < 0 && 0 <= b && 0 <= q
    ensures 0 < q
  {
  }

  lemma MoreOnly(s: seq<limb>, t: seq<limb>, u: seq<limb>, o: nat, n: nat, n': nat)
    requires n <= n' && Only(s, t, o, n') && Only(t, u, o, n)
    ensures Only(s, u, o, n')
  {
  }

  lemma MoreTop(s: seq<limb>, t: seq<limb>, u: seq<limb>, o: nat, n: nat)
    requires o + n < |t| == |u| && Only(s, t, o, n + 1) && u == t[o + n := u[o + n]]
    ensures Only(s, u, o, n + 1)
  {
  }

  /** The carry of an addition goes into the top limb. */
  lemma AddTop(s: seq<limb>, m: seq<limb>, o: nat, nb: nat, b: int, c: limb)
    requires o + nb < |s| && Only(s, m, o, nb) && c <= 1
    requires V(m, o, nb) + c * BP(nb) == V(s, o, nb) + b
    ensures c == 0 ==> V(m, o, nb + 1) == V(s, o, nb + 1) + b
    ensures c != 0 ==>
      var t := m[o + nb := if m[o + nb] == B - 1 then 0 else m[o + nb] + 1];
      V(t, o, nb + 1) == V(s, o, nb + 1) + b - if t[o + nb] == 0 then BP(nb + 1) else 0
  {
    hide V, BP;
    VNext(s, o, nb);
    VNext(m, o, nb);
    if c != 0 {
      var t := m[o + nb := if m[o + nb] == B - 1 then 0 else m[o + nb] + 1];
      VNext(t, o, nb);
      VOnly(m, t, o, nb, o + nb, 1);
      Dist(m[o + nb], 1, BP(nb));
      Dist(B, 1, BP(nb));
    }
  }
}
