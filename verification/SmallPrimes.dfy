/**
 The primes below 500, and the proof that none is missing.
 */
module SmallPrimes {
  const PART0: seq<int> := [2, 3, 5, 7, 11, 13, 17, 19, 23, 29]
  const PART1: seq<int> := [31, 37, 41, 43, 47, 53, 59]
  const PART2: seq<int> := [61, 67, 71, 73, 79, 83, 89]
  const PART3: seq<int> := [97, 101, 103, 107, 109, 113]
  const PART4: seq<int> := [127, 131, 137, 139, 149]
  const PART5: seq<int> := [151, 157, 163, 167, 173, 179]
  const PART6: seq<int> := [181, 191, 193, 197, 199]
  const PART7: seq<int> := [211, 223, 227, 229, 233, 239]
  const PART8: seq<int> := [241, 251, 257, 263, 269]
  const PART9: seq<int> := [271, 277, 281, 283, 293]
  const PART10: seq<int> := [307, 311, 313, 317]
  const PART11: seq<int> := [331, 337, 347, 349, 353, 359]
  const PART12: seq<int> := [367, 373, 379, 383, 389]
  const PART13: seq<int> := [397, 401, 409, 419]
  const PART14: seq<int> := [421, 431, 433, 439, 443, 449]
  const PART15: seq<int> := [457, 461, 463, 467, 479]
  const PART16: seq<int> := [487, 491, 499]

  /** The trial divisors and Miller-Rabin bases. */
  const SMALL_PRIMES: seq<int> :=
    PART0 + PART1 + PART2 + PART3 + PART4 + PART5 + PART6 + PART7 + PART8 +
    PART9 + PART10 + PART11 + PART12 + PART13 + PART14 + PART15 + PART16

  /** No factor among the first eight primes. */
  predicate Sieved(d: int) {
    && d % 2 != 0 && d % 3 != 0 && d % 5 != 0 && d % 7 != 0
    && d % 11 != 0 && d % 13 != 0 && d % 17 != 0 && d % 19 != 0
  }

  /** What is left modulo 30 without multiples of 2, 3 and 5. */
  lemma Wheel(r: nat)
    requires r < 30 && r % 2 != 0 && r % 3 != 0 && r % 5 != 0
    ensures r in {1, 7, 11, 13, 17, 19, 23, 29}
  {
    assert r == 1 || r == 7 || r == 11 || r == 13 || r == 17 || r == 19 || r == 23 || r == 29;
  }

  lemma Block0(d: int)
    requires 20 <= d < 30 && Sieved(d)
    ensures d in PART0
  {
    Wheel(d);
  }

  lemma Block1(d: int)
    requires 30 <= d < 60 && Sieved(d)
    ensures d in PART1
  {
    Wheel(d - 30);
  }

  lemma Block2(d: int)
    requires 60 <= d < 90 && Sieved(d)
    ensures d in PART2
  {
    Wheel(d - 60);
  }

  lemma Block3(d: int)
    requires 90 <= d < 120 && Sieved(d)
    ensures d in PART3
  {
    Wheel(d - 90);
  }

  lemma Block4(d: int)
    requires 120 <= d < 150 && Sieved(d)
    ensures d in PART4
  {
    Wheel(d - 120);
  }

  lemma Block5(d: int)
    requires 150 <= d < 180 && Sieved(d)
    ensures d in PART5
  {
    Wheel(d - 150);
  }

  lemma Block6(d: int)
    requires 180 <= d < 210 && Sieved(d)
    ensures d in PART6
  {
    Wheel(d - 180);
  }

  lemma Block7(d: int)
    requires 210 <= d < 240 && Sieved(d)
    ensures d in PART7
  {
    Wheel(d - 210);
  }

  lemma Block8(d: int)
    requires 240 <= d < 270 && Sieved(d)
    ensures d in PART8
  {
    Wheel(d - 240);
  }

  lemma Block9(d: int)
    requires 270 <= d < 300 && Sieved(d)
    ensures d in PART9
  {
    Wheel(d - 270);
  }

  lemma Block10(d: int)
    requires 300 <= d < 330 && Sieved(d)
    ensures d in PART10
  {
    Wheel(d - 300);
  }

  lemma Block11(d: int)
    requires 330 <= d < 360 && Sieved(d)
    ensures d in PART11
  {
    Wheel(d - 330);
  }

  lemma Block12(d: int)
    requires 360 <= d < 390 && Sieved(d)
    ensures d in PART12
  {
    Wheel(d - 360);
  }

  lemma Block13(d: int)
    requires 390 <= d < 420 && Sieved(d)
    ensures d in PART13
  {
    Wheel(d - 390);
  }

  lemma Block14(d: int)
    requires 420 <= d < 450 && Sieved(d)
    ensures d in PART14
  {
    Wheel(d - 420);
  }

  lemma Block15(d: int)
    requires 450 <= d < 480 && Sieved(d)
    ensures d in PART15
  {
    Wheel(d - 450);
  }

  lemma Block16(d: int)
    requires 480 <= d < 500 && Sieved(d)
    ensures d in PART16
  {
    Wheel(d - 480);
  }

  /** Every number that survives the sieve is in the list. */
  lemma SievedIsListed(d: int)
    requires 20 <= d < 500 && Sieved(d)
    ensures d in SMALL_PRIMES
  {
    hide Sieved;
    match d / 30 {
      case 0 => Block0(d);
      case 1 => Block1(d);
      case 2 => Block2(d);
      case 3 => Block3(d);
      case 4 => Block4(d);
      case 5 => Block5(d);
      case 6 => Block6(d);
      case 7 => Block7(d);
      case 8 => Block8(d);
      case 9 => Block9(d);
      case 10 => Block10(d);
      case 11 => Block11(d);
      case 12 => Block12(d);
      case 13 => Block13(d);
      case 14 => Block14(d);
      case 15 => Block15(d);
      case _ => Block16(d);
    }
  }

  lemma FirstEight()
    ensures 2 in PART0 && 3 in PART0 && 5 in PART0 && 7 in PART0 && 11 in PART0 && 13 in PART0 && 17 in PART0 && 19 in PART0
    ensures forall p :: p in PART0 ==> p in SMALL_PRIMES
  {
  }

  lemma BelowTwenty(d: int)
    requires 2 <= d < 20
    ensures !Sieved(d)
  {
    if d % 2 != 0 && d % 3 != 0 {
      assert d == 5 || d == 7 || d == 11 || d == 13 || d == 17 || d == 19;
    }
  }

  lemma FirstFactor(d: int) returns (p: int)
    requires 2 <= d && !Sieved(d)
    ensures p in PART0 && 2 <= p && d % p == 0
  {
    FirstEight();
    if d % 2 == 0 { return 2; }
    if d % 3 == 0 { return 3; }
    if d % 5 == 0 { return 5; }
    if d % 7 == 0 { return 7; }
    if d % 11 == 0 { return 11; }
    if d % 13 == 0 { return 13; }
    if d % 17 == 0 { return 17; }
    return 19;
  }

  /** Every number from 2 to 499 has a factor in the list. */
  lemma SmallFactor(d: int) returns (p: int)
    requires 2 <= d < 500
    ensures p in SMALL_PRIMES && 2 <= p && d % p == 0
  {
    hide Sieved;
    FirstEight();
    if d < 20 { BelowTwenty(d); }
    if Sieved(d) {
      SievedIsListed(d);
      p := d;
    } else {
      p := FirstFactor(d);
    }
  }

  predicate Eight(p: int) {
    p == 2 || p == 3 || p == 5 || p == 7 || p == 11 || p == 13 || p == 17 || p == 19
  }

  predicate Listable(p: int) {
    2 <= p < 500 && (Eight(p) || Sieved(p))
  }

  /** Nothing else is in the list. */
  lemma ListedSurvives(p: int)
    requires p in SMALL_PRIMES
    ensures Listable(p)
  {
    hide Listable;
    Part0Listable(p);
    Part1Listable(p);
    Part2Listable(p);
    Part3Listable(p);
    Part4Listable(p);
    Part5Listable(p);
    Part6Listable(p);
    Part7Listable(p);
    Part8Listable(p);
    Part9Listable(p);
    Part10Listable(p);
    Part11Listable(p);
    Part12Listable(p);
    Part13Listable(p);
    Part14Listable(p);
    Part15Listable(p);
    Part16Listable(p);
  }

  lemma Part0Listable(p: int)
    ensures p in PART0 ==> Listable(p)
  {
  }

  lemma Part1Listable(p: int)
    ensures p in PART1 ==> Listable(p)
  {
  }

  lemma Part2Listable(p: int)
    ensures p in PART2 ==> Listable(p)
  {
  }

  lemma Part3Listable(p: int)
    ensures p in PART3 ==> Listable(p)
  {
  }

  lemma Part4Listable(p: int)
    ensures p in PART4 ==> Listable(p)
  {
  }

  lemma Part5Listable(p: int)
    ensures p in PART5 ==> Listable(p)
  {
  }

  lemma Part6Listable(p: int)
    ensures p in PART6 ==> Listable(p)
  {
  }

  lemma Part7Listable(p: int)
    ensures p in PART7 ==> Listable(p)
  {
  }

  lemma Part8Listable(p: int)
    ensures p in PART8 ==> Listable(p)
  {
  }

  lemma Part9Listable(p: int)
    ensures p in PART9 ==> Listable(p)
  {
  }

  lemma Part10Listable(p: int)
    ensures p in PART10 ==> Listable(p)
  {
  }

  lemma Part11Listable(p: int)
    ensures p in PART11 ==> Listable(p)
  {
  }

  lemma Part12Listable(p: int)
    ensures p in PART12 ==> Listable(p)
  {
  }

  lemma Part13Listable(p: int)
    ensures p in PART13 ==> Listable(p)
  {
  }

  lemma Part14Listable(p: int)
    ensures p in PART14 ==> Listable(p)
  {
  }

  lemma Part15Listable(p: int)
    ensures p in PART15 ==> Listable(p)
  {
  }

  lemma Part16Listable(p: int)
    ensures p in PART16 ==> Listable(p)
  {
  }

  /** Strictly increasing, from lo up to below hi. */
  ghost predicate Ascending(s: seq<int>, lo: int, hi: int) {
    (forall i :: 0 <= i < |s| ==> lo <= s[i] < hi) &&
    forall i, j :: 0 <= i < j < |s| ==> s[i] < s[j]
  }

  lemma Append(s: seq<int>, t: seq<int>, lo: int, mid: int, hi: int)
    requires Ascending(s, lo, mid) && Ascending(t, mid, hi) && lo <= mid <= hi
    ensures Ascending(s + t, lo, hi)
  {
  }

  lemma ListAscends()
    ensures Ascending(SMALL_PRIMES, 2, 500) && |SMALL_PRIMES| == 95 && SMALL_PRIMES[94] == 499
  {
    hide Ascending;
    Part0Ascends();
    Part1Ascends();
    Part2Ascends();
    Part3Ascends();
    Part4Ascends();
    Part5Ascends();
    Part6Ascends();
    Part7Ascends();
    Part8Ascends();
    Part9Ascends();
    Part10Ascends();
    Part11Ascends();
    Part12Ascends();
    Part13Ascends();
    Part14Ascends();
    Part15Ascends();
    Part16Ascends();
    var s1 := PART0 + PART1;
    Append(PART0, PART1, 2, 30, 60);
    var s2 := s1 + PART2;
    Append(s1, PART2, 2, 60, 90);
    var s3 := s2 + PART3;
    Append(s2, PART3, 2, 90, 120);
    var s4 := s3 + PART4;
    Append(s3, PART4, 2, 120, 150);
    var s5 := s4 + PART5;
    Append(s4, PART5, 2, 150, 180);
    var s6 := s5 + PART6;
    Append(s5, PART6, 2, 180, 210);
    var s7 := s6 + PART7;
    Append(s6, PART7, 2, 210, 240);
    var s8 := s7 + PART8;
    Append(s7, PART8, 2, 240, 270);
    var s9 := s8 + PART9;
    Append(s8, PART9, 2, 270, 300);
    var s10 := s9 + PART10;
    Append(s9, PART10, 2, 300, 330);
    var s11 := s10 + PART11;
    Append(s10, PART11, 2, 330, 360);
    var s12 := s11 + PART12;
    Append(s11, PART12, 2, 360, 390);
    var s13 := s12 + PART13;
    Append(s12, PART13, 2, 390, 420);
    var s14 := s13 + PART14;
    Append(s13, PART14, 2, 420, 450);
    var s15 := s14 + PART15;
    Append(s14, PART15, 2, 450, 480);
    var s16 := s15 + PART16;
    Append(s15, PART16, 2, 480, 500);
    assert s16 == SMALL_PRIMES;
  }

  lemma Part0Ascends()
    ensures Ascending(PART0, 2, 30)
  {
  }

  lemma Part1Ascends()
    ensures Ascending(PART1, 30, 60)
  {
  }

  lemma Part2Ascends()
    ensures Ascending(PART2, 60, 90)
  {
  }

  lemma Part3Ascends()
    ensures Ascending(PART3, 90, 120)
  {
  }

  lemma Part4Ascends()
    ensures Ascending(PART4, 120, 150)
  {
  }

  lemma Part5Ascends()
    ensures Ascending(PART5, 150, 180)
  {
  }

  lemma Part6Ascends()
    ensures Ascending(PART6, 180, 210)
  {
  }

  lemma Part7Ascends()
    ensures Ascending(PART7, 210, 240)
  {
  }

  lemma Part8Ascends()
    ensures Ascending(PART8, 240, 270)
  {
  }

  lemma Part9Ascends()
    ensures Ascending(PART9, 270, 300)
  {
  }

  lemma Part10Ascends()
    ensures Ascending(PART10, 300, 330)
  {
  }

  lemma Part11Ascends()
    ensures Ascending(PART11, 330, 360)
  {
  }

  lemma Part12Ascends()
    ensures Ascending(PART12, 360, 390)
  {
  }

  lemma Part13Ascends()
    ensures Ascending(PART13, 390, 420)
  {
  }

  lemma Part14Ascends()
    ensures Ascending(PART14, 420, 450)
  {
  }

  lemma Part15Ascends()
    ensures Ascending(PART15, 450, 480)
  {
  }

  lemma Part16Ascends()
    ensures Ascending(PART16, 480, 500)
  {
  }
}
