/**
 The opcode emitted for a character class, with its binary search, accepts exactly the members of
 the class.
 */
module RegexClass {
  import opened RegexSyntax
  import opened RegexBytecode
  import opened RegexVm

  function Entry(pts: seq<nat>, wide: bool, k: nat): int
    requires k < |pts|
  {
    if k % 2 == 0 then pts[k]
    else if !wide && pts[k] == UINT32_MAX then 0xffff
    else pts[k] as int - 1
  }

  ghost predicate Sorted(pts: seq<nat>) {
    |pts| % 2 == 0 && forall k, l :: 0 <= k < l < |pts| ==> pts[k] < pts[l]
  }

  ghost predicate FitsTable(pts: seq<nat>, wide: bool) {
    forall k :: 0 <= k < |pts| ==> pts[k] <= UINT32_MAX && (!wide ==> Entry(pts, wide, k) <= 0xffff)
  }

  lemma {:induction false} TableEntry(code: seq<byte>, tab: nat, pts: seq<nat>, wide: bool, k: nat)
    requires Sorted(pts) && FitsTable(pts, wide) && k < |pts|
    requires At(code, tab, RangeTable(pts, wide))
    ensures Slot(tab, wide, k + 1) <= |code|
    ensures TableValue(code, tab, wide, k) == Entry(pts, wide, k)
    decreases k
  {
    hide At, RangeTable, Sorted, FitsTable, Entry, GetU16, GetU32;
    FirstEntries(code, tab, pts, wide);
    if 2 <= k {
      RestFits(pts, wide);
      RestEntry(pts, wide, k);
      TableEntry(code, Slot(tab, wide, 2), pts[2..], wide, k - 2);
    }
  }

  lemma RestEntry(pts: seq<nat>, wide: bool, k: nat)
    requires 2 <= k < |pts|
    ensures Entry(pts[2..], wide, k - 2) == Entry(pts, wide, k)
  {
  }

  lemma RestFits(pts: seq<nat>, wide: bool)
    requires Sorted(pts) && FitsTable(pts, wide) && 2 <= |pts|
    ensures Sorted(pts[2..]) && FitsTable(pts[2..], wide)
  {
    hide Entry;
    forall k | 0 <= k < |pts[2..]| ensures pts[2..][k] <= UINT32_MAX && (!wide ==> Entry(pts[2..], wide, k) <= 0xffff) {
      RestEntry(pts, wide, k + 2);
    }
  }

  lemma FirstEntries(code: seq<byte>, tab: nat, pts: seq<nat>, wide: bool)
    requires Sorted(pts) && FitsTable(pts, wide) && pts != []
    requires At(code, tab, RangeTable(pts, wide))
    ensures Slot(tab, wide, 2) <= |code|
    ensures TableValue(code, tab, wide, 0) == Entry(pts, wide, 0)
    ensures TableValue(code, tab, wide, 1) == Entry(pts, wide, 1)
    ensures At(code, Slot(tab, wide, 2), RangeTable(pts[2..], wide))
  {
    hide At, U16, U32, GetU16, GetU32, Sorted, Entry;
    FirstAreBytes(pts, wide);
    var e0, e1 := Entry(pts, wide, 0), Entry(pts, wide, 1);
    var rest := RangeTable(pts[2..], wide);
    if wide {
      AtSplit(code, tab, U32(e0) + U32(e1), rest);
      AtSplit(code, tab, U32(e0), U32(e1));
      U32RoundTrip(code, tab, e0);
      U32RoundTrip(code, tab + 4, e1);
    } else {
      AtSplit(code, tab, U16(e0) + U16(e1), rest);
      AtSplit(code, tab, U16(e0), U16(e1));
      U16RoundTrip(code, tab, e0);
      U16RoundTrip(code, tab + 2, e1);
    }
  }

  lemma FirstAreBytes(pts: seq<nat>, wide: bool)
    requires Sorted(pts) && FitsTable(pts, wide) && pts != []
    ensures 2 <= |pts| && |pts| % 2 == 0 && 0 <= Entry(pts, wide, 0) <= UINT32_MAX && 0 <= Entry(pts, wide, 1) <= UINT32_MAX
    ensures !wide ==> Entry(pts, wide, 0) <= 0xffff && Entry(pts, wide, 1) <= 0xffff
    ensures RangeTable(pts, wide) == (if wide then U32(Entry(pts, wide, 0)) + U32(Entry(pts, wide, 1))
      else U16(Entry(pts, wide, 0)) + U16(Entry(pts, wide, 1))) + RangeTable(pts[2..], wide)
  {
    hide U16, U32;
  }

  /** `c` lies in interval `k` of the boundary list. */
  predicate Hit(pts: seq<nat>, c: nat, k: int) {
    0 <= k && 2 * k + 1 < |pts| && pts[2 * k] <= c < pts[2 * k + 1]
  }

  ghost predicate TableOf(t: seq<nat>, pts: seq<nat>, wide: bool) {
    |t| == |pts| && Sorted(pts) && forall j :: 0 <= j < |t| ==> t[j] == Entry(pts, wide, j)
  }

  lemma EmittedTable(code: seq<byte>, tab: nat, pts: seq<nat>, wide: bool)
    requires Sorted(pts) && FitsTable(pts, wide) && pts != []
    requires At(code, tab, RangeTable(pts, wide))
    ensures Slot(tab, wide, |pts|) <= |code| && TableOf(Table(code, tab, wide, |pts| / 2), pts, wide)
  {
    TableEntry(code, tab, pts, wide, |pts| - 1);
    var t := Table(code, tab, wide, |pts| / 2);
    forall j | 0 <= j < |t| ensures t[j] == Entry(pts, wide, j) {
      TableEntry(code, tab, pts, wide, j);
    }
  }

  /** One comparison of the binary search. */
  lemma Probe(t: seq<nat>, pts: seq<nat>, wide: bool, c: nat, idx: nat)
    requires TableOf(t, pts, wide) && 2 * idx + 1 < |pts|
    requires c < if wide then UINT32_MAX else 0xffff
    ensures c < t[2 * idx] ==> forall k :: Hit(pts, c, k) ==> k < idx
    ensures t[2 * idx + 1] < c ==> forall k :: Hit(pts, c, k) ==> idx < k
    ensures t[2 * idx] <= c <= t[2 * idx + 1] ==> Hit(pts, c, idx)
  {
    assert t[2 * idx] == Entry(pts, wide, 2 * idx) && t[2 * idx + 1] == Entry(pts, wide, 2 * idx + 1);
  }

  lemma {:induction false} SearchFinds(t: seq<nat>, pts: seq<nat>, wide: bool, c: nat, lo: int, hi: int)
    requires TableOf(t, pts, wide)
    requires 0 <= lo && 2 * hi + 1 < |pts| && -1 <= hi
    requires c < if wide then UINT32_MAX else 0xffff
    ensures Search(t, c, lo, hi) <==> exists k :: lo <= k <= hi && Hit(pts, c, k)
    decreases hi - lo + 1
  {
    hide Hit, Entry;
    if lo <= hi {
      var idx := (lo + hi) / 2;
      Probe(t, pts, wide, c, idx);
      if c < t[2 * idx] {
        SearchFinds(t, pts, wide, c, lo, idx - 1);
      } else if t[2 * idx + 1] < c {
        SearchFinds(t, pts, wide, c, idx + 1, hi);
      }
    }
  }

  lemma HitIsMember(pts: seq<nat>, c: nat)
    ensures InPoints(pts, c) <==> exists k :: Hit(pts, c, k)
  {
    if InPoints(pts, c) {
      var k :| 0 <= 2 * k && 2 * k + 1 < |pts| && pts[2 * k] <= c < pts[2 * k + 1];
      assert Hit(pts, c, k);
    }
    if k :| Hit(pts, c, k) {
      assert 0 <= 2 * k;
    }
  }

  lemma HitBounds(pts: seq<nat>, c: nat, k: int)
    requires Sorted(pts) && Hit(pts, c, k)
    ensures pts[0] <= c < pts[|pts| - 1]
  {
  }

  lemma InTableFinds(t: seq<nat>, pts: seq<nat>, wide: bool, c: nat)
    requires TableOf(t, pts, wide) && pts != []
    requires c < UINT32_MAX && wide == NeedsWide(pts)
    ensures InTable(t, wide, |pts| / 2, c) <==> exists k :: Hit(pts, c, k)
  {
    hide Search;
    var n := |pts| / 2;
    var last := 2 * n - 1;
    assert t[0] == pts[0] && t[last] == Entry(pts, wide, last) && last == |pts| - 1;
    forall k | Hit(pts, c, k) ensures pts[0] <= c < pts[last] && 0 <= k <= n - 1 {
      HitBounds(pts, c, k);
    }
    if pts[0] <= c < pts[last] {
      if !wide && 0xffff <= c {
        assert pts[last - 1] <= 0xffff;
        assert Hit(pts, c, n - 1);
      } else {
        SearchFinds(t, pts, wide, c, 0, n - 1);
      }
    }
  }

  /** Sorted boundary points, as the parser hands them to re_emit_range, fit the table it chooses. */
  lemma ChosenTableFits(pts: seq<nat>)
    requires ValidPoints(pts) && pts != []
    ensures FitsTable(pts, NeedsWide(pts))
  {
    var wide := NeedsWide(pts);
    if !wide {
      forall k | 0 <= k < |pts| ensures pts[k] <= UINT32_MAX && Entry(pts, wide, k) <= 0xffff {
        if k < |pts| - 1 {
          assert pts[k] <= pts[|pts| - 2] < pts[|pts| - 1];
        }
      }
    }
  }

  /** What a class opcode is, up to its table. */
  lemma ClassInstr(code: seq<byte>, pc: nat, pts: seq<nat>)
    requires ValidPoints(pts) && At(code, pc, ClassCode(pts)) && pts != []
    ensures pc + |ClassCode(pts)| <= |code| && InstrSize(code, pc) == |ClassCode(pts)|
    ensures code[pc] == (if NeedsWide(pts) then OP_RANGE32 else OP_RANGE)
    ensures GetU16(code, pc + 1) == |pts| / 2
    ensures At(code, pc + 3, RangeTable(pts, NeedsWide(pts)))
  {
    hide RangeTable;
    var wide := NeedsWide(pts);
    var op := if wide then OP_RANGE32 else OP_RANGE;
    AtSplit(code, pc, Op16(op, |pts| / 2), RangeTable(pts, wide));
    AtOp16(code, pc, op, |pts| / 2);
  }

  /** The table of a class opcode has exactly the members of the class. */
  lemma TableAccepts(code: seq<byte>, pc: nat, pts: seq<nat>, c: nat)
    requires ValidPoints(pts) && At(code, pc, ClassCode(pts)) && pts != [] && c < UINT32_MAX
    ensures Slot(pc + 3, NeedsWide(pts), |pts|) <= |code|
    ensures InTable(Table(code, pc + 3, NeedsWide(pts), |pts| / 2), NeedsWide(pts), |pts| / 2, c) <==> InPoints(pts, c)
  {
    hide RangeTable, InTable, ClassCode, InPoints, Table, GetU16, NeedsWide;
    var wide := NeedsWide(pts);
    ClassInstr(code, pc, pts);
    ChosenTableFits(pts);
    EmittedTable(code, pc + 3, pts, wide);
    HitIsMember(pts, c);
    InTableFinds(Table(code, pc + 3, wide, |pts| / 2), pts, wide, c);
  }

  /** The empty class is a character that no string has. */
  lemma EmptyClassAccepts(m: Machine, pc: nat, i: nat)
    requires At(m.code, pc, ClassCode([]))
    requires i <= |m.subject.chars| && forall k :: 0 <= k < |m.subject.chars| ==> m.subject.chars[k] < UINT32_MAX
    ensures pc + |ClassCode([])| <= |m.code| && InstrSize(m.code, pc) == |ClassCode([])|
    ensures IsCharOp(m.code[pc])
    ensures ExecBasic(m, pc, i) == if i < |m.subject.chars| then Bool(false, pc + |ClassCode([])|, i + 1) else Reject
  {
    hide RangeTable, InTable, Table, GetU16, NeedsWide, At;
    assert Op32(OP_CHAR32, -1) == Op32(OP_CHAR32, UINT32_MAX) by { assert -1 % TWO32 == UINT32_MAX; }
    AtOp32(m.code, pc, OP_CHAR32, UINT32_MAX);
  }

  lemma ClassAccepts(m: Machine, pc: nat, pts: seq<nat>, i: nat)
    requires ValidPoints(pts) && At(m.code, pc, ClassCode(pts))
    requires i <= |m.subject.chars| && forall k :: 0 <= k < |m.subject.chars| ==> m.subject.chars[k] < UINT32_MAX
    ensures pc + |ClassCode(pts)| <= |m.code| && InstrSize(m.code, pc) == |ClassCode(pts)|
    ensures IsCharOp(m.code[pc])
    ensures ExecBasic(m, pc, i)
         == if i < |m.subject.chars| then Bool(InPoints(pts, m.subject.chars[i]), pc + |ClassCode(pts)|, i + 1) else Reject
  {
    if pts == [] {
      EmptyClassAccepts(m, pc, i);
    } else {
      hide RangeTable, InTable, ClassCode, InPoints, Table, GetU16, NeedsWide, At, InstrSize, ExecBasic;
      ClassInstr(m.code, pc, pts);
      RangeStep(m, pc, NeedsWide(pts), i);
      if i < |m.subject.chars| {
        TableAccepts(m.code, pc, pts, m.subject.chars[i]);
      }
    }
  }

  /** How a class opcode runs. */
  lemma RangeStep(m: Machine, pc: nat, wide: bool, i: nat)
    requires i <= |m.subject.chars| && InstrSize(m.code, pc) != 0 && pc + 3 <= |m.code|
    requires m.code[pc] == (if wide then OP_RANGE32 else OP_RANGE) && GetU16(m.code, pc + 1) != 0
    requires Slot(pc + 3, wide, 2 * GetU16(m.code, pc + 1)) <= |m.code|
    ensures IsCharOp(m.code[pc])
    ensures var n := GetU16(m.code, pc + 1);
      ExecBasic(m, pc, i) ==
        if i < |m.subject.chars| then Bool(InTable(Table(m.code, pc + 3, wide, n), wide, n, m.subject.chars[i]), pc + InstrSize(m.code, pc), i + 1)
        else Reject
  {
    hide InTable, Table, GetU16, InstrSize;
  }
}
