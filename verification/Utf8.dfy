/**
 The UTF-8 functions of cutils.c, which also cover the sequences of five and six bytes.
 */
module Utf8 {
  import opened Wrappers

  type byte = x: int | 0 <= x < 0x100

  const UTF8_CHAR_LEN_MAX := 6

  /** The least code point with i + 1 continuation bytes; shorter ones would be overlong. */
  const UTF8_MIN_CODE: seq<int> := [0x80, 0x800, 0x1_0000, 0x20_0000, 0x400_0000]

  const UTF8_LIMIT := 0x8000_0000

  /** The number of continuation bytes. */
  function Continuations(c: int): (l: nat)
    requires 0 <= c < UTF8_LIMIT
    ensures l < UTF8_CHAR_LEN_MAX
  {
    if c < 0x80 then 0
    else if c < 0x800 then 1
    else if c < 0x1_0000 then 2
    else if c < 0x20_0000 then 3
    else if c < 0x400_0000 then 4
    else 5
  }

  /** The bits that mark the first byte of a sequence with l continuation bytes, and the number it can hold. */
  function LeadMark(l: nat): int { [0, 0xc0, 0xe0, 0xf0, 0xf8, 0xfc][if l < 6 then l else 0] }

  function LeadRoom(l: nat): int { [0x80, 0x20, 0x10, 0x8, 0x4, 0x2][if l < 6 then l else 0] }

  /** The bytes of a code point: six bits to each of the last l bytes, the rest in the first byte. */
  function Encoded(c: int, l: nat, mark: int): (s: seq<int>)
    requires 0 <= c
    ensures |s| == l + 1
  {
    if l == 0 then [mark + c] else Encoded(c / 64, l - 1, mark) + [0x80 + c % 64]
  }

  function Utf8(c: int): (s: seq<int>)
    requires 0 <= c < UTF8_LIMIT
    ensures |s| == Continuations(c) + 1
  {
    var l := Continuations(c);
    Encoded(c, l, LeadMark(l))
  }

  // ---------------------------------------------------------------- shape

  /** The first byte tells the length, and the others are continuation bytes. */
  lemma {:induction false} EncodedShape(c: int, l: nat, mark: int, room: int)
    requires 0 <= c < room * Room(l)
    ensures mark <= Encoded(c, l, mark)[0] < mark + room
    ensures forall j :: 1 <= j <= l ==> 0x80 <= Encoded(c, l, mark)[j] < 0xc0
  {
    if l != 0 {
      assert room * Room(l) == room * Room(l - 1) * 64;
      EncodedShape(c / 64, l - 1, mark, room);
    }
  }

  /** 64^l */
  function Room(l: nat): (p: int)
    ensures 0 < p
  {
    if l == 0 then 1 else 64 * Room(l - 1)
  }

  lemma Rooms()
    ensures Room(0) == 1 && Room(1) == 0x40 && Room(2) == 0x1000 && Room(3) == 0x4_0000
    ensures Room(4) == 0x100_0000 && Room(5) == 0x4000_0000
  {
    assert Room(1) == 64 * Room(0) && Room(2) == 64 * Room(1);
    assert Room(3) == 64 * Room(2) && Room(4) == 64 * Room(3);
  }

  lemma Utf8Shape(c: int)
    requires 0 <= c < UTF8_LIMIT
    ensures var l := Continuations(c);
      && LeadMark(l) <= Utf8(c)[0] < LeadMark(l) + LeadRoom(l)
      && forall j :: 1 <= j <= l ==> 0x80 <= Utf8(c)[j] < 0xc0
  {
    var l := Continuations(c);
    Rooms();
    EncodedShape(c, l, LeadMark(l), LeadRoom(l));
  }

  lemma {:induction false} EncodedInjective(c: int, d: int, l: nat, mark: int)
    requires 0 <= c && 0 <= d && Encoded(c, l, mark) == Encoded(d, l, mark)
    ensures c == d
  {
    if l != 0 {
      var s, t := Encoded(c, l, mark), Encoded(d, l, mark);
      assert s[l] == t[l];
      assert s[..l] == Encoded(c / 64, l - 1, mark) && t[..l] == Encoded(d / 64, l - 1, mark);
      EncodedInjective(c / 64, d / 64, l - 1, mark);
    }
  }

  /** The first byte alone determines the length. */
  lemma LengthFromLead(c: int, l: nat)
    requires 0 <= c < UTF8_LIMIT && l < UTF8_CHAR_LEN_MAX && LeadMark(l) <= Utf8(c)[0] < LeadMark(l) + LeadRoom(l)
    ensures Continuations(c) == l
  {
    Utf8Shape(c);
  }

  /** No code point's sequence begins another's. */
  lemma Utf8Unique(c: int, d: int, s: seq<int>)
    requires 0 <= c < UTF8_LIMIT && 0 <= d < UTF8_LIMIT && Utf8(c) <= s && Utf8(d) <= s
    ensures c == d
  {
    Utf8Shape(c);
    assert Utf8(c)[0] == s[0] == Utf8(d)[0];
    var l := Continuations(c);
    LengthFromLead(d, l);
    assert Utf8(c) == s[..l + 1] == Utf8(d);
    EncodedInjective(c, d, l, LeadMark(l));
  }

  /** RFC 2279: the bytes of a code point, range by range. */
  lemma Utf8Bytes(c: int)
    requires 0 <= c < 0x8000_0000
    ensures c < 0x80 ==> Utf8(c) == [c]
    ensures 0x80 <= c < 0x800 ==> Utf8(c) == [0xc0 + c / 0x40, 0x80 + c % 0x40]
    ensures 0x800 <= c < 0x1_0000 ==> Utf8(c) == [0xe0 + c / 0x1000, 0x80 + c / 0x40 % 0x40, 0x80 + c % 0x40]
    ensures 0x1_0000 <= c < 0x20_0000 ==>
      Utf8(c) == [0xf0 + c / 0x4_0000, 0x80 + c / 0x1000 % 0x40, 0x80 + c / 0x40 % 0x40, 0x80 + c % 0x40]
    ensures 0x20_0000 <= c < 0x400_0000 ==>
      Utf8(c) == [0xf8 + c / 0x100_0000, 0x80 + c / 0x4_0000 % 0x40, 0x80 + c / 0x1000 % 0x40, 0x80 + c / 0x40 % 0x40, 0x80 + c % 0x40]
    ensures 0x400_0000 <= c ==>
      Utf8(c) == [0xfc + c / 0x4000_0000, 0x80 + c / 0x100_0000 % 0x40, 0x80 + c / 0x4_0000 % 0x40, 0x80 + c / 0x1000 % 0x40,
                  0x80 + c / 0x40 % 0x40, 0x80 + c % 0x40]
  {
    hide Utf8;
    var l, mark := Layout(c);
    Shifted(c);
    var c1, c2, c3, c4, c5 := c / 0x40, c / 0x1000, c / 0x4_0000, c / 0x100_0000, c / 0x4000_0000;
    if l == 0 {
    } else if l == 1 {
      assert Encoded(c1, 0, mark) == [mark + c1];
    } else if l == 2 {
      assert Encoded(c1, 1, mark) == [mark + c2] + [0x80 + c1 % 64];
    } else if l == 3 {
      assert Encoded(c2, 1, mark) == [mark + c3] + [0x80 + c2 % 64];
      assert Encoded(c1, 2, mark) == Encoded(c2, 1, mark) + [0x80 + c1 % 64];
    } else if l == 4 {
      assert Encoded(c3, 1, mark) == [mark + c4] + [0x80 + c3 % 64];
      assert Encoded(c2, 2, mark) == Encoded(c3, 1, mark) + [0x80 + c2 % 64];
      assert Encoded(c1, 3, mark) == Encoded(c2, 2, mark) + [0x80 + c1 % 64];
    } else {
      assert Encoded(c4, 1, mark) == [mark + c5] + [0x80 + c4 % 64];
      assert Encoded(c3, 2, mark) == Encoded(c4, 1, mark) + [0x80 + c3 % 64];
      assert Encoded(c2, 3, mark) == Encoded(c3, 2, mark) + [0x80 + c2 % 64];
      assert Encoded(c1, 4, mark) == Encoded(c2, 3, mark) + [0x80 + c1 % 64];
    }
  }

  // ---------------------------------------------------------------- encoding

  lemma Shifted(c: int)
    requires 0 <= c
    ensures c / 0x4000_0000 == c / 0x100_0000 / 64 && c / 0x100_0000 == c / 0x4_0000 / 64 && c / 0x4_0000 == c / 0x1000 / 64
    ensures c / 0x1000 == c / 0x40 / 64
  {
  }

  /** The bytes of a code point by its range. */
  lemma Layout(c: int) returns (l: nat, mark: int)
    requires 0 <= c
    ensures c < UTF8_LIMIT ==> |Utf8(c)| == l + 1 && Utf8(c) == Encoded(c, l, mark)
    ensures c < 0x80 ==> l == 0 && mark == 0
    ensures 0x80 <= c < 0x800 ==> l == 1 && mark == 0xc0
    ensures 0x800 <= c < 0x1_0000 ==> l == 2 && mark == 0xe0
    ensures 0x1_0000 <= c < 0x20_0000 ==> l == 3 && mark == 0xf0
    ensures 0x20_0000 <= c < 0x400_0000 ==> l == 4 && mark == 0xf8
    ensures 0x400_0000 <= c < UTF8_LIMIT ==> l == 5 && mark == 0xfc
  {
    l := if c < UTF8_LIMIT then Continuations(c) else 0;
    mark := LeadMark(l);
  }

  /** From `o` to `q` stand the bytes of `x`, and everything else is as in `s`. */
  ghost predicate Written(s: seq<byte>, t: seq<byte>, o: nat, q: nat, x: int, mark: int) {
    && 0 <= x && o < q <= |t| == |s| && t[o..q] == Encoded(x, q - o - 1, mark)
    && forall k :: 0 <= k < |s| && !(o <= k < q) ==> t[k] == s[k]
  }

  /** The first byte. */
  method PutLead(buf: array<byte>, o: nat, b: byte, ghost x: int, ghost mark: int) returns (q: nat)
    requires o < buf.Length && 0 <= x && b == mark + x
    modifies buf
    ensures q == o + 1 && Written(old(buf[..]), buf[..], o, q, x, mark)
  {
    buf[o] := b;
    q := o + 1;
  }

  /** A continuation byte. */
  method PutNext(buf: array<byte>, ghost s: seq<byte>, ghost o: nat, q0: nat, b: byte, ghost x: int, ghost mark: int) returns (q: nat)
    requires q0 < buf.Length && 0 <= x && b == 0x80 + x % 64 && Written(s, buf[..], o, q0, x / 64, mark)
    modifies buf
    ensures q == q0 + 1 && Written(s, buf[..], o, q, x, mark)
  {
    ghost var t := buf[..];
    buf[q0] := b;
    q := q0 + 1;
    assert buf[..][o..q] == t[o..q0] + [b];
  }

  lemma AllWritten(s: seq<byte>, t: seq<byte>, o: nat, q: nat, x: int, l: nat, mark: int)
    requires Written(s, t, o, q, x, mark) && 0 <= x < UTF8_LIMIT && |Utf8(x)| == l + 1 && Utf8(x) == Encoded(x, l, mark) && q == o + l + 1
    ensures t[o..q] == Utf8(x) && forall k :: 0 <= k < |s| && !(o <= k < q) ==> t[k] == s[k]
  {
  }

  /** unicode_to_utf8: the number of bytes written, 0 for a code point that has no sequence. */
  method UnicodeToUtf8(buf: array<byte>, o: nat, c: int) returns (n: nat)
    requires 0 <= c < 0x1_0000_0000 && o + UTF8_CHAR_LEN_MAX <= buf.Length
    modifies buf
    ensures n == if c < UTF8_LIMIT then |Utf8(c)| else 0
    ensures c < UTF8_LIMIT ==> buf[o..o + n] == Utf8(c)
    ensures forall k :: 0 <= k < buf.Length && !(o <= k < o + n) ==> buf[k] == old(buf[k])
  {
    hide Encoded, Utf8, Continuations, LeadMark, Written;
    ghost var s := buf[..];
    Shifted(c);
    ghost var l, mark := Layout(c);
    var q;
    if c < 0x80 {
      q := PutLead(buf, o, c, c, mark);
    } else {
      if c < 0x800 {
        q := PutLead(buf, o, c / 0x40 + 0xc0, c / 0x40, mark);
      } else {
        if c < 0x1_0000 {
          q := PutLead(buf, o, c / 0x1000 + 0xe0, c / 0x1000, mark);
        } else {
          if c < 0x20_0000 {
            q := PutLead(buf, o, c / 0x4_0000 + 0xf0, c / 0x4_0000, mark);
          } else {
            if c < 0x400_0000 {
              q := PutLead(buf, o, c / 0x100_0000 + 0xf8, c / 0x100_0000, mark);
            } else if c < UTF8_LIMIT {
              q := PutLead(buf, o, c / 0x4000_0000 + 0xfc, c / 0x4000_0000, mark);
              q := PutNext(buf, s, o, q, c / 0x100_0000 % 64 + 0x80, c / 0x100_0000, mark);
            } else {
              return 0;
            }
            q := PutNext(buf, s, o, q, c / 0x4_0000 % 64 + 0x80, c / 0x4_0000, mark);
          }
          q := PutNext(buf, s, o, q, c / 0x1000 % 64 + 0x80, c / 0x1000, mark);
        }
        q := PutNext(buf, s, o, q, c / 0x40 % 64 + 0x80, c / 0x40, mark);
      }
      q := PutNext(buf, s, o, q, c % 64 + 0x80, c, mark);
    }
    AllWritten(s, buf[..], o, q, c, l, mark);
    n := q - o;
  }

  // ---------------------------------------------------------------- decoding

  /** The number of continuation bytes that a first byte announces. */
  function LeadLength(c: byte): (l: Option<nat>) {
    if 0xc0 <= c < 0xe0 then Some(1)
    else if 0xe0 <= c < 0xf0 then Some(2)
    else if 0xf0 <= c < 0xf8 then Some(3)
    else if 0xf8 <= c < 0xfc then Some(4)
    else if 0xfc <= c < 0xfe then Some(5)
    else None
  }

  /** The text starts with the sequence of the code point. */
  ghost predicate StartsWith(s: seq<int>, c: int) {
    0 <= c < UTF8_LIMIT && Utf8(c) <= s
  }

  ghost predicate Malformed(s: seq<int>) {
    forall c :: !StartsWith(s, c)
  }

  /**
   unicode_from_utf8: the code point and its length, for exactly the texts that start with the sequence
   of a code point.
   */
  method UnicodeFromUtf8(p: array<byte>, o: nat, maxLen: nat) returns (r: Option<(int, nat)>)
    requires 1 <= maxLen && o + maxLen <= p.Length
    ensures r.Some? ==> StartsWith(p[o..o + maxLen], r.value.0) && r.value.1 == |Utf8(r.value.0)|
    ensures r.None? ==> Malformed(p[o..o + maxLen])
  {
    ghost var s: seq<int> := p[o..o + maxLen];
    var c: int := p[o];
    if c < 0x80 {
      assert Utf8(c) == [c];
      return Some((c, 1));
    }
    var lead := LeadLength(p[o]);
    if lead.None? {
      NoLead(s);
      return None;
    }
    var l := lead.value;
    if l > maxLen - 1 {
      TooShort(s, l);
      return None;
    }
    hide Encoded, Malformed;
    c := c - LeadMark(l);
    LeadFits(s, l);
    for i := 0 to l
      invariant PartRead(s, c, i, l)
    {
      var b := p[o + i + 1];
      if b < 0x80 || b >= 0xc0 {
        BadContinuation(s, l, i + 1);
        return None;
      }
      OneMore(s, c, i, l);
      c := c * 64 + (b - 0x80);
    }
    AllRead(s, c, l);
    if c < UTF8_MIN_CODE[l - 1] {
      Overlong(s, l, c);
      return None;
    }
    return Some((c, l + 1));
  }

  /** The value of the first i + 1 bytes of a sequence with l continuation bytes. */
  ghost predicate PartRead(s: seq<int>, c: int, i: nat, l: nat) {
    i < |s| && 0 <= c < LeadRoom(l) * Room(i) && s[..i + 1] == Encoded(c, i, LeadMark(l))
  }

  lemma LeadFits(s: seq<int>, l: nat)
    requires |s| > 0 && 0 <= s[0] < 0x100 && LeadLength(s[0]) == Some(l)
    ensures PartRead(s, s[0] - LeadMark(l), 0, l)
  {
    Rooms();
    assert s[..1] == [s[0]];
  }

  lemma OneMore(s: seq<int>, c: int, i: nat, l: nat)
    requires PartRead(s, c, i, l) && i + 1 < |s| && 0x80 <= s[i + 1] < 0xc0
    ensures PartRead(s, c * 64 + (s[i + 1] - 0x80), i + 1, l)
  {
    hide LeadRoom, LeadMark;
    var c' := c * 64 + (s[i + 1] - 0x80);
    assert LeadRoom(l) * Room(i + 1) == LeadRoom(l) * Room(i) * 64;
    assert c' / 64 == c && c' % 64 == s[i + 1] - 0x80;
    assert s[..i + 2] == s[..i + 1] + [s[i + 1]];
  }

  lemma AllRead(s: seq<int>, c: int, l: nat)
    requires 1 <= l < UTF8_CHAR_LEN_MAX && PartRead(s, c, l, l)
    ensures s[..l + 1] == Encoded(c, l, LeadMark(l)) && 0 <= c < UTF8_LIMIT
    ensures UTF8_MIN_CODE[l - 1] <= c ==> Continuations(c) == l && StartsWith(s, c)
  {
    Rooms();
  }

  /** What the first byte says about a text that starts with a code point. */
  lemma LeadDecides(s: seq<int>, c: int)
    requires |s| > 0 && 0 <= s[0] < 0x100 && StartsWith(s, c)
    ensures var l := Continuations(c);
      && (l == 0 ==> s[0] < 0x80) && (l != 0 ==> 0x80 <= s[0] && LeadLength(s[0]) == Some(l))
      && l < |s| && Encoded(c, l, LeadMark(l)) == s[..l + 1] && forall j :: 1 <= j <= l ==> 0x80 <= s[j] < 0xc0
  {
    Utf8Shape(c);
    var l := Continuations(c);
    assert s[..l + 1] == Utf8(c);
    forall j | 0 <= j <= l ensures s[j] == Utf8(c)[j] {
      assert s[..l + 1][j] == s[j];
    }
  }

  lemma NoLead(s: seq<int>)
    requires |s| > 0 && 0x80 <= s[0] < 0x100 && LeadLength(s[0]).None?
    ensures Malformed(s)
  {
    forall c ensures !StartsWith(s, c) {
      if StartsWith(s, c) { LeadDecides(s, c); }
    }
  }

  lemma TooShort(s: seq<int>, l: nat)
    requires 0 < |s| <= l && 0 <= s[0] < 0x100 && LeadLength(s[0]) == Some(l)
    ensures Malformed(s)
  {
    forall c ensures !StartsWith(s, c) {
      if StartsWith(s, c) { LeadDecides(s, c); }
    }
  }

  lemma BadContinuation(s: seq<int>, l: nat, j: nat)
    requires 1 <= j <= l < |s| && 0 <= s[0] < 0x100 && LeadLength(s[0]) == Some(l) && !(0x80 <= s[j] < 0xc0)
    ensures Malformed(s)
  {
    forall c ensures !StartsWith(s, c) {
      if StartsWith(s, c) { LeadDecides(s, c); }
    }
  }

  lemma Overlong(s: seq<int>, l: nat, d: int)
    requires 1 <= l < |s| && 0 <= s[0] < 0x100 && LeadLength(s[0]) == Some(l) && l < UTF8_CHAR_LEN_MAX
    requires 0 <= d < UTF8_MIN_CODE[l - 1] && s[..l + 1] == Encoded(d, l, LeadMark(l))
    ensures Malformed(s)
  {
    forall c ensures !StartsWith(s, c) {
      if StartsWith(s, c) {
        LeadDecides(s, c);
        EncodedInjective(c, d, l, LeadMark(l));
      }
    }
  }
}
