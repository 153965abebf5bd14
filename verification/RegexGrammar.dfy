/**
 The patterns that libregexp.c reads: their concrete syntax, the one way in which each is read, and
 the regular expression that each one spells.

 A tree is grammatical when it is well formed and every part of it extends as far as the text that
 follows allows.  `Read` reads a pattern from left to right; PatternIsRead says that it finds
 a tree exactly when there is a grammatical one with that text, and SameTextSameTree that there is
 never more than one.
 */
module RegexGrammar {
  import opened Wrappers
  import opened RegexSyntax
  import opened RegexBytecode
  import opened CharRanges

  // ---------------------------------------------------------------- trees and their text

  datatype Item = One(c: nat) | Span(c1: nat, c2: nat)

  datatype Count = Star | Plus | Opt | Exact(n: seq<nat>) | AtLeast(n: seq<nat>) | Between(n: seq<nat>, m: seq<nat>)

  datatype Tree =
    | TEmpty
    | TThen(front: Tree, last: Tree)
    | TOr(front: Tree, last: Tree)
    | TDot
    | TLineStart
    | TLineEnd
    | TWordBoundary(inverted: bool)
    | TChar(c: nat)
    | TClass(inverted: bool, items: seq<Item>)
    | TGroup(body: Tree)
    | TLook(negated: bool, behind: bool, body: Tree)
    | TRepeat(atom: Tree, count: Count, greedy: bool)

  function Chars(s: string): (r: seq<nat>)
    ensures |r| == |s|
  {
    seq(|s|, i requires 0 <= i < |s| => s[i] as int)
  }

  predicate StartsWith(s: seq<nat>, c: char) {
    s != [] && s[0] == c as int
  }

  predicate IsDigit(c: nat) {
    '0' as int <= c <= '9' as int
  }

  predicate Digits(d: seq<nat>) {
    d != [] && forall k :: 0 <= k < |d| ==> IsDigit(d[k])
  }

  /** The value of a digit string, saturated at INT32_MAX. */
  function Value(d: seq<nat>): (v: nat)
    requires forall k :: 0 <= k < |d| ==> IsDigit(d[k])
    ensures v <= INT32_MAX
  {
    if d == [] then 0
    else
      assert IsDigit(d[|d| - 1]);
      var v := Value(d[..|d| - 1]) * 10 + (d[|d| - 1] as int) - ('0' as int);
      if INT32_MAX <= v then INT32_MAX else v
  }

  function CountText(q: Count): seq<nat> {
    match q
    case Star => Chars("*")
    case Plus => Chars("+")
    case Opt => Chars("?")
    case Exact(n) => Chars("{") + n + Chars("}")
    case AtLeast(n) => Chars("{") + n + Chars(",}")
    case Between(n, m) => Chars("{") + n + Chars(",") + m + Chars("}")
  }

  function ItemText(it: Item): seq<nat> {
    match it
    case One(c) => [c]
    case Span(c1, c2) => [c1] + Chars("-") + [c2]
  }

  function ItemsText(items: seq<Item>): seq<nat> {
    if items == [] then [] else ItemsText(items[..|items| - 1]) + ItemText(items[|items| - 1])
  }

  function ClassText(inverted: bool, items: seq<Item>): seq<nat> {
    (if inverted then Chars("[^") else Chars("[")) + ItemsText(items) + Chars("]")
  }

  function LookText(negated: bool, behind: bool): seq<nat> {
    if behind then (if negated then Chars("(?<!") else Chars("(?<="))
    else if negated then Chars("(?!") else Chars("(?=")
  }

  function LazyText(greedy: bool): seq<nat> {
    if greedy then [] else Chars("?")
  }

  /** The text of a tree. */
  function Text(t: Tree): seq<nat> {
    match t
    case TEmpty => []
    case TThen(a, b) => Text(a) + Text(b)
    case TOr(a, b) => Text(a) + (Chars("|") + Text(b))
    case TDot => Chars(".")
    case TLineStart => Chars("^")
    case TLineEnd => Chars("$")
    case TWordBoundary(inverted) => if inverted then Chars("\\B") else Chars("\\b")
    case TChar(c) => [c]
    case TClass(inverted, items) => ClassText(inverted, items)
    case TGroup(body) => Chars("(?:") + (Text(body) + Chars(")"))
    case TLook(negated, behind, body) => LookText(negated, behind) + (Text(body) + Chars(")"))
    case TRepeat(atom, count, greedy) => Text(atom) + (CountText(count) + LazyText(greedy))
  }

  // ---------------------------------------------------------------- the grammar

  /** The characters that do not stand for themselves. */
  predicate Special(c: nat) {
    c in {'^' as int, '$' as int, '.' as int, '*' as int, '+' as int, '?' as int, '(' as int, ')' as int,
          '[' as int, '\\' as int, '|' as int}
  }

  predicate ClassChar(c: nat) {
    c <= 0xffff && c != '\\' as int
  }

  predicate ValidItem(it: Item) {
    match it
    case One(c) => ClassChar(c) && c != ']' as int
    case Span(c1, c2) => ClassChar(c1) && ClassChar(c2) && c1 != ']' as int && c2 != ']' as int && c1 <= c2
  }

  predicate ValidItems(items: seq<Item>) {
    forall k :: 0 <= k < |items| ==> ValidItem(items[k])
  }

  predicate ValidCount(q: Count) {
    match q
    case Exact(n) => Digits(n)
    case AtLeast(n) => Digits(n)
    case Between(n, m) => Digits(n) && Digits(m) && Value(n) <= Value(m)
    case _ => true
  }

  predicate IsAtom(t: Tree) {
    t.TDot? || t.TChar? || t.TClass? || t.TGroup? || (t.TLook? && !t.behind)
  }

  predicate IsTerm(t: Tree) {
    IsAtom(t) || t.TLineStart? || t.TLineEnd? || t.TWordBoundary? || t.TLook? || t.TRepeat?
  }

  predicate IsAlternative(t: Tree) {
    t.TEmpty? || t.TThen?
  }

  predicate IsDisjunction(t: Tree) {
    IsAlternative(t) || t.TOr?
  }

  /** Alternatives are lists of terms, quantifiers follow atoms, and the bounds are in order. */
  predicate WellFormed(t: Tree) {
    match t
    case TThen(a, b) => IsAlternative(a) && IsTerm(b) && WellFormed(a) && WellFormed(b)
    case TOr(a, b) => IsDisjunction(a) && IsAlternative(b) && WellFormed(a) && WellFormed(b)
    case TChar(c) => !Special(c) && c <= 0xffff
    case TClass(inverted, items) => ValidItems(items)
    case TGroup(body) => IsDisjunction(body) && WellFormed(body)
    case TLook(_, _, body) => IsDisjunction(body) && WellFormed(body)
    case TRepeat(atom, count, _) => IsAtom(atom) && WellFormed(atom) && ValidCount(count)
    case _ => true
  }

  /** The number of digits at the start of `s`. */
  function Run(s: seq<nat>): (n: nat)
    ensures n <= |s| && (forall k :: 0 <= k < n ==> IsDigit(s[k])) && (n == |s| || !IsDigit(s[n]))
  {
    if s == [] || !IsDigit(s[0]) then 0 else 1 + Run(s[1..])
  }

  datatype CountRead = NoCount | BadCount | Counted(q: Count, rest: seq<nat>)

  /** The repetition count at the start of `s`. */
  function CountAt(s: seq<nat>): (r: CountRead)
    ensures r.Counted? ==> |r.rest| < |s| && ValidCount(r.q)
  {
    if StartsWith(s, '*') then Counted(Star, s[1..])
    else if StartsWith(s, '+') then Counted(Plus, s[1..])
    else if StartsWith(s, '?') then Counted(Opt, s[1..])
    else if StartsWith(s, '{') then BracesAt(s[1..])
    else NoCount
  }

  /** After a '{': the bounds, and `BadCount` for bounds in the wrong order even if no '}' follows. */
  function BracesAt(s: seq<nat>): (r: CountRead)
    ensures r.Counted? ==> |r.rest| < |s| && ValidCount(r.q)
  {
    var n := Run(s);
    if n == 0 then NoCount
    else if StartsWith(s[n..], ',') then MaxAt(s[..n], s[n + 1..])
    else if StartsWith(s[n..], '}') then Counted(Exact(s[..n]), s[n + 1..])
    else NoCount
  }

  /** After the ',' of a repetition count. */
  function MaxAt(n: seq<nat>, s: seq<nat>): (r: CountRead)
    requires Digits(n)
    ensures r.Counted? ==> |r.rest| < |s| && ValidCount(r.q)
  {
    var m := Run(s);
    if 0 < m && Value(s[..m]) < Value(n) then BadCount
    else if !StartsWith(s[m..], '}') then NoCount
    else Counted(if m == 0 then AtLeast(n) else Between(n, s[..m]), s[m + 1..])
  }

  /** A '{' before `s` would start a repetition count, whatever its bounds. */
  predicate OpensCount(s: seq<nat>) {
    var t := s[Run(s)..];
    0 < Run(s) && StartsWith(if StartsWith(t, ',') then t[1..][Run(t[1..])..] else t, '}')
  }

  /** A '-' that makes a range of the class characters around it: it is not the last one. */
  predicate RangeFollows(s: seq<nat>) {
    StartsWith(s, '-') && !StartsWith(s[1..], ']')
  }

  predicate ItemsExtend(items: seq<Item>, rest: seq<nat>) {
    items == [] ||
    var last := items[|items| - 1];
    (last.One? ==> !RangeFollows(rest)) && ItemsExtend(items[..|items| - 1], ItemText(last) + rest)
  }

  /** Every part of `t` is read as far as it goes when `rest` follows it. */
  predicate Extends(t: Tree, rest: seq<nat>) {
    match t
    case TThen(a, b) =>
      && Extends(a, Text(b) + rest) && Extends(b, rest)
      && (IsAtom(b) ==> CountAt(rest).NoCount?)
    case TOr(a, b) => Extends(a, Chars("|") + Text(b) + rest) && Extends(b, rest)
    case TChar(c) => c == '{' as int ==> !OpensCount(rest)
    case TClass(inverted, items) =>
      && (!inverted ==> !StartsWith(ItemsText(items), '^'))
      && ItemsExtend(items, Chars("]") + rest)
    case TGroup(body) => Extends(body, Chars(")") + rest)
    case TLook(_, _, body) => Extends(body, Chars(")") + rest)
    case TRepeat(atom, count, greedy) =>
      && Extends(atom, CountText(count) + LazyText(greedy) + rest)
      && (greedy ==> !StartsWith(rest, '?'))
    case _ => true
  }

  /** The trees that are read. */
  predicate Grammatical(t: Tree) {
    IsDisjunction(t) && WellFormed(t) && Extends(t, [])
  }

  // ---------------------------------------------------------------- meaning

  function Bounds(q: Count): (b: (nat, nat))
    requires ValidCount(q)
    ensures b.0 <= b.1 <= INT32_MAX
  {
    match q
    case Star => (0, INT32_MAX)
    case Plus => (1, INT32_MAX)
    case Opt => (0, 1)
    case Exact(n) => (Value(n), Value(n))
    case AtLeast(n) => (Value(n), INT32_MAX)
    case Between(n, m) => (Value(n), Value(m))
  }

  predicate ItemHas(it: Item, c: nat) {
    match it
    case One(d) => c == d
    case Span(c1, c2) => c1 <= c <= c2
  }

  predicate ItemsHave(items: seq<Item>, c: nat) {
    exists k :: 0 <= k < |items| && ItemHas(items[k], c)
  }

  predicate ClassHas(inverted: bool, items: seq<Item>, c: nat) {
    ItemsHave(items, c) != inverted
  }

  /** The places below `n` where membership in the class changes. */
  function Changes(inverted: bool, items: seq<Item>, n: nat): (pts: seq<nat>)
    ensures StrictlyAscending(pts) && |pts| <= n && forall k :: 0 <= k < |pts| ==> pts[k] < n
  {
    if n == 0 then []
    else
      var pts := Changes(inverted, items, n - 1);
      if ClassHas(inverted, items, n - 1) != (|pts| % 2 == 1) then pts + [n - 1] else pts
  }

  /** The boundary list of a class. */
  function ClassPoints(inverted: bool, items: seq<Item>): (pts: seq<nat>)
    ensures Canonical(pts) && |pts| / 2 < 65535
  {
    var pts := Changes(inverted, items, 0x10001);
    if |pts| % 2 == 1 then pts + [UINT32_MAX] else pts
  }

  /** A boundary list that ends inside the class has an odd length. */
  lemma ChangesEnd(inverted: bool, items: seq<Item>, n: nat)
    ensures |Changes(inverted, items, n)| % 2 == 1 <==> 0 < n && ClassHas(inverted, items, n - 1)
  {
    hide ClassHas;
  }

  lemma {:induction false} ChangesCount(inverted: bool, items: seq<Item>, n: nat, c: nat)
    requires 0 < n
    ensures Below(Changes(inverted, items, n), c) % 2 == 1 <==> ClassHas(inverted, items, if c < n then c else n - 1)
  {
    hide ClassHas, Below, StrictlyAscending;
    if n <= c + 1 {
      BelowAll(Changes(inverted, items, n), c);
      ChangesEnd(inverted, items, n);
    } else {
      ChangesCount(inverted, items, n - 1, c);
      BelowSnoc(Changes(inverted, items, n - 1), n - 1, c);
    }
  }

  /** The boundary list has exactly the members of the class. */
  lemma ClassPointsMean(inverted: bool, items: seq<Item>, c: nat)
    requires ValidItems(items) && c < UINT32_MAX
    ensures Inside(ClassPoints(inverted, items), c) <==> ClassHas(inverted, items, c)
  {
    hide Changes, Below;
    var pts := Changes(inverted, items, 0x10001);
    ChangesCount(inverted, items, 0x10001, c);
    BelowSnoc(pts, UINT32_MAX, c);
    if 0x10000 < c {
      assert forall k :: 0 <= k < |items| ==> ValidItem(items[k]) && !ItemHas(items[k], c) && !ItemHas(items[k], 0x10000);
    }
  }

  /** A class matches the characters it lists, or, inverted, the others. */
  lemma ClassMatches(inverted: bool, items: seq<Item>, c: nat)
    requires ValidItems(items) && c < UINT32_MAX
    ensures MatchesOne(Class(ClassPoints(inverted, items)), c) <==> ItemsHave(items, c) != inverted
  {
    hide ClassPoints, Inside;
    ClassPointsMean(inverted, items, c);
    InsideIsMembership(ClassPoints(inverted, items), c);
  }

  /** The regular expression of a tree. */
  function Meaning(t: Tree, dotAll: bool): (r: Regex)
    requires WellFormed(t)
    ensures Parsed(r)
  {
    match t
    case TEmpty => Empty
    case TThen(a, b) => Concat(Meaning(a, dotAll), Meaning(b, dotAll))
    case TOr(a, b) => Choice(Meaning(a, dotAll), Meaning(b, dotAll))
    case TDot => if dotAll then Any else Dot
    case TLineStart => LineStart
    case TLineEnd => LineEnd
    case TWordBoundary(inverted) => WordBoundary(inverted)
    case TChar(c) => Char(c)
    case TClass(inverted, items) => Class(ClassPoints(inverted, items))
    case TGroup(body) => Meaning(body, dotAll)
    case TLook(negated, behind, body) => Look(negated, behind, Meaning(body, dotAll))
    case TRepeat(atom, count, greedy) => Repeat(Meaning(atom, dotAll), Bounds(count).0, Bounds(count).1, greedy)
  }
}
