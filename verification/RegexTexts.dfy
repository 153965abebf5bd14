/**
 Patterns as texts: what is read from a text that is put together from others, and what it matches.  No
 statement here speaks of the tree of a pattern, or of the bounds of a loop: only of characters.
 */
module RegexTexts {
  import opened Wrappers
  import opened RegexSyntax
  import opened RegexGrammar
  import opened RegexReader
  import opened RegexWays

  // ------------------------------------------------------- texts that others follow

  /** Nothing that is read before `x` can depend on `z`. */
  ghost predicate Closed(x: seq<nat>, z: seq<nat>) {
    ')' as nat in x || z == [] || z[0] == ')' as nat
  }

  lemma RunStops(x: seq<nat>, z: seq<nat>)
    requires Closed(x, z)
    ensures Run(x + z) == Run(x) && (x + z)[..Run(x)] == x[..Run(x)] && (x + z)[Run(x)..] == x[Run(x)..] + z
    ensures Closed(x[Run(x)..], z)
  {
    var n := Run(x);
    if ')' as nat in x { BehindDigits(x, n); }
    assert x + z == x[..n] + (x[n..] + z);
    RunIs(x[..n], x[n..] + z);
  }

  lemma BehindDigits(x: seq<nat>, n: nat)
    requires n <= |x| && ')' as nat in x && forall k :: 0 <= k < n ==> IsDigit(x[k])
    ensures n < |x| && ')' as nat in x[n..]
  {
    var k :| 0 <= k < |x| && x[k] == ')' as nat;
    assert forall j :: 0 <= j < n ==> IsDigit(x[j]) && x[j] != ')' as nat;
    assert x[n..][k - n] == ')' as nat;
  }

  /** The first character decides whether it is this one. */
  lemma StartsStop(x: seq<nat>, z: seq<nat>, c: char)
    requires Closed(x, z) && c != ')'
    ensures StartsWith(x + z, c) == StartsWith(x, c)
    ensures StartsWith(x, c) ==> (x + z)[1..] == x[1..] + z && Closed(x[1..], z)
  {
    if StartsWith(x, c) && ')' as nat in x {
      var k :| 0 <= k < |x| && x[k] == ')' as nat;
      assert x[1..][k - 1] == ')' as nat;
    }
  }

  lemma OpensStop(x: seq<nat>, z: seq<nat>)
    requires Closed(x, z)
    ensures OpensCount(x + z) == OpensCount(x)
  {
    hide Run;
    RunStops(x, z);
    var t := x[Run(x)..];
    StartsStop(t, z, ',');
    StartsStop(t, z, '}');
    if StartsWith(t, ',') {
      RunStops(t[1..], z);
      StartsStop(t[1..][Run(t[1..])..], z, '}');
    }
  }

  lemma CountStops(x: seq<nat>, z: seq<nat>)
    requires Closed(x, z) && CountAt(x).NoCount?
    ensures CountAt(x + z).NoCount?
  {
    hide BracesAt;
    StartsStop(x, z, '*');
    StartsStop(x, z, '+');
    StartsStop(x, z, '?');
    StartsStop(x, z, '{');
    if StartsWith(x, '{') { BracesStop(x[1..], z); }
  }

  lemma BracesStop(x: seq<nat>, z: seq<nat>)
    requires Closed(x, z) && BracesAt(x).NoCount?
    ensures BracesAt(x + z).NoCount?
  {
    hide Run, Value;
    RunStops(x, z);
    var t := x[Run(x)..];
    StartsStop(t, z, ',');
    StartsStop(t, z, '}');
    if Run(x) != 0 && StartsWith(t, ',') {
      assert x[Run(x) + 1..] == t[1..] && (x + z)[Run(x) + 1..] == (t + z)[1..];
      RunStops(t[1..], z);
      StartsStop(t[1..][Run(t[1..])..], z, '}');
    }
  }

  /** The last item of a class is followed by ']', any other by two characters at least. */
  ghost predicate Ended(y: seq<nat>) {
    2 <= |y| || (|y| == 1 && y[0] != '-' as nat)
  }

  lemma {:induction false} ItemsStop(items: seq<Item>, y: seq<nat>, z: seq<nat>)
    requires ItemsExtend(items, y) && Ended(y)
    ensures ItemsExtend(items, y + z)
  {
    if items != [] {
      var last := items[|items| - 1];
      assert ItemText(last) + (y + z) == ItemText(last) + y + z;
      assert 2 <= |y| ==> (y + z)[1..][0] == y[1];
      ItemsStop(items[..|items| - 1], ItemText(last) + y, z);
    }
  }

  lemma StillClosed(a: seq<nat>, x: seq<nat>, z: seq<nat>)
    requires Closed(x, z)
    ensures Closed(a + x, z) && a + (x + z) == a + x + z
  {
    if ')' as nat in x {
      var k :| 0 <= k < |x| && x[k] == ')' as nat;
      assert (a + x)[|a| + k] == ')' as nat;
    }
  }

  lemma Parenthesis(x: seq<nat>, z: seq<nat>)
    ensures Closed(Chars(")") + x, z) && Chars(")") + (x + z) == Chars(")") + x + z
  {
    assert (Chars(")") + x)[0] == ')' as nat;
  }

  /** What is read as far as it goes before `x` is still so when `z` follows. */
  lemma {:induction false} ExtendsStill(t: Tree, x: seq<nat>, z: seq<nat>)
    requires Extends(t, x) && Closed(x, z)
    ensures Extends(t, x + z)
    decreases t
  {
    hide CountAt, OpensCount, Chars, Closed, ItemsExtend, CountText, LazyText;
    match t
    case TThen(a, b) =>
      StillClosed(Text(b), x, z);
      ExtendsStill(a, Text(b) + x, z);
      ExtendsStill(b, x, z);
      if IsAtom(b) { CountStops(x, z); }
    case TOr(a, b) =>
      StillClosed(Chars("|") + Text(b), x, z);
      ExtendsStill(a, Chars("|") + Text(b) + x, z);
      ExtendsStill(b, x, z);
    case TChar(c) =>
      OpensStop(x, z);
    case TClass(inverted, items) =>
      ClassEnded(x, z);
      ItemsStop(items, Chars("]") + x, z);
    case TGroup(body) =>
      Parenthesis(x, z);
      ExtendsStill(body, Chars(")") + x, z);
    case TLook(negated, behind, body) =>
      Parenthesis(x, z);
      ExtendsStill(body, Chars(")") + x, z);
    case TRepeat(atom, count, greedy) =>
      StillClosed(CountText(count) + LazyText(greedy), x, z);
      ExtendsStill(atom, CountText(count) + LazyText(greedy) + x, z);
      StartsStop(x, z, '?');
    case _ =>
  }

  lemma ClassEnded(x: seq<nat>, z: seq<nat>)
    ensures Ended(Chars("]") + x) && Chars("]") + (x + z) == Chars("]") + x + z
  {
    assert (Chars("]") + x)[0] == ']' as nat;
  }

  // ---------------------------------------------------------------- what a text matches

  ghost predicate Readable(p: seq<nat>) {
    Read(p).Some?
  }

  lemma ReadIs(p: seq<nat>)
    requires Readable(p)
    ensures var t := Read(p).value; IsDisjunction(t) && WellFormed(t) && Extends(t, []) && Text(t) == p
  {
    PatternIsRead(p, Read(p).value);
  }

  /** Where matches of the pattern end, for every start, best candidate first. */
  ghost function Matches(s: Subject, p: seq<nat>, dotAll: bool, back: bool): (ks: Ways)
    requires Readable(p)
    ensures |ks| == |s.chars| + 1 && Proper(ks)
  {
    ReadIs(p);
    All(s, Meaning(Read(p).value, dotAll), back)
  }

  /** A text that one quantifier applies to: a character, a class, or something in parentheses. */
  ghost predicate AtomText(p: seq<nat>) {
    Readable(p) && var t := Read(p).value; t.TThen? && t.front.TEmpty? && IsAtom(t.last)
  }

  /** What such a text is read as. */
  ghost function Atom(p: seq<nat>): (a: Tree)
    requires AtomText(p)
    ensures IsAtom(a) && WellFormed(a) && Extends(a, []) && Text(a) == p && Read(p) == Some(TThen(TEmpty, a))
  {
    ReadIs(p);
    assert Text(TEmpty) + Text(Read(p).value.last) == Text(Read(p).value.last);
    Read(p).value.last
  }

  lemma SingleMeaning(u: Tree, dotAll: bool)
    requires IsTerm(u) && WellFormed(u)
    ensures var t := TThen(TEmpty, u); WellFormed(t) && Meaning(t, dotAll) == Concat(Empty, Meaning(u, dotAll)) && Text(t) == Text(u)
  {
    assert Text(TEmpty) + Text(u) == Text(u);
  }

  lemma AtomIs(s: Subject, p: seq<nat>, dotAll: bool, back: bool)
    requires AtomText(p)
    ensures Matches(s, p, dotAll, back) == All(s, Meaning(Atom(p), dotAll), back)
  {
    hide Ends, All;
    SingleMeaning(Atom(p), dotAll);
    OnlyTerm(s, Meaning(Atom(p), dotAll), back);
  }

  /** A single term is read as such. */
  lemma TermIsRead(s: Subject, u: Tree, dotAll: bool, back: bool)
    requires IsTerm(u) && WellFormed(u) && Extends(u, [])
    ensures var p := Text(u);
      && Readable(p) && (AtomText(p) <==> IsAtom(u)) && Read(p) == Some(TThen(TEmpty, u))
      && Matches(s, p, dotAll, back) == All(s, Meaning(u, dotAll), back)
  {
    hide Ends, All;
    var t := TThen(TEmpty, u);
    SingleMeaning(u, dotAll);
    assert Grammatical(t) by {
      assert CountAt([]).NoCount? && Extends(TEmpty, Text(u) + []) && Text(u) + [] == Text(u);
    }
    PatternIsRead(Text(u), t);
    OnlyTerm(s, Meaning(u, dotAll), back);
  }

  /** An atom is read as such before anything that starts with no digit. */
  lemma AtomExtends(a: Tree, rest: seq<nat>)
    requires IsAtom(a) && Extends(a, []) && rest != [] && !IsDigit(rest[0])
    ensures Extends(a, rest)
  {
    hide CountAt, ItemsExtend;
    match a
    case TChar(c) =>
    case TClass(inverted, items) =>
      ClassEnded([], rest);
      assert Chars("]") + [] + rest == Chars("]") + rest;
      ItemsStop(items, Chars("]") + [], rest);
    case TGroup(body) =>
      Parenthesis([], rest);
      assert Chars(")") + [] + rest == Chars(")") + rest;
      ExtendsStill(body, Chars(")") + [], rest);
    case TLook(negated, behind, body) =>
      Parenthesis([], rest);
      assert Chars(")") + [] + rest == Chars(")") + rest;
      ExtendsStill(body, Chars(")") + [], rest);
    case _ =>
  }

  /** What a quantified atom is read as. */
  lemma QuantifiedIsRead(s: Subject, p: seq<nat>, q: Count, greedy: bool, dotAll: bool, back: bool)
    requires AtomText(p) && ValidCount(q)
    ensures var w := p + (CountText(q) + LazyText(greedy));
      && Readable(w)
      && Matches(s, w, dotAll, back)
        == Loop(s, Meaning(Atom(p), dotAll), Bounds(q).0, Bound(Bounds(q).1), greedy, back)
  {
    hide Ends, All, Iterate, Value, IsDigit, LazyText;
    var a := Atom(p);
    var u := TRepeat(a, q, greedy);
    var rest := CountText(q) + LazyText(greedy);
    CountStart(q);
    assert rest + [] == rest;
    AtomExtends(a, rest);
    TermIsRead(s, u, dotAll, back);
    RepeatWays(s, Meaning(a, dotAll), Bounds(q).0, Bounds(q).1, greedy, back);
  }

  lemma CountStart(q: Count)
    ensures CountText(q) != [] && !IsDigit(CountText(q)[0])
  {
  }

  lemma RepeatWays(s: Subject, r: Regex, min: nat, max: nat, greedy: bool, back: bool)
    ensures All(s, Repeat(r, min, max, greedy), back) == Loop(s, r, min, Bound(max), greedy, back)
  {
    hide Iterate;
    var a, l := All(s, Repeat(r, min, max, greedy), back), Loop(s, r, min, Bound(max), greedy, back);
    forall i | 0 <= i < |a| ensures a[i] == l[i] { }
  }

  // ---------------------------------------------------------------- quantifiers

  /** A pattern with a quantifier behind it, and a '?' behind that if it is reluctant. */
  function Quantified(p: seq<nat>, count: seq<nat>, greedy: bool): seq<nat> {
    p + (count + if greedy then [] else Chars("?"))
  }

  /** `p*`: again and again, as long as an iteration does not match nothing; `p*?` tries to stop first. */
  lemma StarText(s: Subject, p: seq<nat>, greedy: bool, dotAll: bool, back: bool)
    requires AtomText(p)
    ensures var w := Quantified(p, Chars("*"), greedy);
      Readable(w) &&
      var x, star := Matches(s, p, dotAll, back), Matches(s, w, dotAll, back);
      forall i :: 0 <= i < |star| ==>
        var body := Each(x[i], star[i := [i]]);
        star[i] == if greedy then body + [i] else [i] + body
  {
    hide All, Loop;
    AtomIs(s, p, dotAll, back);
    QuantifiedIsRead(s, p, Star, greedy, dotAll, back);
    StarWays(s, Meaning(Atom(p), dotAll), greedy, back);
  }

  /** `p+` is `p` and then `p*`. */
  lemma PlusText(s: Subject, p: seq<nat>, greedy: bool, dotAll: bool, back: bool)
    requires AtomText(p)
    ensures var w, star := Quantified(p, Chars("+"), greedy), Quantified(p, Chars("*"), greedy);
      && Readable(w) && Readable(star)
      && Matches(s, w, dotAll, back) == Compose(Matches(s, p, dotAll, back), Matches(s, star, dotAll, back))
  {
    hide All, Loop, Compose;
    AtomIs(s, p, dotAll, back);
    QuantifiedIsRead(s, p, Plus, greedy, dotAll, back);
    QuantifiedIsRead(s, p, Star, greedy, dotAll, back);
    OneRequired(s, Meaning(Atom(p), dotAll), 1, None, greedy, back);
  }

  /** `p?` is `p` or nothing, `p??` is nothing or `p`. */
  lemma OptText(s: Subject, p: seq<nat>, greedy: bool, dotAll: bool, back: bool)
    requires AtomText(p)
    ensures var w := Quantified(p, Chars("?"), greedy);
      Readable(w) && Matches(s, w, dotAll, back) == Maybe(Matches(s, p, dotAll, back), greedy)
  {
    hide All, Loop, Maybe;
    AtomIs(s, p, dotAll, back);
    QuantifiedIsRead(s, p, Opt, greedy, dotAll, back);
    OptionalWays(s, Meaning(Atom(p), dotAll), greedy, back);
  }

  /** A number in decimal. */
  function Decimal(n: nat): (d: seq<nat>)
    ensures Digits(d)
  {
    (if n < 10 then [] else Decimal(n / 10)) + ['0' as nat + n % 10]
  }

  /** Digits have the value of the number that they write, up to INT32_MAX. */
  lemma {:induction false} DecimalValue(n: nat)
    ensures Value(Decimal(n)) == if n < 0x7fff_ffff then n else 0x7fff_ffff
  {
    var d := Decimal(n);
    if n < 10 {
      assert d == [] + ['0' as nat + n % 10] && d[..0] == [];
      assert Value([]) == 0;
    } else {
      DecimalValue(n / 10);
      assert d[..|d| - 1] == Decimal(n / 10);
    }
  }

  /** `p{n}` is `p` n times. */
  lemma ExactText(s: Subject, p: seq<nat>, n: nat, greedy: bool, dotAll: bool, back: bool)
    requires AtomText(p) && n < 0x7fff_ffff
    ensures var w := Quantified(p, Chars("{") + Decimal(n) + Chars("}"), greedy);
      Readable(w) && Matches(s, w, dotAll, back) == Times(Matches(s, p, dotAll, back), n)
  {
    hide All, Loop, Times, Value, Digits, Decimal;
    AtomIs(s, p, dotAll, back);
    DecimalValue(n);
    QuantifiedIsRead(s, p, Exact(Decimal(n)), greedy, dotAll, back);
    ExactWays(s, Meaning(Atom(p), dotAll), n, greedy, back);
  }

  /** `p{n,}` is `p` n times and then `p*`. */
  lemma AtLeastText(s: Subject, p: seq<nat>, n: nat, greedy: bool, dotAll: bool, back: bool)
    requires AtomText(p) && n < 0x7fff_ffff
    ensures var w, star := Quantified(p, Chars("{") + Decimal(n) + Chars(",}"), greedy), Quantified(p, Chars("*"), greedy);
      && Readable(w) && Readable(star)
      && Matches(s, w, dotAll, back) == Compose(Times(Matches(s, p, dotAll, back), n), Matches(s, star, dotAll, back))
  {
    hide All, Loop, Compose, Times, Value, Digits, Decimal;
    AtomIs(s, p, dotAll, back);
    DecimalValue(n);
    QuantifiedIsRead(s, p, AtLeast(Decimal(n)), greedy, dotAll, back);
    QuantifiedIsRead(s, p, Star, greedy, dotAll, back);
    RequiredWays(s, Meaning(Atom(p), dotAll), n, None, greedy, back);
  }

  /** `p{n,m}` is `p` n times and then at most m - n times. */
  lemma BetweenText(s: Subject, p: seq<nat>, n: nat, m: nat, greedy: bool, dotAll: bool, back: bool)
    requires AtomText(p) && n <= m < 0x7fff_ffff
    ensures var w := Quantified(p, Chars("{") + Decimal(n) + Chars(",") + Decimal(m) + Chars("}"), greedy);
      var x := Matches(s, p, dotAll, back);
      Readable(w) && Matches(s, w, dotAll, back) == Compose(Times(x, n), UpTo(x, m - n, greedy))
  {
    hide All, Loop, Compose, Times, UpTo, Value, Digits, Decimal;
    AtomIs(s, p, dotAll, back);
    DecimalValue(n);
    DecimalValue(m);
    QuantifiedIsRead(s, p, Between(Decimal(n), Decimal(m)), greedy, dotAll, back);
    var r := Meaning(Atom(p), dotAll);
    RequiredWays(s, r, n, Some(m), greedy, back);
    UpToWays(s, r, m - n, greedy, back);
  }

  // ---------------------------------------------------------------- parentheses

  function Group(p: seq<nat>): seq<nat> {
    Chars("(?:") + (p + Chars(")"))
  }

  /** A pattern in parentheses matches the same, and takes a quantifier. */
  lemma GroupText(s: Subject, p: seq<nat>, dotAll: bool, back: bool)
    requires Readable(p)
    ensures AtomText(Group(p)) && Matches(s, Group(p), dotAll, back) == Matches(s, p, dotAll, back)
  {
    hide All;
    ReadIs(p);
    var t := Read(p).value;
    ExtendsStill(t, [], Chars(")"));
    assert [] + Chars(")") == Chars(")") + [] == Chars(")");
    TermIsRead(s, TGroup(t), dotAll, back);
  }

  /** `p|q` for patterns in parentheses: first `p`, then `q`. */
  lemma OrText(s: Subject, p: seq<nat>, q: seq<nat>, dotAll: bool, back: bool)
    requires Readable(p) && Readable(q)
    ensures var w := Group(p) + (Chars("|") + Group(q));
      Readable(w) && forall i :: 0 <= i <= |s.chars| ==>
        Matches(s, w, dotAll, back)[i] == Matches(s, p, dotAll, back)[i] + Matches(s, q, dotAll, back)[i]
  {
    hide Extends, Group;
    GroupText(s, p, dotAll, back);
    GroupText(s, q, dotAll, back);
    AtomIs(s, Group(p), dotAll, back);
    AtomIs(s, Group(q), dotAll, back);
    OrIsRead(Group(p), Group(q), dotAll);
    OnlyTerm(s, Meaning(Atom(Group(p)), dotAll), back);
    OnlyTerm(s, Meaning(Atom(Group(q)), dotAll), back);
    ChoiceWays(s, Concat(Empty, Meaning(Atom(Group(p)), dotAll)), Concat(Empty, Meaning(Atom(Group(q)), dotAll)), back);
  }

  lemma ChoiceWays(s: Subject, a: Regex, b: Regex, back: bool)
    ensures forall i :: 0 <= i <= |s.chars| ==> All(s, Choice(a, b), back)[i] == All(s, a, back)[i] + All(s, b, back)[i]
  {
  }

  lemma OrIsRead(p: seq<nat>, q: seq<nat>, dotAll: bool)
    requires AtomText(p) && AtomText(q)
    ensures var w := p + (Chars("|") + q);
      && Readable(w) && WellFormed(Read(w).value)
      && Meaning(Read(w).value, dotAll) == Choice(Concat(Empty, Meaning(Atom(p), dotAll)), Concat(Empty, Meaning(Atom(q), dotAll)))
  {
    var a, b := TThen(TEmpty, Atom(p)), TThen(TEmpty, Atom(q));
    SingleMeaning(Atom(p), dotAll);
    SingleMeaning(Atom(q), dotAll);
    var rest := Chars("|") + q + [];
    AtomExtends(Atom(p), rest);
    assert CountAt(rest).NoCount? && CountAt([]).NoCount?;
    assert Extends(a, rest) && Extends(b, []);
    PatternIsRead(p + (Chars("|") + q), TOr(a, b));
  }

  /** `pq` for patterns in parentheses: first `p`, then `q`; a backward matcher takes `q` first. */
  lemma SequenceText(s: Subject, p: seq<nat>, q: seq<nat>, dotAll: bool, back: bool)
    requires Readable(p) && Readable(q)
    ensures var w, x, y := Group(p) + Group(q), Matches(s, p, dotAll, back), Matches(s, q, dotAll, back);
      Readable(w) && Matches(s, w, dotAll, back) == if back then Compose(y, x) else Compose(x, y)
  {
    hide Extends, Group;
    GroupText(s, p, dotAll, back);
    GroupText(s, q, dotAll, back);
    AtomIs(s, Group(p), dotAll, back);
    AtomIs(s, Group(q), dotAll, back);
    GroupStart(q);
    SequenceIsRead(Group(p), Group(q), dotAll);
    TwoTerms(s, Meaning(Atom(Group(p)), dotAll), Meaning(Atom(Group(q)), dotAll), back);
  }

  lemma GroupStart(p: seq<nat>)
    ensures StartsWith(Group(p), '(')
  {
  }

  lemma SequenceIsRead(p: seq<nat>, q: seq<nat>, dotAll: bool)
    requires AtomText(p) && AtomText(q) && StartsWith(q, '(')
    ensures var w := p + q;
      && Readable(w) && WellFormed(Read(w).value)
      && Meaning(Read(w).value, dotAll) == Concat(Concat(Empty, Meaning(Atom(p), dotAll)), Meaning(Atom(q), dotAll))
  {
    var a := TThen(TEmpty, Atom(p));
    SingleMeaning(Atom(p), dotAll);
    var rest := q + [];
    assert rest == q;
    AtomExtends(Atom(p), rest);
    assert CountAt(rest).NoCount? && CountAt([]).NoCount?;
    assert Extends(a, rest);
    PatternIsRead(p + q, TThen(a, Atom(q)));
  }

  /** The empty pattern matches nothing, everywhere. */
  lemma EmptyText(s: Subject, dotAll: bool, back: bool)
    ensures Readable([]) && Matches(s, [], dotAll, back) == Nothing(|s.chars| + 1)
  {
    PatternIsRead([], TEmpty);
    EmptyWays(s, back);
  }

  // ---------------------------------------------------------------- single characters

  /** One character that is accepted; a backward matcher looks at the one before. */
  ghost function Step(s: Subject, back: bool, accepted: nat -> bool): (ks: Ways)
    ensures |ks| == |s.chars| + 1
  {
    seq(|s.chars| + 1, i requires 0 <= i <= |s.chars| =>
      if back then (if 0 < i && accepted(s.chars[i - 1]) then [i - 1] else [])
      else if i < |s.chars| && accepted(s.chars[i]) then [i + 1] else [])
  }

  lemma StepIs(s: Subject, r: Regex, back: bool, accepted: nat -> bool)
    requires r.Char? || r.Dot? || r.Any? || r.Class?
    requires forall k :: 0 <= k < |s.chars| ==> (accepted(s.chars[k]) <==> MatchesOne(r, s.chars[k]))
    ensures All(s, r, back) == Step(s, back, accepted)
  {
    hide MatchesOne;
    var a, b := All(s, r, back), Step(s, back, accepted);
    forall i | 0 <= i < |a| ensures a[i] == b[i] { }
  }

  /** The characters without another meaning. */
  predicate Ordinary(c: nat) {
    && c <= 0xffff && c != '^' as nat && c != '$' as nat && c != '.' as nat && c != '*' as nat && c != '+' as nat
    && c != '?' as nat && c != '(' as nat && c != ')' as nat && c != '[' as nat && c != '|' as nat && c != '\\' as nat
  }

  /** Such a character stands for itself. */
  lemma CharText(s: Subject, c: nat, dotAll: bool, back: bool)
    requires Ordinary(c)
    ensures AtomText([c]) && Matches(s, [c], dotAll, back) == Step(s, back, (x: nat) => x == c)
  {
    hide All, Step;
    assert !Special(c);
    assert !OpensCount([]);
    TermIsRead(s, TChar(c), dotAll, back);
    StepIs(s, Char(c), back, (x: nat) => x == c);
  }

  /** Line feed, carriage return, line separator and paragraph separator. */
  predicate EndsLine(c: nat) {
    c == '\n' as nat || c == '\r' as nat || c == '\U{2028}' as nat || c == '\U{2029}' as nat
  }

  /** '.' takes any character, but ends of lines only with LRE_FLAG_DOTALL. */
  lemma DotText(s: Subject, dotAll: bool, back: bool)
    ensures AtomText(Chars(".")) && Matches(s, Chars("."), dotAll, back) == Step(s, back, (x: nat) => dotAll || !EndsLine(x))
  {
    hide All, Step;
    TermIsRead(s, TDot, dotAll, back);
    StepIs(s, if dotAll then Any else Dot, back, (x: nat) => dotAll || !EndsLine(x));
  }

  /** Characters that a class can name without further ado. */
  predicate Plain(c: nat) {
    c <= 0xffff && c != '^' as nat && c != '-' as nat && c != ']' as nat && c != '\\' as nat
  }

  function ClassOf(inverted: bool, a: nat, b: nat, c: nat): seq<nat> {
    (if inverted then Chars("[^") else Chars("[")) + [a] + Chars("-") + [b, c] + Chars("]")
  }

  /** A class of a range and a character, and its complement. */
  lemma RangeText(s: Subject, inverted: bool, a: nat, b: nat, c: nat, dotAll: bool, back: bool)
    requires Plain(a) && Plain(b) && Plain(c) && a <= b && forall k :: 0 <= k < |s.chars| ==> s.chars[k] < 0xffff_ffff
    ensures var w := ClassOf(inverted, a, b, c);
      AtomText(w) && Matches(s, w, dotAll, back) == Step(s, back, (x: nat) => (a <= x <= b || x == c) != inverted)
  {
    hide All, Step, ClassPoints;
    var items := [Span(a, b), One(c)];
    ClassIsRead(inverted, a, b, c);
    TermIsRead(s, TClass(inverted, items), dotAll, back);
    forall k | 0 <= k < |s.chars|
      ensures MatchesOne(Class(ClassPoints(inverted, items)), s.chars[k]) <==> (a <= s.chars[k] <= b || s.chars[k] == c) != inverted
    {
      ClassMatches(inverted, items, s.chars[k]);
      TwoItems(a, b, c, s.chars[k]);
    }
    StepIs(s, Class(ClassPoints(inverted, items)), back, (x: nat) => (a <= x <= b || x == c) != inverted);
  }

  lemma TwoItems(a: nat, b: nat, c: nat, x: nat)
    ensures ItemsHave([Span(a, b), One(c)], x) <==> a <= x <= b || x == c
  {
    var items := [Span(a, b), One(c)];
    assert items[0] == Span(a, b) && items[1] == One(c);
    if a <= x <= b { assert ItemHas(items[0], x); }
    if x == c { assert ItemHas(items[1], x); }
  }

  lemma ClassIsRead(inverted: bool, a: nat, b: nat, c: nat)
    requires Plain(a) && Plain(b) && Plain(c) && a <= b
    ensures var t := TClass(inverted, [Span(a, b), One(c)]);
      WellFormed(t) && Extends(t, []) && Text(t) == ClassOf(inverted, a, b, c)
  {
    hide ItemsText, ItemsExtend;
    var items := [Span(a, b), One(c)];
    assert items[0] == Span(a, b) && items[1] == One(c);
    TwoItemsText(a, b, c);
    TwoItemsExtend(a, b, c);
    assert Chars("]") + [] == Chars("]");
  }

  lemma TwoItemsText(a: nat, b: nat, c: nat)
    ensures ItemsText([Span(a, b), One(c)]) == [a] + Chars("-") + [b, c]
  {
    var items := [Span(a, b), One(c)];
    assert items[..1] == [Span(a, b)] && [Span(a, b)][..0] == [];
    assert ItemsText([]) == [] && ItemsText([Span(a, b)]) == [a] + Chars("-") + [b];
  }

  lemma TwoItemsExtend(a: nat, b: nat, c: nat)
    requires Plain(c)
    ensures ItemsExtend([Span(a, b), One(c)], Chars("]"))
  {
    var items := [Span(a, b), One(c)];
    var last := ItemText(One(c)) + Chars("]");
    assert items[..1] == [Span(a, b)] && [Span(a, b)][..0] == [];
    assert ItemsExtend([], ItemText(Span(a, b)) + last);
    assert ItemsExtend([Span(a, b)], last);
  }

  // ---------------------------------------------------------------- assertions

  /** Nothing is taken, where the condition holds. */
  ghost function Where(s: Subject, holds: nat -> bool): (ks: Ways)
    ensures |ks| == |s.chars| + 1
  {
    seq(|s.chars| + 1, i requires 0 <= i <= |s.chars| => if holds(i) then [i as nat] else [])
  }

  lemma WhereIs(s: Subject, r: Regex, back: bool, holds: nat -> bool)
    requires forall i :: 0 <= i <= |s.chars| ==> Ends(s, r, back, i) == if holds(i) then [i as nat] else []
    ensures All(s, r, back) == Where(s, holds)
  {
    hide Ends;
    var a, b := All(s, r, back), Where(s, holds);
    forall i | 0 <= i < |a| ensures a[i] == b[i] { }
  }

  /** '^': the start, and with LRE_FLAG_MULTILINE behind the end of a line. */
  lemma LineStartText(s: Subject, dotAll: bool, back: bool)
    ensures Readable(Chars("^"))
    ensures Matches(s, Chars("^"), dotAll, back) ==
      Where(s, (i: nat) => i == 0 || (i <= |s.chars| && s.multiLine && EndsLine(s.chars[i - 1])))
  {
    hide All, Where;
    TermIsRead(s, TLineStart, dotAll, back);
    WhereIs(s, LineStart, back, (i: nat) => i == 0 || (i <= |s.chars| && s.multiLine && EndsLine(s.chars[i - 1])));
  }

  /** '$': the end, and with LRE_FLAG_MULTILINE before the end of a line. */
  lemma LineEndText(s: Subject, dotAll: bool, back: bool)
    ensures Readable(Chars("$"))
    ensures Matches(s, Chars("$"), dotAll, back) ==
      Where(s, (i: nat) => i == |s.chars| || (i < |s.chars| && s.multiLine && EndsLine(s.chars[i])))
  {
    hide All, Where;
    TermIsRead(s, TLineEnd, dotAll, back);
    WhereIs(s, LineEnd, back, (i: nat) => i == |s.chars| || (i < |s.chars| && s.multiLine && EndsLine(s.chars[i])));
  }

  /** Letters, digits and '_'. */
  predicate InWord(c: nat) {
    || 'a' as nat <= c <= 'z' as nat || 'A' as nat <= c <= 'Z' as nat || '0' as nat <= c <= '9' as nat || c == '_' as nat
  }

  /** `\b` holds where a word begins or ends, `\B` elsewhere. */
  lemma BoundaryText(s: Subject, inverted: bool, dotAll: bool, back: bool)
    ensures var w := ['\\' as nat] + Chars(if inverted then "B" else "b");
      Readable(w) && Matches(s, w, dotAll, back) ==
        Where(s, (i: nat) =>
          ((0 < i <= |s.chars| && InWord(s.chars[i - 1])) != (i < |s.chars| && InWord(s.chars[i]))) != inverted)
  {
    hide All, Where;
    var w := ['\\' as nat] + Chars(if inverted then "B" else "b");
    assert Text(TWordBoundary(inverted)) == w;
    TermIsRead(s, TWordBoundary(inverted), dotAll, back);
    WhereIs(s, WordBoundary(inverted), back, (i: nat) =>
      ((0 < i <= |s.chars| && InWord(s.chars[i - 1])) != (i < |s.chars| && InWord(s.chars[i]))) != inverted);
  }

  function LookOf(negated: bool, behind: bool, p: seq<nat>): seq<nat> {
    (if behind then (if negated then Chars("(?<!") else Chars("(?<=")) else if negated then Chars("(?!") else Chars("(?="))
    + (p + Chars(")"))
  }

  /** The four assertions that look at what follows or precedes. */
  lemma LookaroundText(s: Subject, negated: bool, behind: bool, p: seq<nat>, dotAll: bool, back: bool)
    requires Readable(p)
    ensures var w := LookOf(negated, behind, p);
      Readable(w) && Matches(s, w, dotAll, back) ==
        Where(s, (i: nat) => i <= |s.chars| && (Matches(s, p, dotAll, behind)[i] == []) == negated)
  {
    hide All, Where;
    ReadIs(p);
    var t := Read(p).value;
    ExtendsStill(t, [], Chars(")"));
    assert [] + Chars(")") == Chars(")") + [] == Chars(")");
    TermIsRead(s, TLook(negated, behind, t), dotAll, back);
    LookIs(s, negated, behind, Meaning(t, dotAll), back);
    assert Matches(s, p, dotAll, behind) == All(s, Meaning(t, dotAll), behind);
    WhereIs(s, Look(negated, behind, Meaning(t, dotAll)), back,
            (i: nat) => i <= |s.chars| && (Matches(s, p, dotAll, behind)[i] == []) == negated);
  }

  lemma LookIs(s: Subject, negated: bool, behind: bool, r: Regex, back: bool)
    ensures forall i :: 0 <= i <= |s.chars| ==>
      Ends(s, Look(negated, behind, r), back, i) == if (All(s, r, behind)[i] == []) == negated then [i as nat] else []
  {
  }

  // ---------------------------------------------------------------- texts that are rejected

  /** A quantifier needs something before it, and a ')' needs a '('. */
  lemma NothingBefore(c: char, rest: seq<nat>)
    requires c == '*' || c == '+' || c == '?' || c == ')'
    ensures !Readable([c as nat] + rest)
  {
    var s := [c as nat] + rest;
    assert Special(c as nat) && s[0] == c as nat;
    if c == ')' {
      assert AlternativeFrom(TEmpty, s) == Some((TEmpty, s));
      assert DisjunctionAt(s) == Some((TEmpty, s));
    } else {
      NoFirstTerm(s);
    }
  }

  lemma NoFirstTerm(s: seq<nat>)
    requires s != [] && !AtEnd(s) && TermAt(s).None?
    ensures !Readable(s)
  {
    hide TermAt;
    assert AlternativeFrom(TEmpty, s) == None;
  }

  /** Bounds in the wrong order, with or without a '}' behind them. */
  lemma BoundsInOrder(c: nat, n: nat, m: nat, rest: seq<nat>)
    requires Ordinary(c) && c != '{' as nat && m < n < 0x7fff_ffff && (rest == [] || !('0' as nat <= rest[0] <= '9' as nat))
    ensures !Readable([c] + (Chars("{") + (Decimal(n) + (Chars(",") + (Decimal(m) + rest)))))
  {
    hide Decimal, Value, BracesAt, CountAt;
    var braces := Decimal(n) + (Chars(",") + (Decimal(m) + rest));
    var s := [c] + (Chars("{") + braces);
    BadBounds(n, m, rest);
    assert s[1..] == Chars("{") + braces && !Special(c) && s[0] == c;
    AtBraces(braces);
    assert AtomAt(s) == Some((TChar(c), s[1..]));
    NoFirstTerm(s);
  }

  lemma AtBraces(s: seq<nat>)
    ensures CountAt(Chars("{") + s) == BracesAt(s)
  {
    assert (Chars("{") + s)[1..] == s;
  }

  lemma BadBounds(n: nat, m: nat, rest: seq<nat>)
    requires m < n < 0x7fff_ffff && (rest == [] || !IsDigit(rest[0]))
    ensures BracesAt(Decimal(n) + (Chars(",") + (Decimal(m) + rest))).BadCount?
  {
    hide Decimal, Value, Run;
    DecimalValue(n);
    DecimalValue(m);
    var d, e, s := Decimal(n), Decimal(m), Decimal(n) + (Chars(",") + (Decimal(m) + rest));
    RunIs(d, Chars(",") + (e + rest));
    RunIs(e, rest);
    PutBack(',', e + rest);
    assert s[|d| + 1..] == e + rest;
  }

  /** A range in a class whose ends are in the wrong order. */
  lemma RangesInOrder(a: nat, b: nat, rest: seq<nat>)
    requires Plain(a) && Plain(b) && b < a
    ensures !Readable(Chars("[") + ([a] + Chars("-") + [b] + rest))
  {
    var t := [a] + Chars("-") + [b] + rest;
    var s := Chars("[") + t;
    assert s[1..] == t && t[0] == a && t[1] == '-' as nat && t[2] == b && t[1..][1..][0] == b;
    assert ItemAt(t) == None;
    assert ItemsFrom([], t) == None;
    assert ClassAt(s) == None && AtomAt(s) == None;
    NoFirstTerm(s);
  }

  // ---------------------------------------------------------------- the leftmost match

  /** `f` is the leftmost match from `i` on, with the best end there; a sticky one starts at `i`. */
  ghost predicate Leftmost(ks: Ways, i: nat, sticky: bool, f: Option<(nat, nat)>) {
    match f
    case None => forall k :: i <= k < |ks| && (sticky ==> k == i) ==> ks[k] == []
    case Some((k, e)) =>
      && i <= k < |ks| && (sticky ==> k == i) && ks[k] != [] && ks[k][0] == e
      && forall j :: i <= j < k ==> ks[j] == []
  }

  const B_ALONE := Subject(['b' as nat], false)

  lemma NoLetterA()
    ensures AtomText(['a' as nat]) && Matches(B_ALONE, ['a' as nat], false, false) == [[], []]
  {
    CharText(B_ALONE, 'a' as nat, false, false);
  }

  /** `a+` does not match in "b". */
  lemma PlusInB()
    ensures Readable(Chars("a+")) && Leftmost(Matches(B_ALONE, Chars("a+"), false, false), 0, false, None)
  {
    hide Matches;
    var p := ['a' as nat];
    NoLetterA();
    PlusText(B_ALONE, p, true, false, false);
    assert Quantified(p, Chars("+"), true) == Chars("a+");
  }

  /** `a*` matches the empty string at the start of "b". */
  lemma StarInB()
    ensures Readable(Chars("a*")) && Leftmost(Matches(B_ALONE, Chars("a*"), false, false), 0, false, Some((0, 0)))
  {
    hide Matches;
    var p := ['a' as nat];
    NoLetterA();
    StarText(B_ALONE, p, true, false, false);
    assert Quantified(p, Chars("*"), true) == Chars("a*");
    var star := Matches(B_ALONE, Chars("a*"), false, false);
    assert Each([], star[0 := [0]]) == [];
    assert star[0] == [] + [0] == [0];
  }
}
