/**
 Reading a pattern from left to right, as re_parse_disjunction and its helpers do, and the proof
 that this finds the grammatical tree of a pattern when there is one: the grammar is unambiguous,
 and nothing grammatical is rejected.
 */
module RegexReader {
  import opened Wrappers
  import opened RegexGrammar

  // ---------------------------------------------------------------- the reader

  function ItemAt(s: seq<nat>): (r: Option<(Item, seq<nat>)>)
    ensures r.Some? ==> |r.value.1| < |s|
  {
    if s == [] || !ClassChar(s[0]) then None
    else if !RangeFollows(s[1..]) then Some((One(s[0]), s[1..]))
    else if |s| < 3 || !ClassChar(s[2]) || s[2] < s[0] then None
    else Some((Span(s[0], s[2]), s[3..]))
  }

  function ItemsFrom(read: seq<Item>, s: seq<nat>): (r: Option<(seq<Item>, seq<nat>)>)
    ensures r.Some? ==> |r.value.1| < |s|
    decreases |s|
  {
    if StartsWith(s, ']') then Some((read, s[1..]))
    else
      match ItemAt(s)
      case None => None
      case Some((it, rest)) => ItemsFrom(read + [it], rest)
  }

  function ClassAt(s: seq<nat>): (r: Option<(Tree, seq<nat>)>)
    requires StartsWith(s, '[')
    ensures r.Some? ==> |r.value.1| < |s| && r.value.0.TClass?
  {
    var inverted := StartsWith(s[1..], '^');
    match ItemsFrom([], if inverted then s[2..] else s[1..])
    case None => None
    case Some((items, rest)) => Some((TClass(inverted, items), rest))
  }

  /** A disjunction and the ')' after it. */
  function EnclosedAt(s: seq<nat>): (r: Option<(Tree, seq<nat>)>)
    ensures r.Some? ==> |r.value.1| < |s|
    decreases |s|, 5
  {
    match DisjunctionAt(s)
    case None => None
    case Some((t, rest)) => if StartsWith(rest, ')') then Some((t, rest[1..])) else None
  }

  function GroupAt(s: seq<nat>): (r: Option<(Tree, seq<nat>)>)
    ensures r.Some? ==> |r.value.1| < |s|
    decreases |s|, 0
  {
    if |s| < 4 || s[1] != '?' as int then None
    else if s[2] == ':' as int then
      match EnclosedAt(s[3..])
      case None => None
      case Some((t, rest)) => Some((TGroup(t), rest))
    else
      var behind := s[2] == '<' as int;
      var q := if behind then 3 else 2;
      if s[q] != '=' as int && s[q] != '!' as int then None
      else
        match EnclosedAt(s[q + 1..])
        case None => None
        case Some((t, rest)) => Some((TLook(s[q] == '!' as int, behind, t), rest))
  }

  /** A term up to its quantifier. */
  function AtomAt(s: seq<nat>): (r: Option<(Tree, seq<nat>)>)
    requires s != []
    ensures r.Some? ==> |r.value.1| < |s|
    decreases |s|, 1
  {
    if StartsWith(s, '^') then Some((TLineStart, s[1..]))
    else if StartsWith(s, '$') then Some((TLineEnd, s[1..]))
    else if StartsWith(s, '.') then Some((TDot, s[1..]))
    else if StartsWith(s, '(') then GroupAt(s)
    else if StartsWith(s, '[') then ClassAt(s)
    else if StartsWith(s, '\\') then
      if StartsWith(s[1..], 'b') then Some((TWordBoundary(false), s[2..]))
      else if StartsWith(s[1..], 'B') then Some((TWordBoundary(true), s[2..]))
      else None
    else if Special(s[0]) || 0xffff < s[0] || (StartsWith(s, '{') && OpensCount(s[1..])) then None
    else Some((TChar(s[0]), s[1..]))
  }

  function TermAt(s: seq<nat>): (r: Option<(Tree, seq<nat>)>)
    requires s != []
    ensures r.Some? ==> |r.value.1| < |s|
    decreases |s|, 2
  {
    match AtomAt(s)
    case None => None
    case Some((t, rest)) =>
      if !IsAtom(t) then Some((t, rest))
      else
        match CountAt(rest)
        case NoCount => Some((t, rest))
        case BadCount => None
        case Counted(q, tail) =>
          if StartsWith(tail, '?') then Some((TRepeat(t, q, false), tail[1..]))
          else Some((TRepeat(t, q, true), tail))
  }

  /** Where an alternative ends. */
  predicate AtEnd(s: seq<nat>) {
    s == [] || StartsWith(s, '|') || StartsWith(s, ')')
  }

  /** The rest of an alternative whose first terms are `read`. */
  function AlternativeFrom(read: Tree, s: seq<nat>): (r: Option<(Tree, seq<nat>)>)
    ensures r.Some? ==> |r.value.1| <= |s| && AtEnd(r.value.1)
    decreases |s|, 3
  {
    if AtEnd(s) then Some((read, s))
    else
      match TermAt(s)
      case None => None
      case Some((t, rest)) => AlternativeFrom(TThen(read, t), rest)
  }

  /** The rest of a disjunction whose first alternatives are `read`. */
  function DisjunctionFrom(read: Tree, s: seq<nat>): (r: Option<(Tree, seq<nat>)>)
    ensures r.Some? ==> |r.value.1| <= |s|
    decreases |s|, 3
  {
    if !StartsWith(s, '|') then Some((read, s))
    else
      match AlternativeFrom(TEmpty, s[1..])
      case None => None
      case Some((t, rest)) => DisjunctionFrom(TOr(read, t), rest)
  }

  function DisjunctionAt(s: seq<nat>): (r: Option<(Tree, seq<nat>)>)
    ensures r.Some? ==> |r.value.1| <= |s|
    decreases |s|, 4
  {
    match AlternativeFrom(TEmpty, s)
    case None => None
    case Some((t, rest)) => DisjunctionFrom(t, rest)
  }

  function Read(s: seq<nat>): Option<Tree> {
    match DisjunctionAt(s)
    case None => None
    case Some((t, rest)) => if rest == [] then Some(t) else None
  }

  // ---------------------------------------------------------------- texts

  lemma Assoc(a: seq<nat>, b: seq<nat>, c: seq<nat>)
    ensures a + b + c == a + (b + c)
  {
  }

  /** Taking one character off. */
  lemma OffFront(s: seq<nat>, c: char)
    requires StartsWith(s, c)
    ensures Chars([c]) + s[1..] == s
  {
  }

  lemma PutBack(c: char, s: seq<nat>)
    ensures StartsWith(Chars([c]) + s, c) && (Chars([c]) + s)[1..] == s
  {
  }

  lemma RunIs(d: seq<nat>, s: seq<nat>)
    requires (forall k :: 0 <= k < |d| ==> IsDigit(d[k])) && (s == [] || !IsDigit(s[0]))
    ensures Run(d + s) == |d| && (d + s)[..|d|] == d && (d + s)[|d|..] == s
  {
    assert forall k :: 0 <= k < |d| ==> (d + s)[k] == d[k];
    assert s != [] ==> (d + s)[|d|] == s[0];
  }

  // ---------------------------------------------------------------- repetition counts

  lemma CountSound(s: seq<nat>)
    requires CountAt(s).Counted?
    ensures s == CountText(CountAt(s).q) + CountAt(s).rest
  {
    hide Chars, Value, IsDigit, Run;
    var q := CountAt(s).q;
    if StartsWith(s, '*') { OffFront(s, '*'); }
    else if StartsWith(s, '+') { OffFront(s, '+'); }
    else if StartsWith(s, '?') { OffFront(s, '?'); }
    else {
      OffFront(s, '{');
      BracesSound(s[1..]);
    }
  }

  lemma CommaBrace()
    ensures Chars(",}") == Chars(",") + Chars("}")
  {
  }

  lemma BracesSound(s: seq<nat>)
    requires BracesAt(s).Counted?
    ensures Chars("{") + s == CountText(BracesAt(s).q) + BracesAt(s).rest
  {
    hide Chars, Value, IsDigit, Run, CountText, MaxAt;
    var n := Run(s);
    var t := s[n + 1..];
    assert s == s[..n] + s[n..];
    if StartsWith(s[n..], ',') {
      OffFront(s[n..], ',');
      MaxSound(s[..n], t);
      Assoc(Chars("{"), s[..n], Chars(",") + t);
    } else {
      OffFront(s[n..], '}');
      Assoc(Chars("{"), s[..n], Chars("}") + t);
      Assoc(Chars("{") + s[..n], Chars("}"), t);
      ExactText(s[..n]);
    }
  }

  lemma ExactText(n: seq<nat>)
    ensures CountText(Exact(n)) == Chars("{") + n + Chars("}")
  {
  }

  lemma MaxSound(n: seq<nat>, s: seq<nat>)
    requires Digits(n) && MaxAt(n, s).Counted?
    ensures Chars("{") + n + (Chars(",") + s) == CountText(MaxAt(n, s).q) + MaxAt(n, s).rest
  {
    hide Chars, Value, IsDigit, Run;
    var m := Run(s);
    var open, close, comma, rest := Chars("{"), Chars("}"), Chars(","), s[m + 1..];
    assert s == s[..m] + s[m..];
    OffFront(s[m..], '}');
    CommaBrace();
    if m == 0 {
      assert s == close + rest;
      assert open + n + (comma + (close + rest)) == open + n + (comma + close) + rest;
    } else {
      assert open + n + (comma + (s[..m] + (close + rest))) == open + n + comma + s[..m] + close + rest;
    }
  }

  lemma CountComplete(q: Count, rest: seq<nat>)
    requires ValidCount(q)
    ensures CountAt(CountText(q) + rest) == Counted(q, rest)
  {
    hide Chars, Value, IsDigit, Run, BracesAt, Digits;
    match q
    case Star => PutBack('*', rest);
    case Plus => PutBack('+', rest);
    case Opt => PutBack('?', rest);
    case _ => BracedComplete(q, rest);
  }

  lemma BracedComplete(q: Count, rest: seq<nat>)
    requires ValidCount(q) && (q.Exact? || q.AtLeast? || q.Between?)
    ensures CountAt(CountText(q) + rest) == Counted(q, rest)
  {
    hide Chars, Value, IsDigit, Run, BracesAt, Digits, CountAt, CountText;
    BracesComplete(q, rest);
    BracedText(q, rest);
    var close, comma := Chars("}"), Chars(",");
    match q
    case Exact(n) => AfterBrace(n + (close + rest));
    case AtLeast(n) => AfterBrace(n + (comma + (close + rest)));
    case Between(n, m) => AfterBrace(n + (comma + (m + (close + rest))));
  }

  lemma BracedText(q: Count, rest: seq<nat>)
    ensures q.Exact? ==> CountText(q) + rest == Chars("{") + (q.n + (Chars("}") + rest))
    ensures q.AtLeast? ==> CountText(q) + rest == Chars("{") + (q.n + (Chars(",") + (Chars("}") + rest)))
    ensures q.Between? ==> CountText(q) + rest == Chars("{") + (q.n + (Chars(",") + (q.m + (Chars("}") + rest))))
  {
    hide Chars;
    CommaBrace();
  }

  lemma AfterBrace(s: seq<nat>)
    ensures CountAt(Chars("{") + s) == BracesAt(s)
  {
    hide Chars, BracesAt;
    PutBack('{', s);
  }

  lemma BracesComplete(q: Count, rest: seq<nat>)
    requires ValidCount(q)
    ensures q.Exact? ==> BracesAt(q.n + (Chars("}") + rest)) == Counted(q, rest)
    ensures q.AtLeast? ==> BracesAt(q.n + (Chars(",") + (Chars("}") + rest))) == Counted(q, rest)
    ensures q.Between? ==> BracesAt(q.n + (Chars(",") + (q.m + (Chars("}") + rest)))) == Counted(q, rest)
  {
    hide Chars, Value, Run, MaxAt;
    var close, comma := Chars("}"), Chars(",");
    PutBack('}', rest);
    match q
    case Exact(n) =>
      RunIs(n, close + rest);
      assert (n + (close + rest))[|n| + 1..] == (close + rest)[1..];
    case AtLeast(n) =>
      AfterComma(n, close + rest);
      RunIs([], close + rest);
      assert [] + (close + rest) == close + rest;
      MaxIs(n, [], rest);
    case Between(n, m) =>
      AfterComma(n, m + (close + rest));
      RunIs(m, close + rest);
      MaxIs(n, m, rest);
    case _ =>
  }

  lemma AfterComma(n: seq<nat>, t: seq<nat>)
    requires Digits(n)
    ensures BracesAt(n + (Chars(",") + t)) == MaxAt(n, t)
  {
    hide Chars, Value, Run, MaxAt;
    PutBack(',', t);
    RunIs(n, Chars(",") + t);
    assert (n + (Chars(",") + t))[|n| + 1..] == (Chars(",") + t)[1..];
  }

  lemma MaxIs(n: seq<nat>, m: seq<nat>, rest: seq<nat>)
    requires Digits(n) && (m == [] || (Digits(m) && Value(n) <= Value(m)))
    ensures MaxAt(n, m + (Chars("}") + rest)) == Counted(if m == [] then AtLeast(n) else Between(n, m), rest)
  {
    hide Chars, Value, Run;
    var close := Chars("}");
    PutBack('}', rest);
    RunIs(m, close + rest);
    assert (m + (close + rest))[|m| + 1..] == (close + rest)[1..];
  }

  // ---------------------------------------------------------------- classes

  lemma ItemSound(s: seq<nat>)
    requires ItemAt(s).Some? && !StartsWith(s, ']')
    ensures var (it, rest) := ItemAt(s).value;
      s == ItemText(it) + rest && ValidItem(it) && (it.One? ==> !RangeFollows(rest))
  {
    var (it, rest) := ItemAt(s).value;
    if it.Span? {
      assert s[1..][1..] == s[2..];
      assert s == [s[0]] + Chars("-") + [s[2]] + s[3..];
    }
  }

  lemma ItemComplete(it: Item, rest: seq<nat>)
    requires ValidItem(it) && (it.One? ==> !RangeFollows(rest))
    ensures ItemAt(ItemText(it) + rest) == Some((it, rest)) && !StartsWith(ItemText(it) + rest, ']')
  {
    var s := ItemText(it) + rest;
    if it.Span? {
      assert s[1] == '-' as int && s[2] == it.c2 && s[1..][1..] == s[2..];
      assert s[3..] == rest;
    } else {
      assert s[1..] == rest;
    }
  }

  lemma AddItem(items: seq<Item>, it: Item)
    ensures ItemsText(items + [it]) == ItemsText(items) + ItemText(it)
  {
    assert (items + [it])[..|items|] == items;
  }

  lemma {:induction false} ItemsSound(read: seq<Item>, s: seq<nat>)
    requires ItemsFrom(read, s).Some? && ValidItems(read) && ItemsExtend(read, s)
    ensures var (items, rest) := ItemsFrom(read, s).value;
      && ItemsText(read) + s == ItemsText(items) + (Chars("]") + rest)
      && ValidItems(items) && ItemsExtend(items, Chars("]") + rest)
    decreases |s|
  {
    hide Chars, ItemText, ItemsText, RangeFollows, ItemAt, ValidItem;
    if StartsWith(s, ']') {
      OffFront(s, ']');
    } else {
      ItemSound(s);
      var (it, rest) := ItemAt(s).value;
      assert (read + [it])[..|read|] == read;
      AddItem(read, it);
      Assoc(ItemsText(read), ItemText(it), rest);
      ItemsSound(read + [it], rest);
    }
  }

  lemma {:induction false} ItemsComplete(items: seq<Item>, s: seq<nat>)
    requires ValidItems(items) && ItemsExtend(items, s)
    ensures ItemsFrom([], ItemsText(items) + s) == ItemsFrom(items, s)
    decreases |items|
  {
    hide ItemText, ItemAt, RangeFollows, ValidItem;
    if items == [] {
      assert ItemsText(items) + s == s;
    } else {
      var front, it := items[..|items| - 1], items[|items| - 1];
      assert items == front + [it] && ValidItem(it);
      Assoc(ItemsText(front), ItemText(it), s);
      ItemsComplete(front, ItemText(it) + s);
      ItemComplete(it, s);
    }
  }

  lemma ClassHead(inverted: bool, items: seq<Item>, rest: seq<nat>)
    ensures ClassText(inverted, items) + rest ==
      Chars("[") + ((if inverted then Chars("^") else []) + (ItemsText(items) + (Chars("]") + rest)))
  {
    hide ItemsText;
    assert Chars("[^") == Chars("[") + Chars("^");
  }

  lemma NoItems(s: seq<nat>)
    ensures ItemsText([]) + s == s && ValidItems([]) && ItemsExtend([], s)
  {
  }

  lemma ClassSound(s: seq<nat>)
    requires StartsWith(s, '[') && ClassAt(s).Some?
    ensures var (t, rest) := ClassAt(s).value; s == Text(t) + rest && WellFormed(t) && Extends(t, rest)
  {
    hide Chars, ValidItem, RangeFollows, ItemText, ItemsText, ItemsExtend, ItemsFrom, ClassText;
    var (t, rest) := ClassAt(s).value;
    OffFront(s, '[');
    var body := if t.inverted then s[2..] else s[1..];
    NoItems(body);
    ItemsSound([], body);
    ClassHead(t.inverted, t.items, rest);
    if t.inverted {
      OffFront(s[1..], '^');
      assert s[1..][1..] == s[2..];
    }
  }

  lemma ClassComplete(t: Tree, rest: seq<nat>)
    requires t.TClass? && WellFormed(t) && Extends(t, rest)
    ensures StartsWith(Text(t) + rest, '[') && ClassAt(Text(t) + rest) == Some((t, rest))
  {
    hide Chars, ItemsText, ValidItem, RangeFollows, ItemsExtend;
    var tail := Chars("]") + rest;
    var body := ItemsText(t.items) + tail;
    ClassHead(t.inverted, t.items, rest);
    PutBack('[', (if t.inverted then Chars("^") else []) + body);
    PutBack(']', rest);
    ItemsComplete(t.items, tail);
    if t.inverted {
      PutBack('^', body);
      assert (Text(t) + rest)[1..][1..] == (Text(t) + rest)[2..];
    } else {
      assert [] + body == body;
      assert !StartsWith(body, '^');
    }
  }

  // ---------------------------------------------------------------- terms

  /** What is read is grammatical in front of what is left. */
  ghost predicate Sound(s: seq<nat>, r: Option<(Tree, seq<nat>)>) {
    r.Some? ==>
      var (t, rest) := r.value;
      s == Text(t) + rest && WellFormed(t) && Extends(t, rest)
  }

  lemma EnclosedSound(s: seq<nat>)
    ensures var r := EnclosedAt(s);
      r.Some? ==>
        var (t, rest) := r.value;
        s == Text(t) + Chars(")") + rest && IsDisjunction(t) && WellFormed(t) && Extends(t, Chars(")") + rest)
    decreases |s|, 5
  {
    hide Chars;
    if EnclosedAt(s).Some? {
      DisjunctionSound(s);
      var (t, rest) := DisjunctionAt(s).value;
      OffFront(rest, ')');
      Assoc(Text(t), Chars(")"), rest[1..]);
    }
  }

  lemma GroupHead(s: seq<nat>)
    requires StartsWith(s, '(') && 4 <= |s| && s[1] == '?' as int
    ensures s[2] == ':' as int ==> s == Chars("(?:") + s[3..]
    ensures forall negated, behind ::
      var q := if behind then 3 else 2;
      (behind ==> s[2] == '<' as int) && s[q] == (if negated then '!' else '=') as int
      ==> s == LookText(negated, behind) + s[q + 1..]
  {
  }

  lemma GroupSound(s: seq<nat>)
    requires StartsWith(s, '(')
    ensures Sound(s, GroupAt(s)) && (GroupAt(s).Some? ==> GroupAt(s).value.0.TGroup? || GroupAt(s).value.0.TLook?)
    decreases |s|, 0
  {
    hide Chars, LookText;
    if GroupAt(s).Some? {
      GroupHead(s);
      var (t, rest) := GroupAt(s).value;
      var q := if s[2] == '<' as int then 3 else 2;
      EnclosedSound(if t.TGroup? then s[3..] else s[q + 1..]);
      var head := if t.TGroup? then Chars("(?:") else LookText(t.negated, t.behind);
      assert s == head + (Text(t.body) + Chars(")") + rest);
      Assoc(head, Text(t.body) + Chars(")"), rest);
    }
  }

  lemma AtomSound(s: seq<nat>)
    requires s != []
    ensures Sound(s, AtomAt(s)) && (AtomAt(s).Some? ==> IsTerm(AtomAt(s).value.0) && !AtomAt(s).value.0.TRepeat?)
    decreases |s|, 1
  {
    hide OpensCount;
    if StartsWith(s, '(') {
      GroupSound(s);
    } else if StartsWith(s, '[') {
      if ClassAt(s).Some? { ClassSound(s); }
    } else if StartsWith(s, '\\') && AtomAt(s).Some? {
      assert s[1..][1..] == s[2..];
      assert s == [s[0], s[1]] + s[2..];
    } else {
      assert s == [s[0]] + s[1..];
    }
  }

  lemma TermSound(s: seq<nat>)
    requires s != []
    ensures Sound(s, TermAt(s))
    ensures TermAt(s).Some? ==>
      var (t, rest) := TermAt(s).value;
      IsTerm(t) && (IsAtom(t) ==> CountAt(rest).NoCount?)
    decreases |s|, 2
  {
    hide Chars, CountText, CountAt;
    AtomSound(s);
    if TermAt(s).Some? && TermAt(s).value.0.TRepeat? {
      var (atom, mid) := AtomAt(s).value;
      CountSound(mid);
      var q, tail := CountAt(mid).q, CountAt(mid).rest;
      if StartsWith(tail, '?') { OffFront(tail, '?'); }
      var (t, rest) := TermAt(s).value;
      assert tail == LazyText(t.greedy) + rest;
      Assoc(CountText(q), LazyText(t.greedy), rest);
      Assoc(Text(atom), CountText(q) + LazyText(t.greedy), rest);
    }
  }

  // ---------------------------------------------------------------- alternatives and disjunctions

  lemma {:induction false} AlternativeSound(read: Tree, s: seq<nat>)
    requires IsAlternative(read) && WellFormed(read) && Extends(read, s)
    ensures AlternativeFrom(read, s).Some? ==>
      var (t, rest) := AlternativeFrom(read, s).value;
      Text(read) + s == Text(t) + rest && IsAlternative(t) && WellFormed(t) && Extends(t, rest)
    decreases |s|, 3
  {
    if !AtEnd(s) {
      TermSound(s);
      if TermAt(s).Some? {
        var (t, rest) := TermAt(s).value;
        Assoc(Text(read), Text(t), rest);
        AlternativeSound(TThen(read, t), rest);
      }
    }
  }

  lemma {:induction false} DisjunctionFromSound(read: Tree, s: seq<nat>)
    requires IsDisjunction(read) && WellFormed(read) && Extends(read, s)
    ensures DisjunctionFrom(read, s).Some? ==>
      var (t, rest) := DisjunctionFrom(read, s).value;
      Text(read) + s == Text(t) + rest && IsDisjunction(t) && WellFormed(t) && Extends(t, rest)
    decreases |s|, 3
  {
    hide Chars;
    if StartsWith(s, '|') {
      OffFront(s, '|');
      AlternativeSound(TEmpty, s[1..]);
      if AlternativeFrom(TEmpty, s[1..]).Some? {
        var (t, rest) := AlternativeFrom(TEmpty, s[1..]).value;
        assert s[1..] == Text(t) + rest;
        Assoc(Chars("|"), Text(t), rest);
        Assoc(Text(read), Chars("|") + Text(t), rest);
        DisjunctionFromSound(TOr(read, t), rest);
      }
    }
  }

  lemma DisjunctionSound(s: seq<nat>)
    ensures Sound(s, DisjunctionAt(s)) && (DisjunctionAt(s).Some? ==> IsDisjunction(DisjunctionAt(s).value.0))
    decreases |s|, 4
  {
    AlternativeSound(TEmpty, s);
    if AlternativeFrom(TEmpty, s).Some? {
      var (t, rest) := AlternativeFrom(TEmpty, s).value;
      DisjunctionFromSound(t, rest);
      assert Text(TEmpty) + s == s;
    }
  }

  // ---------------------------------------------------------------- nothing grammatical is missed

  lemma EnclosedComplete(t: Tree, rest: seq<nat>)
    requires IsDisjunction(t) && WellFormed(t) && Extends(t, Chars(")") + rest)
    ensures EnclosedAt(Text(t) + Chars(")") + rest) == Some((t, rest))
    decreases t, 4
  {
    hide Chars;
    PutBack(')', rest);
    Assoc(Text(t), Chars(")"), rest);
    DisjunctionComplete(t, Chars(")") + rest);
  }

  lemma LookHead(negated: bool, behind: bool)
    ensures var head, q := LookText(negated, behind), if behind then 3 else 2;
      && |head| == q + 1 && head[0] == '(' as int && head[1] == '?' as int
      && (head[2] == '<' as int <==> behind) && head[2] != ':' as int && head[q] == (if negated then '!' else '=') as int
  {
  }

  lemma GroupComplete(t: Tree, rest: seq<nat>)
    requires (t.TGroup? || t.TLook?) && WellFormed(t) && Extends(t, rest)
    ensures StartsWith(Text(t) + rest, '(') && GroupAt(Text(t) + rest) == Some((t, rest))
    decreases t, 0
  {
    hide LookText, EnclosedAt;
    EnclosedComplete(t.body, rest);
    var head := if t.TGroup? then Chars("(?:") else LookText(t.negated, t.behind);
    if t.TLook? { LookHead(t.negated, t.behind); }
    var s, inner := Text(t) + rest, Text(t.body) + Chars(")") + rest;
    assert s == head + inner && |head| < |s|;
    assert s[|head|..] == inner;
    assert forall k :: 0 <= k < |head| ==> s[k] == head[k];
  }

  lemma LeafComplete(t: Tree, rest: seq<nat>)
    requires (t.TDot? || t.TLineStart? || t.TLineEnd? || t.TChar?) && WellFormed(t) && Extends(t, rest)
    ensures !AtEnd(Text(t) + rest) && AtomAt(Text(t) + rest) == Some((t, rest))
  {
    hide OpensCount, GroupAt, ClassAt;
    var s := Text(t) + rest;
    assert s[1..] == rest && s[0] == Text(t)[0];
  }

  lemma BoundaryComplete(t: Tree, rest: seq<nat>)
    requires t.TWordBoundary?
    ensures !AtEnd(Text(t) + rest) && AtomAt(Text(t) + rest) == Some((t, rest))
  {
    hide OpensCount, GroupAt, ClassAt;
    var s := Text(t) + rest;
    assert s[0] == '\\' as int && s[1] == (if t.inverted then 'B' else 'b') as int && s[2..] == rest;
  }

  lemma AtomComplete(t: Tree, rest: seq<nat>)
    requires IsTerm(t) && !t.TRepeat? && WellFormed(t) && Extends(t, rest)
    ensures !AtEnd(Text(t) + rest) && AtomAt(Text(t) + rest) == Some((t, rest))
    decreases t, 1
  {
    hide OpensCount, GroupAt, ClassAt, Text, Extends;
    if t.TGroup? || t.TLook? {
      GroupComplete(t, rest);
    } else if t.TClass? {
      ClassComplete(t, rest);
    } else if t.TWordBoundary? {
      BoundaryComplete(t, rest);
    } else {
      LeafComplete(t, rest);
    }
  }

  lemma TermComplete(t: Tree, rest: seq<nat>)
    requires IsTerm(t) && WellFormed(t) && Extends(t, rest) && (IsAtom(t) ==> CountAt(rest).NoCount?)
    ensures !AtEnd(Text(t) + rest) && TermAt(Text(t) + rest) == Some((t, rest))
    decreases t, 2
  {
    hide Chars, CountText, CountAt, AtomAt;
    if t.TRepeat? {
      var mid := LazyText(t.greedy) + rest;
      Assoc(CountText(t.count), LazyText(t.greedy), rest);
      Assoc(Text(t.atom), CountText(t.count) + LazyText(t.greedy), rest);
      AtomComplete(t.atom, CountText(t.count) + mid);
      CountComplete(t.count, mid);
      if t.greedy { assert mid == rest; } else { PutBack('?', rest); }
    } else {
      AtomComplete(t, rest);
    }
  }

  lemma {:induction false} AlternativeComplete(t: Tree, rest: seq<nat>)
    requires IsAlternative(t) && WellFormed(t) && Extends(t, rest)
    ensures AlternativeFrom(TEmpty, Text(t) + rest) == AlternativeFrom(t, rest)
    decreases t, 2
  {
    if t.TThen? {
      Assoc(Text(t.front), Text(t.last), rest);
      AlternativeComplete(t.front, Text(t.last) + rest);
      TermComplete(t.last, rest);
    } else {
      assert Text(t) + rest == rest;
    }
  }

  lemma {:induction false} DisjunctionComplete(t: Tree, rest: seq<nat>)
    requires IsDisjunction(t) && WellFormed(t) && Extends(t, rest) && AtEnd(rest)
    ensures DisjunctionAt(Text(t) + rest) == DisjunctionFrom(t, rest)
    decreases t, 3
  {
    if t.TOr? {
      var next := Chars("|") + Text(t.last) + rest;
      Assoc(Chars("|"), Text(t.last), rest);
      Assoc(Text(t.front), Chars("|") + Text(t.last), rest);
      PutBack('|', Text(t.last) + rest);
      DisjunctionComplete(t.front, next);
      AlternativeComplete(t.last, rest);
    } else {
      AlternativeComplete(t, rest);
    }
  }

  // ---------------------------------------------------------------- the grammar is unambiguous

  /** A tree is found exactly when it is grammatical and has this text. */
  lemma PatternIsRead(s: seq<nat>, t: Tree)
    ensures Read(s) == Some(t) <==> Grammatical(t) && Text(t) == s
  {
    if Read(s) == Some(t) {
      DisjunctionSound(s);
    }
    if Grammatical(t) && Text(t) == s {
      DisjunctionComplete(t, []);
      assert Text(t) + [] == s;
    }
  }

  lemma SameTextSameTree(t: Tree, u: Tree)
    requires Grammatical(t) && Grammatical(u) && Text(t) == Text(u)
    ensures t == u
  {
    PatternIsRead(Text(t), t);
    PatternIsRead(Text(t), u);
  }

  // ------------------------------------------- bounds that no '}' follows

  /** The order of two bounds is looked at before the '}' is. */
  lemma OpenBounds(n: seq<nat>, m: seq<nat>, rest: seq<nat>)
    requires Digits(n) && Digits(m) && (rest == [] || !IsDigit(rest[0])) && !StartsWith(rest, '}')
    ensures BracesAt(n + (Chars(",") + (m + rest))) == if Value(m) < Value(n) then BadCount else NoCount
  {
    hide Value, Run;
    var tail := Chars(",") + (m + rest);
    RunIs(n, tail);
    RunIs(m, rest);
    PutBack(',', m + rest);
    assert (n + tail)[|n| + 1..] == tail[1..];
  }

  lemma OneDigit(d: nat)
    requires IsDigit(d)
    ensures Digits([d]) && Value([d]) == d - '0' as int
  {
    assert [d][..0] == [];
    assert Value([]) == 0;
  }

  /** After an atom, "{x,y" without a '}'. */
  lemma OpenPair(x: nat, y: nat)
    requires IsDigit(x) && IsDigit(y)
    ensures CountAt(['{' as int, x, ',' as int, y]) == if y < x then BadCount else NoCount
    ensures !OpensCount([x, ',' as int, y])
  {
    hide Value, BracesAt;
    OneDigit(x);
    OneDigit(y);
    OpenBounds([x], [y], []);
    var s := ['{' as int, x, ',' as int, y];
    assert s[1..] == [x] + (Chars(",") + ([y] + []));
    var t := s[1..];
    assert t[1..][1..] == [y] && [y][1..] == [] && t[Run(t)..] == t[1..];
  }

  function ReadChars(s: seq<nat>): (t: Tree) {
    if s == [] then TEmpty else TThen(ReadChars(s[..|s| - 1]), TChar(s[|s| - 1]))
  }

  /** "a{3,2" is rejected for the order of its bounds; "a{2,3" is five characters. */
  lemma UnclosedBounds()
    ensures Read(Chars("a{3,2")) == None
    ensures Read(Chars("a{2,3")) == Some(ReadChars(Chars("a{2,3")))
  {
    UnclosedRejected();
    UnclosedRead();
  }

  lemma UnclosedRejected()
    ensures Read(Chars("a{3,2")) == None
  {
    hide CountAt, OpensCount;
    var s := Chars("a{3,2");
    assert s[1..] == ['{' as int, '3' as int, ',' as int, '2' as int];
    OpenPair('3' as int, '2' as int);
    assert AtomAt(s) == Some((TChar('a' as int), s[1..]));
    assert TermAt(s) == None;
  }

  lemma UnclosedRead()
    ensures Read(Chars("a{2,3")) == Some(ReadChars(Chars("a{2,3")))
  {
    var s := Chars("a{2,3");
    CharsExtend(s, []);
    PatternIsRead(s, ReadChars(s));
  }

  /** Characters that are read as themselves. */
  lemma {:induction false} CharsExtend(s: seq<nat>, rest: seq<nat>)
    requires s + rest == Chars("a{2,3")
    ensures IsAlternative(ReadChars(s)) && WellFormed(ReadChars(s)) && Extends(ReadChars(s), rest) && Text(ReadChars(s)) == s
    decreases |s|
  {
    hide CountAt, OpensCount, Chars;
    if s != [] {
      var a, c := s[..|s| - 1], s[|s| - 1];
      assert a + ([c] + rest) == s + rest;
      CharsExtend(a, [c] + rest);
      FiveChars(s, rest);
    }
  }

  lemma FiveChars(s: seq<nat>, rest: seq<nat>)
    requires s != [] && s + rest == Chars("a{2,3")
    ensures var c := s[|s| - 1]; !Special(c) && c <= 0xffff && CountAt(rest).NoCount? && (c == '{' as int ==> !OpensCount(rest))
  {
    hide CountAt, OpensCount;
    var all := Chars("a{2,3");
    OpenPair('2' as int, '3' as int);
    assert s[|s| - 1] == all[|s| - 1] && rest == all[|s|..];
    if |s| == 1 {
      assert rest == ['{' as int, '2' as int, ',' as int, '3' as int];
    } else if |s| == 2 {
      assert rest == ['2' as int, ',' as int, '3' as int];
      NoCountHere(rest);
    } else {
      NoCountHere(rest);
    }
  }

  lemma NoCountHere(s: seq<nat>)
    requires s == [] || IsDigit(s[0]) || s[0] == ',' as int
    ensures CountAt(s).NoCount?
  {
  }
}
