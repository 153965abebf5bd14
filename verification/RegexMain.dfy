/**
 The test program at the end of libregexp.c: a pattern is compiled and run on an input.
 */
module RegexMain {
  import opened Wrappers
  import opened RegexSyntax
  import opened RegexBytecode
  import opened RegexGrammar
  import opened RegexReader
  import opened RegexSearch
  import opened RegexProgram
  import opened RegexAgrees
  import opened RegexParse
  import RegexWays
  import opened RegexTexts
  import RegexExec

  /** Jumps in the program fit their operands, and running it on the input ends. */
  ghost predicate Manageable(t: Tree, input: seq<nat>)
    requires WellFormed(t)
  {
    Short(t, 0) && !FindMatch(Subject(input, false), Meaning(t, false), false, 0).Circles?
  }

  /**
   What compiling and running find, by the text of the pattern and the bits of the flags: 4 makes the subject
   one of several lines, 8 lets '.' take their ends, and 32 pins the match to the start index.
   */
  lemma FirstMatchOfText(pattern: seq<nat>, t: Tree, flags: byte, code: seq<byte>, input: seq<nat>, i: nat)
    requires Spells(t, pattern) && RegexBytecode.RE_HEADER_LEN < |code| && code[0] == flags && i <= |input|
    ensures Readable(pattern)
    ensures var s := Subject(input, flags as int / 4 % 2 == 1);
      Leftmost(Matches(s, pattern, flags as int / 8 % 2 == 1, false), i, flags as int / 32 % 2 == 1,
               FirstMatch(RegexExec.SubjectOf(code, input), Meaning(t, IsSet(flags, LRE_FLAG_DOTALL)), IsSet(flags, LRE_FLAG_STICKY), i))
  {
    hide Ends, Extends, Text, FirstMatch, RegexWays.All;
    PatternIsRead(pattern, t);
    var s, r := Subject(input, flags as int / 4 % 2 == 1), Meaning(t, IsSet(flags, LRE_FLAG_DOTALL));
    FirstIsLeftmost(s, r, IsSet(flags, LRE_FLAG_STICKY), i);
  }

  lemma HeaderFits(code: seq<byte>, r: Regex, sticky: bool)
    requires Parsed(r) && RegexExec.Compiled(code, r, sticky)
    ensures RE_HEADER_LEN < |code|
  {
    hide Body;
  }

  lemma {:induction false} FirstIsLeftmost(s: Subject, r: Regex, sticky: bool, i: nat)
    requires i <= |s.chars|
    ensures Leftmost(RegexWays.All(s, r, false), i, sticky, FirstMatch(s, r, sticky, i))
    decreases |s.chars| - i
  {
    hide Ends;
    if !sticky && i < |s.chars| { FirstIsLeftmost(s, r, sticky, i + 1); }
  }

  /** Whether there is a match, and where. */
  predicate Delimits(ret: bool, capture: seq<Option<nat>>, f: Option<(nat, nat)>) {
    ret == f.Some? && (ret ==> capture == [Some(f.value.0), Some(f.value.1)])
  }

  /**
   `compiled` says whether the pattern was accepted, and then `ret` whether it occurs in the input;
   `capture` delimits the preferred occurrence, which is that of section 21.2.2 of ECMA-262 where
   RegexAgrees.StandardLoops holds.
   */
  method MatchPattern(pattern: seq<nat>, input: seq<nat>) returns (compiled: bool, ret: bool, capture: array<Option<nat>>)
    requires forall k :: 0 <= k < |input| ==> input[k] < 256
    requires forall t | Spells(t, pattern) :: Manageable(t, input)
    ensures compiled <==> exists t :: Spells(t, pattern) && Shallow(t, 0)
    ensures compiled ==> forall t | Spells(t, pattern) ::
      Delimits(ret, capture[..], FirstMatch(Subject(input, false), Meaning(t, false), false, 0))
    ensures compiled ==> Readable(pattern) && exists f ::
      Delimits(ret, capture[..], f) && Leftmost(Matches(Subject(input, false), pattern, false, false), 0, false, f)
    ensures compiled ==> forall t | Spells(t, pattern) && StandardLoops(Meaning(t, false)) ::
      Delimits(ret, capture[..], StdFirstMatch(Subject(input, false), Meaning(t, false), false, 0))
  {
    hide WellFormed, Extends, Text, Meaning, StdFirstMatch, FirstMatch, FindMatch, RegexExec.Compiled, Body, StandardLoops;
    capture := new Option<nat>[2](_ => None);
    ret := false;
    var bc := LreCompile(pattern, 0);
    compiled := bc.Some?;
    if !compiled { return; }
    ghost var t :| Spells(t, pattern) && Shallow(t, 0);
    ghost var r, subject := Meaning(t, false), Subject(input, false);
    assert TreeCompiled(bc.value, t, 0);
    ret := RegexExec.LreExec(capture, bc.value, input, 0, r, false);
    HeaderFits(bc.value, r, false);
    FirstMatchOfText(pattern, t, 0, bc.value, input, 0);
    if StandardLoops(r) { FirstMatchAgrees(subject, r, false, 0); }
    forall u | Spells(u, pattern) ensures u == t {
      SameTextSameTree(t, u);
    }
  }
}
