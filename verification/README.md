# QuickJS support libraries

A model of the algorithmic core of QuickJS, with proofs that it does what it is for:

- **libregexp.c** — the regular-expression compiler (text to byte code) and the backtracking interpreter.
  `RegexGrammar` and `RegexReader` say which patterns there are and how each is read, `RegexSyntax` what they
  match, `RegexBytecode` what is emitted for them and `RegexVm` how an instruction runs. `RegexParse` and
  `RegexEmit` are the compiler, `RegexExec` is the interpreter. `RegexTexts` says
  what the text of a pattern matches, by its characters alone. `RegexStandard`, `RegexCounted`, `RegexAgrees` and
  `RegexBounds` compare all this with ECMA-262, and the other `Regex*` modules hold the proofs in between.
- **libunicode.c** — character ranges as sorted boundary lists (`CharRanges`), canonical ordering and composition,
  with the tables as parameters (`UnicodeOrder`).
- **libbf.c** — multiple-precision arithmetic on 32-bit limbs in arrays: the basic operations (`MpBase`, `Udiv`),
  division by schoolbook and by a Newton reciprocal (`MpDivBase`, `MpDiv`), the recursive square root (`Sqrt`), the
  product by number-theoretic transforms (`NttArith` to `FftMul`), and on top of these the rounding of
  floating-point numbers, the correctly rounded sum, quotient and square root, and bitwise operations on integers
  (`Rounding`, `Bf*`); `BfExponents` fixes their range by the number of exponent bits. `FastDiv`, `DecLimbs` and `DecDiv` are the division shortcuts and the long division in base
  10^9, `BaseConversion` and `RadixQuotient` the divide-and-conquer conversions between a number and its digits.
- **cutils.c** — `rqsort`, an in-place quicksort with explicit stack, heapsort fallback and insertion sort
  (`RQSort`), and the UTF-8 functions (`Utf8`).
- **qjscalc.js** — modular inverse and power, primality and factorization (`Primality`), with the number theory
  that they rest on (`NumberTheory`, `SmallPrimes`), and division and inverses of polynomials (`Polynomials`).

Code that overwrites buffers is modelled by methods on arrays or by classes with fields; a value of limbs is
`Limbs.V`, the number that a stretch of an array denotes. Integers are unbounded, and wrap-around is written out
where the source relies on it. The engine's error strings, allocation and its failure, and the opaque pointer for
callbacks are not part of the model.

`dafny verify dfyconfig.toml` checks everything.

## Findings

What the proofs showed about the code, with the input and the exact extent of each.

| finding | where | shown by |
|---|---|---|
| An optional iteration that matches nothing ends a greedy loop without upper bound, where section 21.2.2.5.1 of ECMA-262 makes it fail: `(?:\|a)*` matches the empty string at the start of "a", the standard says "a". The star over a body differs on a subject exactly if the body offers, after an empty match, an end from which more can be reached than from the earlier offers. | libregexp.c:1628-1636 | `RegexEmpty.EmptyIterationDiffers`, `RegexStandard.GreedyLoopAgrees` |
| Loops with an upper bound have no check for empty iterations: `(?:\|a)?` matches the empty string at the start of "a", the standard says "a". The greedy `?` over a body differs on a subject exactly if the body offers, after an empty match, an end that it did not offer before; and exactly then one of the loops `{0,1}` to `{0,n}` differs, for any n of at least 1. | libregexp.c:1614-1618, 1640-1649 | `RegexBounds.OptionalDiffers`, `RegexCounted.OptionalLoopAgrees`, `RegexCounted.CountedLoopsAgree` |
| The conditions for the star and for `?` are different: on "aa" the star over `a\|\|aa` agrees with the standard, the `?` over it does not. | libregexp.c:1628-1649 | `RegexBounds.BoundMatters` |
| A reluctant count differs too: `(?:\|ab\|a){0,2}?b` matches "ab" at the start of "abab", the standard says "abab". The loops `{0,1}?` to `{0,n}?` over a body agree with the standard exactly if, at each bound, what going on from the empty match adds comes in the standard's order anyway. The reluctant `??` always agrees, and so does a reluctant loop without upper bound, as far as its runs end. | libregexp.c:1640-1649 | `RegexBounds.ReluctantCountDiffers`, `RegexCounted.ReluctantLoopsAgree`, `RegexCounted.ReluctantOptionalAgrees`, `RegexCounted.ReluctantAgrees` |
| A reluctant loop without upper bound has no check for an iteration that matches nothing: `(?:\|a)*?b` on "ab" never ends, the standard finds "ab". A run ends exactly if the search does not go round in a circle; a loop over a body can go round on a subject exactly if the body can match nothing somewhere in it. | libregexp.c:1596-1598 | `RegexEmpty.NeverEnds`, `RegexProgram.ProgramEnds`, `RegexSearch.CanCircle` |
| `a{3,2` is rejected for the order of its bounds although no '}' follows, while `a{2,3` is read as characters. | libregexp.c:1534-1553 | `RegexReader.UnclosedBounds`, `RegexReader.OpenBounds` |
| For characters up to 0xffff, which is all that a class takes without `LRE_FLAG_UTF16`, the limit of 65535 intervals for a class is never reached. | libregexp.c:827-829 | `RegexGrammar.ClassPoints` |
| `init_mul_mod_fast` gives 0 for the modulus 2^29, the smallest it could be asked for; every larger one gets the quotient. | libbf.c:7418-7425 | `NttArith.InitMulModFast` |
| `fft_mul` needs three limbs in all: the size search picks a transform of length one exactly for products of at most two limbs. Its caller never asks for those. | libbf.c:8308-8355 | `FftMul.BfGetFftSize`, `FftMul.MpMul` |
| `invmod` rejects every negative number, also an invertible one. | qjscalc.js:217-236 | `Primality.InvMod` |
| `miller_rabin_test` calls a prime composite exactly if the prime is itself one of the bases used. `isPrime` is not affected: it looks the number up first. | qjscalc.js:127-152 | `Primality.PrimePasses`, `Primality.AcceptedPrimes` |
| The inverse modulo a polynomial is not divided by the last remainder: for X + 1 modulo X^2 + 1 the result is twice an inverse. Modulo a polynomial of degree at least 1 it is an inverse exactly if the last remainder of the division algorithm is 1; modulo a constant other than 0 everything is an inverse. | qjscalc.js:1316-1335 | `Polynomials.InvModDiffers`, `Polynomials.InverseExactly` |
| `bf_logic_op` fails exactly if the result is -2^(2^28), which has one bit more than its operands: the last addition of -1 overflows, and any flag is taken for a memory error. | libbf.c:2391-2394 | `BfLogic.BfLogicOp`, `BfLogic.LogicCanFail` |
| `compose_pair` takes U+11A7 for a trailing consonant: composing it with a syllable without one drops it. Every other pair that composes by arithmetic comes apart again. | libunicode.c:844-847 | `UnicodeOrder.HangulExactly` |

## Model

| member | source | states |
|---|---|---|
| RegexGrammar.ClassMatches | libregexp.c:859-947 | the boundary list that a class compiles to matches exactly the characters and ranges written in it, or exactly the others for an inverted class |
| RegexReader.PatternIsRead | libregexp.c:1215-1770 | reading a pattern from left to right finds a tree if and only if it is a grammatical tree with this text: nothing grammatical is rejected, nothing else is accepted |
| RegexReader.SameTextSameTree | libregexp.c:1215-1770 | the grammar is unambiguous: two grammatical trees with the same text are the same tree |
| RegexReader.OpenBounds | libregexp.c:1534-1553 | two bounds without a '}' behind them: an error if they are in the wrong order, and characters otherwise |
| RegexReader.UnclosedBounds | libregexp.c:1534-1553 | reading `a{3,2` and `a{2,3` |
| RegexParse.ReParseState.ParseQuantifier | libregexp.c:1502-1561 | which quantifier stands at a place, its bounds (saturated at INT32_MAX) and whether it is reluctant; a '{' that starts no count is none, bounds in the wrong order are an error |
| RegexParse.ReParseState.ReParseCharClass | libregexp.c:859-947 | succeeds exactly for the classes of the grammar, and its list is the boundary list of the class |
| RegexParse.ReParseState.ReParseTerm | libregexp.c:1215-1701 | succeeds exactly where a term of the grammar stands, stops behind it, and appends the code of its meaning |
| RegexParse.ReParseState.ReParseAlternative | libregexp.c:1704-1736 | the same for a sequence of terms, whose code stands in reverse order for a backward matcher |
| RegexParse.ReParseState.ReParseDisjunction | libregexp.c:1738-1770 | the same for alternatives, whose splits and jumps are inserted and patched afterwards |
| RegexEmit.CodeBuffer.EmitQuantifier | libregexp.c:1562-1695 | the in-place insertions and copies turn the code of an atom into the code of the quantified atom |
| RegexAdvance.AdvanceMoves | libregexp.c:950-1031 | if the scan says that code always advances then the expression moves (RegexSyntax.MovesSound: no match of it is empty), so leaving out the check of its loops is sound |
| RegexAdvance.AdvanceFound | libregexp.c:950-1031 | the scan does say so of every sequence whose first term but for assertions is a character |
| RegexDepth.ProgramPeak | libregexp.c:1773-1815 | the linear pass over a program fails exactly if loops with an entry on the evaluation stack are nested more than 255 deep, never on a malformed instruction, and otherwise returns that depth |
| RegexParse.LreCompile | libregexp.c:1821-1914 | succeeds if and only if the pattern is grammatical and not nested too deep; the result is then the program of what the pattern means, with flags, stack size and length in its header |
| RegexTexts.StarText | libregexp.c:1506-1510 | the text `p*` matches `p` again and again until an iteration matches nothing, and last of all nothing; `p*?` tries to stop first |
| RegexTexts.PlusText | libregexp.c:1511-1515 | `p+` matches what `p` and then `p*` match |
| RegexTexts.OptText | libregexp.c:1516-1520 | `p?` matches what `p` matches, and then nothing; `p??` the other way round |
| RegexTexts.ExactText | libregexp.c:1521-1561 | `p{n}` with n in decimal matches n times what `p` matches |
| RegexTexts.AtLeastText | libregexp.c:1521-1561 | `p{n,}` matches n times what `p` matches and then what `p*` matches |
| RegexTexts.BetweenText | libregexp.c:1521-1561 | `p{n,m}` matches n times what `p` matches and then at most m - n times, as often or as seldom as possible first |
| RegexTexts.GroupText | libregexp.c:1273-1282 | a pattern in `(?:` and `)` matches the same and can be quantified |
| RegexTexts.OrText | libregexp.c:1738-1770 | alternatives match what the first matches, and then what the second matches |
| RegexTexts.EmptyText | libregexp.c:1704-1736 | the empty pattern matches nothing, at every place |
| RegexTexts.SequenceText | libregexp.c:1704-1736 | a sequence goes on with the second part from each end of the first; backward it is the other way round |
| RegexTexts.LookaroundText | libregexp.c:1283-1313 | the four lookarounds match nothing, where a match of their body begins or ends there, or does not |
| RegexTexts.CharText | libregexp.c:1479-1499 | every character but the eleven with a meaning matches itself |
| RegexTexts.DotText | libregexp.c:1235-1244 | '.' matches any character, but no end of a line unless the flag says so |
| RegexTexts.RangeText | libregexp.c:859-947 | a class of a range and a character, and its complement |
| RegexTexts.LineStartText | libregexp.c:1227-1230 | '^' holds at the start, and with the flag behind the end of a line |
| RegexTexts.LineEndText | libregexp.c:1231-1234 | '$' holds at the end, and with the flag before the end of a line |
| RegexTexts.BoundaryText | libregexp.c:1357-1364 | `\b` and `\B` tell whether one of the two neighbours is a letter, a digit or '_' |
| RegexTexts.NothingBefore | libregexp.c:1267-1270 | a pattern that starts with '*', '+', '?' or ')' is rejected, whatever follows |
| RegexTexts.BoundsInOrder | libregexp.c:1521-1561 | a character with bounds in the wrong order behind it is rejected, whatever follows |
| RegexTexts.RangesInOrder | libregexp.c:859-947 | a class that starts with a range in the wrong order is rejected, whatever follows |
| RegexTexts.PlusInB | libregexp.c:1511-1515 | `a+` does not match in "b" |
| RegexTexts.StarInB | libregexp.c:1506-1510 | `a*` matches the empty string at the start of "b" |
| RegexMain.FirstMatchOfText | libregexp.c:2499-2535 | what compiling and running find is the leftmost match of the text of the pattern, for the bits 4, 8 and 32 of the flags |
| RegexTotal.FindRuns | libregexp.c:2089-2494 | the main result about the emitted code: for every accepted expression, direction, start and continuation, running the code comes to what the search finds; if the search goes round in a circle the run is not over after any number of steps |
| RegexSearch.FindAgrees | libregexp.c:2089-2494 | a search that does not go round finds the first of the ends of the expression, in priority order, that the continuation accepts |
| RegexSearch.CanCircle | libregexp.c:1596-1639 | a reluctant loop without upper bound can go round on a subject, for some start and continuation, if and only if its body can match nothing somewhere in it |
| RegexProgram.ProgramFindsFirstMatch | libregexp.c:2089-2494 | for every accepted pattern, a whole program returns the leftmost match with the end of highest priority, or no match; it does not return exactly when the search goes round |
| RegexProgram.StarProgram | libregexp.c:1821-1914 | the bytes of the program for `a*` |
| RegexProgram.OutcomeIsUnique | libregexp.c:2089-2494 | a run has at most one outcome, so what is proved about one run holds of all |
| RegexProgram.ProgramEnds | libregexp.c:2089-2494 | a run of a compiled program ends if and only if the search does not go round |
| RegexStandard.GreedyLoopAgrees | libregexp.c:1628-1639 | a star agrees with ECMA-262 on a subject, for all continuations and starts, if and only if from what its body offers after an empty match nothing new can be reached |
| RegexCounted.OptionalLoopAgrees | libregexp.c:1614-1627 | a greedy `?` agrees, for all continuations and starts, if and only if its body offers nothing new after an empty match |
| RegexCounted.CountedLoopAgrees | libregexp.c:1640-1649 | where greedy loops of at most n - 1 iterations agree, those of at most n agree if and only if nothing new is reached within n - 1 iterations from an offer after an empty match |
| RegexCounted.CountedLoopsAgree | libregexp.c:1640-1649 | the greedy loops up to any bound all agree if and only if the `?` does |
| RegexCounted.ReluctantLoopsAgree | libregexp.c:1640-1649 | the reluctant loops up to a bound all agree if and only if, at every bound below, what going on from an empty match adds comes in the order of the standard |
| RegexCounted.ReluctantAgrees | libregexp.c:1596-1613 | a reluctant loop without upper bound finds what the standard finds, for every continuation |
| RegexAgrees.ProgramIsStandard | libregexp.c:2089-2494 | for every pattern whose greedy optional iterations, and reluctant ones of a count above one, have bodies that move or settle (a condition on the syntax), a run that ends finds the match that ECMA-262 prefers; it never ends where the search goes round |
| RegexBounds.OptionalDiffers | libregexp.c:1614-1627 | a `?` over "nothing or a" on the subject "a": the program finds the empty match, the standard "a" |
| RegexBounds.ReluctantCountDiffers | libregexp.c:1640-1649 | a reluctant count of at most two on the subject "abab": the program finds "ab", the standard all of it |
| RegexBounds.BoundMatters | libregexp.c:1628-1649 | a body over which the star agrees with the standard and the `?` does not |
| RegexEmpty.EagerIsStandard | libregexp.c:1628-1639 | the condition of ProgramIsStandard covers a starred optional letter, whose body can match nothing |
| RegexEmpty.EmptyIterationDiffers | libregexp.c:1628-1639 | a star over "nothing or a" on the subject "a": the program finds the empty match, the standard "a" |
| RegexEmpty.NeverEnds | libregexp.c:1596-1639 | a reluctant star over "nothing or a", then b, on the subject "ab": the program is not over after any number of steps, the standard finds "ab" |
| RegexStack.FragmentFlow | libregexp.c:1773-1815 | every jump of emitted code leads to an instruction boundary, at the depth that the linear pass has there |
| RegexSafety.RunsAreSafe | libregexp.c:1773-1815 | over whole runs of every compiled pattern on every subject, no configuration is stuck, each is at an instruction boundary, and no evaluation stack, saved ones included, is deeper than the size in the header |
| RegexExec.ReExecContext.LreExecBacktrack | libregexp.c:2089-2494 | the interpreter loop, with its arrays and saved states overwritten in place, ends with the outcome of the run |
| RegexExec.LreExec | libregexp.c:2499-2535 | returns whether there is a match at or after the start index, and its bounds, for a subject with the multi-line flag of the header |
| RegexMain.MatchPattern | libregexp.c:2570-2611 | compiling a pattern and running it finds the leftmost match of the text of the pattern, and the one that ECMA-262 prefers where the two agree |
| CharRanges.CharRange.Compress | libunicode.c:326-353 | the in-place compression keeps the members and leaves a strictly ascending list |
| CharRanges.CharRange.Op | libunicode.c:355-405 | the merge of two boundary lists has the members of the union, intersection or symmetric difference, as a strictly ascending list |
| CharRanges.CharRange.UnionInterval | libunicode.h:91-97 | adds the members of an interval and no others |
| CharRanges.CharRange.Invert | libunicode.c:419-431 | the complement below UINT32_MAX, in place |
| CharRanges.CanonicalIsUnique | libunicode.c:326-353 | two compressed lists with the same members are equal |
| RQSort.Rqsort | cutils.c:512-629 | for every total preorder the array is sorted and a permutation of what it was; the explicit stack of 50 segments never overflows |
| RQSort.HeapSortX | cutils.c:470-502 | a segment is sorted and permuted, and nothing outside it changes |
| RQSort.Med3 | cutils.c:504-510 | one of three positions, whose element is between the other two |
| MpBase.MpAdd | libbf.c:1024-1040 | the sum of two numbers and a carry, also in place, with the carry out |
| MpBase.MpSub | libbf.c:1058-1074 | the difference with borrow in and out |
| MpBase.MpMulBasecase | libbf.c:1161-1172 | the exact product |
| Udiv.Udiv1norm | libbf.c:1224-1242 | the exact quotient and remainder of two limbs by one, from a precomputed inverse |
| Udiv.MpDiv1norm | libbf.c:1245-1265 | the exact quotient and remainder of a number by a normalized limb, in place |
| MpDiv.MpDivnorm | libbf.c:1275-1344 | the exact quotient of two numbers, the remainder left in the dividend, whichever algorithm it takes |
| MpDiv.MpRecip | libbf.c:1351-1412 | the Newton iteration leaves the reciprocal of a normalized number, with its error bound |
| MpDiv.MpDivnormLarge | libbf.c:1433-1522 | multiplication by an approximate inverse and correction give the exact quotient and remainder |
| Sqrt.MpSqrtrem | libbf.c:2050-2068 | the integer square root of a number of 2n limbs, and the remainder in its place |
| Sqrt.MpSqrtremRec | libbf.c:1976-2042 | one level of the recursion of Zimmermann's square root, with its in-place correction |
| Sqrt.MpSqrtrem2 | libbf.c:1944-1970 | the root of two limbs from that of one and a division |
| Sqrt.RootIsFloor | libbf.c:2050-2068 | such a root is the floor of the square root |
| Rounding.RoundIsCorrect | libbf.c:395-446 | what rounding means in each mode: a neighbour of the number, on the right side for a directed mode, the nearest one with the right ties for the others |
| Rounding.StickyRound | libbf.c:1652-1722 | an integer quotient with a sticky bit rounds as the exact quotient does |
| Rounding.StickyRoot | libbf.c:2126-2188 | an integer root with a sticky bit rounds as the exact root does, and is exact exactly if the radicand is a square |
| BfFloat.Bf.BfGetRndAdd | libbf.c:395-446 | reading two bits and scanning the rest decides correctly whether rounding adds one and whether it is exact |
| BfFloat.Bf.BfRound | libbf.c:484-589 | the mantissa and exponent after rounding, normalization, subnormals, underflow and overflow, and the status flags |
| BfFloat.Bf.BfNormalizeAndRound | libbf.c:592-625 | the same for a mantissa with leading zeros |
| BfAddition.CountCancelledBits | libbf.c:816-866 | a bound on the leading bits that a subtraction cancels |
| BfAddition.BfAddInternal | libbf.c:868-1010 | the exact sum or difference, correctly rounded, with flags fixed by its exponent; special operands as IEEE 754 has them |
| BfDivide.BfDiv | libbf.c:1652-1722 | the exact quotient, correctly rounded, with flags fixed by its exponent; special operands likewise |
| BfSquareRoot.BfSqrt | libbf.c:2126-2188 | the exact square root, correctly rounded, with flags fixed by its exponent; special operands likewise |
| BfRange.OutcomeByExponent | libbf.c:484-589 | overflow exactly if the rounded exact value is above the exponent range, zero exactly if it is below and there are no subnormals (or rounding gives zero), and otherwise the correctly rounded value with only the inexact flag |
| BfRange.InRangeIsRounded | libbf.c:484-589 | an exact result whose exponent is in range is correctly rounded, with no flag but inexact |
| BfExponents.ResultInRange | libbf.c:484-589 | for every number E of exponent bits and every precision p, a finite result is at most 2^(2^(E-1)) less a last bit, and at least 2^(2-2^(E-1)), or with subnormal numbers 2^(3-2^(E-1)-p) |
| BfExponents.RootResultInRange | libbf.c:2126-2188 | the same for square roots |
| BfExponents.OverflowExactly | libbf.c:565-569 | where bits are kept, the overflow flag is set exactly if the rounded exact value reaches 2^(2^(E-1)) |
| BfExponents.OverflowSide | libbf.c:449-481 | on overflow the nearest modes, the mode away from zero and the directed mode of this side give infinity, the others the largest number |
| BfExponents.LastBit | libbf.c:489-512 | where the last bit is: p bits below the first, for subnormal numbers at 2^(3-2^(E-1)-p), and with BF_FLAG_RADPNT_PREC at 2^-p |
| BfExponents.Binary64Range | libbf.c:484-589 | binary64: finite results lie between 2^-1022, or 2^-1074, and 2^1024 - 2^971 |
| BfExponents.Binary64Overflow | libbf.c:484-589 | binary64: 2^1023 + 2^1023 is infinity, with overflow and inexact |
| BfRange.RootInRange | libbf.c:2126-2188 | the same for square roots, and when a root can overflow or vanish |
| NttArith.MulModFast | libbf.c:7410-7416 | the product modulo m by a precomputed inverse |
| NttArith.MulModFast2 | libbf.c:7429-7439 | the product by a constant, modulo m |
| NttArith.InitMulModFast | libbf.c:7418-7425 | the inverse that is precomputed, and the modulus for which it is 0 |
| Dft.FastPass | libbf.c:7721-7778 | one radix-2 step: even and odd outputs are the transforms of the sum and of the twisted difference |
| Dft.InverseTransform | libbf.c:7721-7778 | the transform with the inverse root undoes the transform, up to the length |
| Dft.ConvolutionTheorem | libbf.c:7940-7970 | the transform of a cyclic convolution is the product of the transforms |
| NttState.NttModulus.GetTrig | libbf.c:7818-7853 | the cached table of powers of a root of unity |
| NttState.NttModulus.NttFft | libbf.c:7721-7778 | the passes over two buffers compute the transform of the input at every power of the root |
| NttState.NttModulus.NttConv | libbf.c:7940-7970 | two forward transforms, a product and an inverse transform give the cyclic convolution |
| NttState.StaticTables | libbf.c:8246-8303 | the tables of roots and inverse lengths hold roots of unity of the right orders, for each modulus |
| FftLimbs.LimbToNtt | libbf.c:7973-8031 | the digits of a number in base 2^dpl, each modulo m |
| FftDigits.ConvIsProduct | libbf.c:8358-8457 | the cyclic convolution of digits, evaluated at the base, is the product if the transform is long enough |
| FftBack.MixedDigits | libbf.c:8146-8243 | the mixed-radix digits of the number with given remainders (Chinese remainder theorem) |
| FftBack.PutBits | libbf.c:7241-7256 | adds a limb at a bit position to a number that ends below it |
| FftBack.NttToLimb | libbf.c:8146-8243 | remainders of the coefficients modulo several primes are turned into the limbs of the number |
| FftMul.BfGetFftSize | libbf.c:8308-8355 | digits, moduli and length are large enough for every product of the given size, and no other choice costs less by the measure of the source; one is found whenever there is one, so for every size the tables allow; the length is one exactly for at most two limbs |
| FftMul.FftMultiply | libbf.c:8358-8457 | the product by transforms is the exact product |
| FftMul.MpMul | libbf.c:1176-1194 | the product, by schoolbook below 100 limbs and by transforms above, is exact |
| NumberTheory.Fermat | qjscalc.js:127-152 | Fermat's little theorem |
| NumberTheory.SquareRootsOfOne | qjscalc.js:141-148 | modulo a prime only 1 and -1 square to 1 |
| SmallPrimes.SmallFactor | qjscalc.js:125 | every number from 2 to 499 has a factor in the list |
| Primality.InvMod | qjscalc.js:217-236 | the inverse modulo y, and none exactly for negative numbers and numbers without one |
| Primality.PMod | qjscalc.js:238-257 | the power modulo m, for negative exponents the inverse of the power |
| Primality.TestBase | qjscalc.js:137-150 | one base, for any number n = d * 2^s + 1: it passes exactly if a^d is 1, or a^(d * 2^r) is -1 for an r below s, modulo n |
| Primality.MillerRabinTest | qjscalc.js:127-152 | passes exactly the numbers that pass for each of the first t bases, with n - 1 split into an odd number and a power of two |
| Primality.PrimePasses | qjscalc.js:127-152 | a prime passes exactly if it is not one of the bases |
| Primality.IsPrime | qjscalc.js:261-283 | accepts exactly the numbers that no other listed prime divides, and that, from 499 squared on, pass for the first bases |
| Primality.AcceptedPrimes | qjscalc.js:261-283 | every prime is accepted, and below 499 squared nothing else |
| Primality.NextPrime | qjscalc.js:284-294 | ends at the next number that is accepted, skips no prime, and is exact below 499 squared |
| Primality.Factor | qjscalc.js:295-336 | the product of the factors is the number; the factors ascend, and each is prime but for a last one, which is accepted by isPrime |
| FastDiv.DivdqBase | libbf.c:5437-5449 | the exact quotient and remainder by 10^9 for every high limb below 2^29 |
| FastDiv.FastUdivInit | libbf.c:5464-5483 | the multiplier is the smallest that makes the shortcut exact, and fits in a limb |
| FastDiv.FastUdiv | libbf.c:5485-5491 | the multiplication and the two shifts give the quotient, for every limb and every divisor |
| FastDiv.TableDivides | libbf.c:5520-5532 | the precomputed table holds what the initialization computes for each power of ten |
| DecLimbs.MpSubMul1Dec | libbf.c:5681-5704 | a number in base 10^9 less a multiple of another, with what is still to be subtracted; all limbs stay decimal |
| DecDiv.MpDiv1Dec | libbf.c:5724-5785 | the exact quotient and remainder by a limb, in place, by halving, shifted with an inverse, or directly |
| DecDiv.AddBackDec | libbf.c:5906-5919 | the repair loop takes back one or two divisors and leaves the remainder |
| DecDiv.MpDivDec | libbf.c:5831-5934 | the exact quotient and remainder in base 10^9, after the normalization has been undone |
| DecDiv.MpShrDec | libbf.c:5937-5952 | division by a power of ten with the digits that come in and go out |
| DecDiv.MpShlDec | libbf.c:5955-5970 | multiplication by a power of ten likewise |
| BaseConversion.PartsFit | libbf.c:2693-2703 | at every level both parts are nonempty and within one of the size of the level, and the level is inside the table of powers |
| BaseConversion.BfIntegerFromRadix | libbf.c:2732-2753 | the value of the digits |
| RadixQuotient.EstimateIsClose | libbf.c:3412-3422 | the quotient from the rounded inverse, rounded to the precision that is used and cut off, is at most one off |
| BaseConversion.BfIntegerToRadix | libbf.c:3459-3482 | every digit is below the radix and their value is the number, and no quotient on the way is corrected more than once |
| BaseConversion.DigitsAreUnique | libbf.c:3373-3456 | no other digits have the value, so converting back and forth changes nothing in either order |
| BfLogic.BitwiseBits | libbf.c:2309-2320 | each of the three operations, on every bit of the infinite two's complement |
| BfLogic.BitwiseSums | libbf.c:2309-2320 | `or` and `and` add up to the sum of the operands, and `xor` is their difference |
| BfLogic.BitsDetermine | libbf.c:2309-2320 | an integer is determined by its bits |
| BfLogic.BfLogicOp | libbf.c:2322-2406 | for all signs, and with the shortened length for `and`, the result is the bitwise operation on two's complement; fails exactly if it does not fit |
| BfLogic.LogicCanFail | libbf.c:2391-2394 | operands for which it fails |
| UnicodeOrder.SortCc | libunicode.c:773-805 | starters stay, and each run of other characters is sorted stably by combining class |
| UnicodeOrder.OrderingIsUnique | libunicode.c:773-805 | there is only one such ordering |
| UnicodeOrder.OrderingIsIdempotent | libunicode.c:773-805 | ordering twice is ordering once |
| UnicodeOrder.ComposeBuffer | libunicode.c:898-925 | the loop, which overwrites the buffer it reads, leaves the composed text that UnicodeOrder.ComposeIsStandard describes |
| UnicodeOrder.StarterIsUnblocked | libunicode.c:901-914 | in an ordered text the search finds a starter exactly if nothing blocks it |
| UnicodeOrder.ComposeIsStandard | libunicode.c:898-925 | on text with ascending runs the loop composes as Unicode defines it: each character in turn with the starter from which it is not blocked, if the two compose; the runs stay ascending along the way, since starters compose to starters |
| UnicodeOrder.ComposePairMakes | libunicode.c:837-851 | two characters compose as Unicode has it: Hangul syllables by arithmetic, all others by the table, in this order |
| UnicodeOrder.TwoCharacters | libunicode.c:848-850 | a starter and a character behind it become the entry of the table, and stay if there is none |
| UnicodeOrder.NormalizedText | libunicode.c:888-925 | the text that canonical ordering leaves has ascending runs, so it is composed as Unicode defines it |
| UnicodeOrder.HangulRoundTrip | libunicode.c:807-851 | composing the decomposition of any Hangul syllable gives it back |
| UnicodeOrder.HangulExactly | libunicode.c:837-851 | a pair composed by arithmetic decomposes into itself exactly if the second character is not U+11A7 |
| Utf8.UnicodeToUtf8 | cutils.c:206-239 | writes the sequence of a code point below 2^31 and nothing else |
| Utf8.UnicodeFromUtf8 | cutils.c:251-304 | finds the code point and length of exactly the texts that start with the sequence of one; overlong, cut off and malformed ones are rejected |
| Utf8.Utf8Bytes | cutils.c:206-239 | the bytes of a code point in each of the six ranges |
| Utf8.Utf8Unique | cutils.c:206-239 | no sequence begins another's |
| Polynomials.DivRemIs | qjscalc.js:1279-1305 | quotient and remainder: the dividend is their combination, and the remainder has smaller degree |
| Polynomials.DivRemUnique | qjscalc.js:1279-1305 | there is only one such quotient and remainder |
| Polynomials.PolynomialDivRem | qjscalc.js:1279-1305 | the loop on arrays computes them, and fails exactly for the divisor zero |
| Polynomials.ValuesDetermine | qjscalc.js:1230-1239 | trimmed polynomials with equal values everywhere are equal lists |
| Polynomials.PolynomialInvMod | qjscalc.js:1316-1335 | succeeds exactly if the last remainder is a constant and the modulus is not zero; the result times x is the last remainder modulo y |
| Polynomials.NotInvertible | qjscalc.js:1332-1333 | where the last remainder is no constant there is no inverse |
| Polynomials.InverseExactly | qjscalc.js:1316-1335 | the result is an inverse if and only if the last remainder is 1 or the modulus is a constant |
| Polynomials.InvModDiffers | qjscalc.js:1316-1335 | X + 1 modulo X^2 + 1: the last remainder is 2, and the result no inverse |

## Left out

- Capture groups other than the whole match, back references, named groups and `save_reset`.
- Case folding (`LRE_FLAG_IGNORECASE`) and UTF-16 mode: a subject is a sequence of code units.
- Escapes in patterns other than `\b` and `\B`, also inside classes; a pattern is a sequence of characters, so decoding UTF-8 is left out.
- Loops with required iterations (`{n,m}` with n above 0) have a sufficient condition for agreement with ECMA-262 (`RegexAgrees.ProgramIsStandard`), not an exact one.
- RegexParse.LreCompile: says nothing about the code of patterns whose program has 2^31 bytes or more, in which jumps do not fit their operands.
- The check for C stack overflow in re_parse_disjunction.
- Limbs of 64 bits, and exponents that leave the range of a machine word: limbs have 32 bits and exponents are integers.
- `BF_RNDF` (faithful rounding) and `BF_FLAG_RADPNT_PREC` in the sum, quotient and square root; rounding itself has them.
- FftMul.FftMultiply: returns false for transforms of more than 2^19 points, which the source splits in two dimensions; the AVX2 variants are not modelled.
- The transform buffers of all moduli in one allocation, and resizing the result in place when it is an operand.
- Division and square root call the schoolbook product, whose contract is that of FftMul.MpMul.
- Decimal products, square roots and floating-point numbers (`mp_mul_basecase_dec`, `mp_sqrtrem_dec`, `bfdec_*`), powers and the transcendental functions.
- FastDiv.FastUdivInit: for divisors above 2^31 the source shifts by 32, which C leaves undefined; the model takes 2^32.
- In `BaseConversion` and `RadixQuotient`, numbers of unlimited precision are integers, and the rounded inverse is an integer of units in its last place.
- Decimal strings around the conversions (`bf_ftoa`, `bf_atof`).
- BfLogic.BfLogicOp: operands have an exponent of at most 2^28, the range that the largest exponent size allows.
- Of libunicode.c: the contents of the tables (case, combining classes, decompositions, compositions) and properties; `to_nfd_rec` only for Hangul syllables.
- Polynomials over other fields than the real numbers, and coefficients that are rounded.
- Of qjscalc.js: fractions, complex numbers, series, roots and matrices.
- Primality.IsPrime: for n of at least 499 squared a composite number can pass, with the probability that the source states and the model does not.
- rqsort for elements as byte blocks: elements are values, so the choice of a copy routine is left out.
