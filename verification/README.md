# Verified models of the plugin's hard cores

A Dafny 4.11 project that models the hard parts of this plugin: those of the QuickJS support library it
compiles in, and its own RTDE client and write queue. The models have the form the C and C++ code has
(buffers patched in place, arrays updated in place, explicit stacks), and the proofs are about what that
code is for. `dafny verify dfyconfig.toml` checks everything.

**Regular expressions** (`thirdparty/quickjs/libregexp.c`). The compiler is modelled from a parsed
pattern on: it emits bytes into a growing buffer, inserts prologues in front of code already there,
rotates terms for backward matching and patches jumps. The interpreter is modelled byte by byte with
its capture array, integer stack and state stack. `RegexSemantics` is an independent meaning: the
ordered list of all ways a pattern matches. The main theorems: the compiler leaves exactly the code
of the pattern; running that code ends, and ends with the first match of the meaning or with failure;
every jump lands on an instruction; the stack never outgrows the size in the header; the fast opcode
for simple quantifiers delivers what the general expansion delivers. `RegexLaws` and `RegexCaptures`
tie the meaning of assertions, characters and captures to each other, apart from the notions that the
meaning and the interpreter share.

**Floating point printing and parsing** (`thirdparty/quickjs/dtoa.c`). Limb arithmetic with its
32-bit and 64-bit wrap-around, division by a precomputed reciprocal, rounding shifts, scaling by powers
of the radix with a sticky bit, correct rounding to integers and to the nearest double (subnormals
and overflow included) down to its 64 bits, digit output and digit input.

**Character sets and Unicode tables** (`thirdparty/quickjs/libunicode.c`). Sets as sorted point lists:
the merge loop, the compression in place, inversion, and the union of unsorted intervals. Property tables
decoded from the start and looked up through an index, against an encoder. Canonical ordering and
recomposition, with what the normal forms promise about their text.

**Sorting and codecs** (`thirdparty/quickjs/cutils.h`). `rqsort` with its stack of 50 entries and its
heap-sort fallback, on an array; UTF-8 and UTF-16 with limited buffers and malformed input.

**RTDE client and write queue** (`src/`). Frames reassembled from any chunks, the layout of a recipe over
tags that outlive the session, writes into it, and the two-queue protocol between callers and the worker
as a state machine.

A reader can start with `RegexSemantics`, `RegexCode` and `RegexLibrary`, with `FloatBits` and
`FloatScaling`, or with `WriteQueue`, which stands alone.

## Model

| member | source | states |
|---|---|---|
| `RegexLibrary.Compile` | thirdparty/quickjs/libregexp.c:1799-1890 | accepted are exactly the well-formed patterns with fewer than 255 groups whose stack need and checked sizes, both computed from the tree, stay below the limits; the output is header plus laid-out program, its length known beforehand; each error is reported only for its reason, and out-of-memory exactly when a buffer size that is checked reaches 64 MB |
| `RegexLibrary.Execute` | thirdparty/quickjs/libregexp.c:2497-2534 | on any such output, any input and any start at a character boundary: reports whether the pattern matches and leaves the captures of the first match; it terminates |
| `RegexLibrary.CompileAndExecute` | thirdparty/quickjs/libregexp.c:1799-2534 | the two chained: for every accepted pattern whose size, computed from the tree, fits C ints, matching means what the pattern means; the output fits if and only if that size does |
| `RegexLibrary.FlagBits` | thirdparty/quickjs/libregexp.h:36-44 | the flags read back from any combination of the bits |
| `RegexImages.StarImage` | thirdparty/quickjs/libregexp.c:1526-1560 | the whole output for `a*`, sticky, byte by byte: header, simple quantifier with its four operands, ends of the match |
| `RegexImages.EitherImage` | thirdparty/quickjs/libregexp.c:1799-1890 | the same for `a` or `b`, searched for, with its forward and backward jumps |
| `RegexLibrary.SizeUnchecked` | thirdparty/quickjs/libregexp.c:398-403 | the size check does not bound the program: k nested lazy quantifiers are accepted, every check sees the size before the first byte, and the program has at least 2^k bytes |
| `RegexLibrary.TooLong` | thirdparty/quickjs/libregexp.c:398-403 | 31 levels are accepted and the program is past the range of C ints |
| `RegexSize.LengthIsCodeSize` | thirdparty/quickjs/libregexp.c:1185-1748 | the length of a pattern's code is a number computed from the tree alone, by recursion and without building code |
| `RegexSize.Measured` | thirdparty/quickjs/libregexp.c:942-1036 | so are what the two byte scans find in it and the stack it takes |
| `RegexSize.ProgramMeasured` | thirdparty/quickjs/libregexp.c:1799-1890 | the same for the whole program with its search prefix |
| `RegexCompiler.Compiler.ParseDisjunction` | thirdparty/quickjs/libregexp.c:1715-1748 | the buffer grows by exactly the code of the disjunction and the capture count by its groups, or an error for its reason |
| `RegexCompiler.Compiler.ParseAlternative` | thirdparty/quickjs/libregexp.c:1679-1713 | the same for an alternative, whose terms are put in reverse order going backward |
| `RegexCompiler.Compiler.ParseTerm` | thirdparty/quickjs/libregexp.c:1185-1677 | the same for a term with its quantifier |
| `RegexQuantify.Quantify` | thirdparty/quickjs/libregexp.c:1526-1668 | whatever branch is taken, inserting before, copying and patching around the atom in the buffer leaves the code of the repeat in its place |
| `RegexScan.NeedCheckAdvance` | thirdparty/quickjs/libregexp.c:942-994 | the byte scan computes, instruction by instruction, whether the code may leave the position alone |
| `RegexScan.IsSimpleQuantifier` | thirdparty/quickjs/libregexp.c:998-1036 | the byte scan computes the number of characters the code matches, or -1 |
| `RegexScan.ComputeStackSize` | thirdparty/quickjs/libregexp.c:1751-1793 | the byte scan computes the greatest linear stack height, or -1 above 255, and its assertion of a nonempty stack holds |
| `RegexMatch.MatchCorrect` | thirdparty/quickjs/libregexp.c:2074-2492 | for every pattern, input and start, the step machine reaches the verdict of the reference semantics: compiler correctness and termination |
| `RegexLaws.LineEndLaw` | thirdparty/quickjs/libregexp.c:2229-2237 | `$` holds at the end only, and in multiline mode exactly where `.` going forward fails |
| `RegexLaws.LineStartLaw` | thirdparty/quickjs/libregexp.c:2220-2228 | `^` holds at the start only, and in multiline mode exactly where `.` going back fails |
| `RegexLaws.DotLaw` | thirdparty/quickjs/libregexp.c:2238-2249 | `.` fails on exactly the characters of a class of the four line terminators |
| `RegexLaws.WordBoundaryLaw` | thirdparty/quickjs/libregexp.c:2296-2317 | `\b` holds where exactly one of a lookbehind and a lookahead for `[0-9A-Z_a-z]` does, `\B` elsewhere |
| `RegexLaws.AssertionStepLaw` | thirdparty/quickjs/libregexp.c:2220-2317 | the machine runs on from an assertion exactly where the assertion has an outcome |
| `RegexLaws.PairLaw` | thirdparty/quickjs/libregexp.c:1905-1986 | every code point above 0xFFFF is read from its halves, forward and back, with the Unicode flag, and as two characters without |
| `RegexLaws.CopyLaw` | thirdparty/quickjs/libregexp.c:2318-2345 | a back reference has an outcome exactly where the units of its group stand again and end at a character boundary |
| `RegexLaws.UnsetLaw` | thirdparty/quickjs/libregexp.c:2318-2332 | a reference to a group that holds nothing matches the empty text |
| `RegexLaws.SkippedForgets` | thirdparty/quickjs/libregexp.c:2257-2279 | a part repeated no times matches the empty text and its groups hold nothing afterwards |
| `RegexCaptures.OutcomesWithin` | thirdparty/quickjs/libregexp.c:2250-2279 | whatever a pattern matches, it changes the capture entries of its own groups only |
| `RegexCaptures.GroupSpans` | thirdparty/quickjs/libregexp.c:2250-2256 | every match of a group leaves the ends of its text in the group's two entries, the lower one first in either direction |
| `RegexSplit.CountedLaw` | thirdparty/quickjs/libregexp.c:2445-2487 | a repeat counted by any number below 2^31 - 1 takes exactly so many characters |
| `RegexSplit.StartCondition` | thirdparty/quickjs/libregexp.c:2123-2145 | for every input and every start: all patterns match as they mean if and only if the start is not inside a surrogate pair |
| `RegexSplit.WrongInside` | thirdparty/quickjs/libregexp.c:2497-2534 | from inside a pair the run of u?u{j}, u the low half, reports no match although the pattern matches |
| `RegexCorrect.NodeCorrect` | thirdparty/quickjs/libregexp.c:1185-1748 | wherever the code of a pattern stands, it delivers the pattern's outcomes one by one in order, stack restored, then fails into what was there before |
| `RegexCorrect.FastRefinesSlow` | thirdparty/quickjs/libregexp.c:1540-1666 | a repeat's simple greedy quantifier and its general split-and-loop expansion deliver the same states in the same order |
| `RegexGreedy.SimpleQuantCorrect` | thirdparty/quickjs/libregexp.c:2445-2487 | scanning forward and giving back character by character visits the outcomes of the repeat, longest first, down to the minimum |
| `RegexAnalysis.AdvanceMeaning` | thirdparty/quickjs/libregexp.c:942-994 | an atom the scan calls safe always moves in the direction of travel |
| `RegexAnalysis.SimpleMeaning` | thirdparty/quickjs/libregexp.c:998-1036 | an atom with a character count has at most one outcome, exactly that many characters on, and touches no capture |
| `RegexBackRef.ForwardIsSameText` | thirdparty/quickjs/libregexp.c:2330-2345 | the character-wise comparison of a back reference accepts exactly a second copy of the captured text, surrogate pairs included |
| `RegexBackRef.BackwardIsSameText` | thirdparty/quickjs/libregexp.c:2346-2361 | the same for the backward form |
| `RegexLayout.ProgramTidy` | thirdparty/quickjs/libregexp.c:1732-1745 | in every compiled program each jump lands on an instruction boundary of the same stack height |
| `RegexStack.RunWithinStack` | thirdparty/quickjs/libregexp.c:1751-1793 | at every step of every run the pc is at an instruction boundary, the stack is exactly as high as the linear scan says and so within the header's size, and nothing undefined happens |
| `RegexExec.Exec` | thirdparty/quickjs/libregexp.c:2497-2531 | the imperative interpreter over the capture array and stack buffer returns the verdict of the reference semantics |
| `RegexExec.Matcher.Execute` | thirdparty/quickjs/libregexp.c:2089-2490 | one pass of the opcode switch does what the step function says |
| `RegexExec.Matcher.Unwind` | thirdparty/quickjs/libregexp.c:2098-2160 | the state stack is unwound to the next alternative, the enclosing lookahead or the end |
| `RegexClass.ClassInstrMatches` | thirdparty/quickjs/libregexp.c:784-820 | for every canonical set of fewer than 65535 ranges the instruction emitted accepts exactly the members, with 0xFFFF as infinity in the 16-bit form |
| `RegexClass.RangeSearchFinds` | thirdparty/quickjs/libregexp.c:2362-2438 | the binary search finds a range if there is one and its unsigned index never wraps |
| `Instructions.DecodeEncode` | thirdparty/quickjs/libregexp-opcode.h:27-58 | every instruction reads back from its bytes |
| `MatchInput.Input.PrevNext` | thirdparty/quickjs/libregexp.c:1905-1986 | stepping back undoes stepping forward at every character boundary |
| `Reciprocal.ReciprocalOf` | thirdparty/quickjs/dtoa.c:106-112 | the reciprocal is the largest v with (v + 2^32) * d below 2^64 |
| `Reciprocal.Udiv1Norm` | thirdparty/quickjs/dtoa.c:116-134 | exact 32-bit quotient and remainder for every normalised divisor, whatever wraps on the way |
| `Reciprocal.Div1Norm` | thirdparty/quickjs/dtoa.c:185-198 | in place, an n-limb number with a high limb is divided exactly by the divisor before normalisation |
| `Limbs.Mul1` | thirdparty/quickjs/dtoa.c:91-103 | the limbs and the carry are the product plus the added limb |
| `Limbs.Div1` | thirdparty/quickjs/dtoa.c:136-147 | quotient in place and remainder |
| `Limbs.Shl` | thirdparty/quickjs/dtoa.c:169-183 | multiplication by a power of two with the bits that fall out |
| `Limbs.Shr` | thirdparty/quickjs/dtoa.c:151-165 | division by a power of two with its remainder |
| `Bignums.Bignum.ShrRound` | thirdparty/quickjs/dtoa.c:312-397 | in place, division by 2^shift rounded in any of the three modes, or multiplication when negative |
| `Powers.RoundIsNearest` | thirdparty/quickjs/dtoa.c:293-297 | rounding gives a nearest integer, the even or the upper one of two, or the floor |
| `FloatScaling.PowUi` | thirdparty/quickjs/dtoa.c:241-268 | the power modulo 2^64 for every base and exponent |
| `FloatScaling.MulPow` | thirdparty/quickjs/dtoa.c:892-955 | scaling by a power of the radix: exact, or the truncated quotient with a sticky lowest bit and enough bits for rounding |
| `FloatRounding.StickyRound` | thirdparty/quickjs/dtoa.c:950-952 | two bits below the rounding position, the sticky quotient rounds like the exact one in every mode |
| `FloatScaling.MulPowRound` | thirdparty/quickjs/dtoa.c:958-966 | the real number m * 2^e * radix^f rounded once, for every m > 0, e, f and mode: no integer is nearer, ties as the mode says, or the floor |
| `FloatScaling.RoundToD` | thirdparty/quickjs/dtoa.c:969-999 | the exact quotient rounded to 53 bits, or to the subnormal quantum |
| `FloatScaling.MulPowRoundToD` | thirdparty/quickjs/dtoa.c:1005-1012 | the real number a * radix^f correctly rounded to a mantissa and exponent; in the modes that round to nearest no double is nearer, and a tie goes to the even one |
| `FloatRounding.NearestDouble` | thirdparty/quickjs/dtoa.c:969-1012 | no double is closer than the rounded one, and of two nearest the even is taken |
| `FloatNearest.RoundedIsNearest` | thirdparty/quickjs/dtoa.c:969-1012 | the joined statement, in real numbers: whatever was rounded once to the quantum of its binade is a double (bits below the least subnormal zero) nearest to the exact number, ties to even |
| `FloatBits.ReadBits` | thirdparty/quickjs/dtoa.c:1569-1606 | for all digits, radixes and exponents the 64 bits packed are those of the double nearest to the number, ties to an even fraction, and of infinity from 2^1024 - 2^970 on |
| `FloatBits.PackedValue` | thirdparty/quickjs/dtoa.c:1594-1605 | below overflow the bits are worth, by their exponent field and fraction alone, exactly the mantissa and exponent packed |
| `FloatBits.OverflowWhen` | thirdparty/quickjs/dtoa.c:1597-1600 | the exponent is past 1024 exactly when the number has reached the point halfway past the greatest double |
| `RadixNumbers.RadixPower` | thirdparty/quickjs/dtoa.c:892-955 | the fraction and the power of two that scaling works with are the power of the radix |
| `RadixNumbers.RoundedReal` | thirdparty/quickjs/dtoa.c:312-397 | rounding the scaled fraction is rounding the real number |
| `Digits.OutputDigits` | thirdparty/quickjs/dtoa.c:846-888 | the buffer holds the lowest digits of the number: at the place of radix^k the character of the digit there, from 0-9a-z, with the dot in its place |
| `Digits.DigitAt` | thirdparty/quickjs/dtoa.c:558-587 | the digit of every place |
| `Digits.ToDigitLaw` | thirdparty/quickjs/dtoa.c:1319-1331 | the characters read as a digit are its lower-case and upper-case character and no other |
| `Digits.Accumulate` | thirdparty/quickjs/dtoa.c:1461-1495 | gathering digits in a limb and limbs in a big number gives the number the digits denote |
| `Digits.PrintRead` | thirdparty/quickjs/dtoa.c:846-888 | for every radix 2..36 what is printed is read back as the same number |
| `Bignums.Bignum.Mul1Base` | thirdparty/quickjs/dtoa.c:1332-1350 | times the base plus a limb, base 0 standing for 2^32 |
| `Digits.U32toa` | thirdparty/quickjs/dtoa.c:589-602 | a decimal numeral of the number with no leading zero |
| `Digits.U64toa` | thirdparty/quickjs/dtoa.c:615-644 | the same for every 64-bit number |
| `FloatRounding.BinadeUnique` | thirdparty/quickjs/dtoa.c:969-999 | the binade that rounding is relative to is the only one |
| `CharSets.CharRange.Compress` | thirdparty/quickjs/libunicode.c:426-452 | in place, any sorted even list becomes the strictly increasing list of the same set |
| `CharSets.CharRange.Op` | thirdparty/quickjs/libunicode.c:455-505 | for all sorted even lists, touching and empty intervals included, the canonical list of exactly the union, intersection or symmetric difference; unsorted even lists give an even list within the same range |
| `CharSets.CharRange.Union1` | thirdparty/quickjs/libunicode.c:507-517 | the canonical union with another list |
| `CharSets.CharRange.UnionInterval` | thirdparty/quickjs/libunicode.h:93-99 | below the greatest 32-bit value, the canonical union with the values c1 to c2; with c2 the greatest, c2 is missing from the result |
| `CharSets.CharRange.Invert` | thirdparty/quickjs/libunicode.c:519-531 | the canonical list of exactly the other values below UINT32_MAX |
| `CharSets.CanonicalUnique` | thirdparty/quickjs/libunicode.h:52-58 | a set has one increasing point list |
| `CharSets.InvertTwice` | thirdparty/quickjs/libunicode.c:519-531 | inverting twice gives the same list |
| `CharSets.DeMorgan` | thirdparty/quickjs/libunicode.c:455-531 | the inverted union is, as a list, the intersection of the inverted lists, and the dual |
| `CharSets.XorLaw` | thirdparty/quickjs/libunicode.c:485-497 | symmetric difference and intersection are disjoint and together the union, as lists |
| `CharSets.OpLaw` | thirdparty/quickjs/libunicode.c:485-497 | the three operations on two overlapping intervals |
| `RangeSort.SortAndRemoveOverlap` | thirdparty/quickjs/libunicode.c:1345-1379 | intervals in any order, overlapping or not, become the list of their union, canonical when none is empty |
| `PropertyTable.Prop` | thirdparty/quickjs/libunicode.c:1227-1264 | every whole run-length table is decoded into the canonical list of its set |
| `PropertyTable.IsInTable` | thirdparty/quickjs/libunicode.c:305-338 | for every index that stands on even runs, the lookup says what decoding from the start says, and reads no byte past the table |
| `PropertyTable.IndexPos` | thirdparty/quickjs/libunicode.c:272-303 | the search finds a block that begins at or below the code point, or that it is past the table |
| `PropertyEncoder.DecodeTable` | thirdparty/quickjs/libunicode.c:1227-1264 | for every set of code points without 0, decoding the bytes that a table holds for it gives the set back, interval by interval |
| `PropertyEncoder.FindInTable` | thirdparty/quickjs/libunicode.c:305-338 | the lookup in those bytes says what is in the set, with every index that fits |
| `PropertyEncoder.OneByteRun` | thirdparty/quickjs/libunicode.c:324-326 | bytes 0x80 + (n - 1) are runs of 1 to 128 |
| `PropertyEncoder.TwoByteRun` | thirdparty/quickjs/libunicode.c:327-329 | two bytes, the high one first, are runs up to 8192 |
| `PropertyEncoder.ThreeByteRun` | thirdparty/quickjs/libunicode.c:330-332 | three bytes are runs up to 2^21 |
| `PropertyEncoder.WhiteSpace` | thirdparty/quickjs/libunicode-table.h:582-586 | the table for White_Space describes exactly the white space characters |
| `PropertyEncoder.EntryLaw` | thirdparty/quickjs/libunicode.c:272-303 | the three bytes of an index entry lead to their code point and to their offset in the block of 32 bytes |
| `PropertyEncoder.IndexFits` | thirdparty/quickjs/libunicode.c:272-303 | an index of block beginnings outside the set, closed by the end of the set, is one that the lookup may use |
| `Combining.SortCc` | thirdparty/quickjs/libunicode.c:878-905 | in place, starters stay, every run between them is sorted by class, equal classes in their old order |
| `Combining.OrderingUnique` | thirdparty/quickjs/libunicode.c:878-905 | that describes one text, so ordering is a function |
| `Combining.OrderedStays` | thirdparty/quickjs/libunicode.c:878-905 | an ordered text is left as it is |
| `Combining.FindStarter` | thirdparty/quickjs/libunicode.c:998-1012 | looking at one class decides whether anything in the gap back to the starter blocks the character |
| `Combining.Recompose` | thirdparty/quickjs/libunicode.c:995-1019 | in place, with the output never past the input, the canonical composition algorithm with blocking as the standard defines it |
| `NormalForms.Normalize` | thirdparty/quickjs/libunicode.c:984-1021 | decomposed: the canonical ordering, of the same length; composed: what compositions make of the ordering, and with stable tables no starter is followed by an unblocked character it composes with |
| `NormalForms.StableCondition` | thirdparty/quickjs/libunicode.c:995-1019 | every text comes out fully composed if and only if the tables are stable |
| `NormalForms.RecomposedDerived` | thirdparty/quickjs/libunicode.c:995-1019 | the composed form comes from the text by finitely many compositions of a starter with a character that nothing blocks |
| `NormalForms.AcuteForms` | thirdparty/quickjs/libunicode.c:989-993 | both forms of a letter and an accent it composes with |
| `NormalForms.OrderedLaw` | thirdparty/quickjs/libunicode.c:878-905 | ordered texts are those without a reorderable pair |
| `NormalForms.ExchangeLaw` | thirdparty/quickjs/libunicode.c:878-905 | exchanging a reorderable pair does not change the ordering of a text |
| `QuickSort.Rqsort` | thirdparty/quickjs/cutils.h:1421-1538 | for every array and total preorder: sorted, the same elements, termination, and every index into the 50-entry stack in range |
| `QuickSort.Partition` | thirdparty/quickjs/cutils.h:1449-1515 | smaller, equal and greater elements in this order, at least one equal, nothing outside touched |
| `QuickSort.PushDeeper` | thirdparty/quickjs/cutils.h:1446-1529 | depths grow strictly up the stack from 1, so below depth 50 there is room for one more entry |
| `QuickSort.Med3` | thirdparty/quickjs/cutils.h:1413-1418 | one of the three, between the other two |
| `Sorting.HeapSort` | thirdparty/quickjs/cutils.h:1379-1411 | sorts a stretch of an array and touches nothing else |
| `Sorting.InsertionSort` | thirdparty/quickjs/cutils.h:1532-1536 | the same for a short stretch |
| `Utf8.UnitsRoundTrip` | thirdparty/quickjs/cutils.h:1129-1237 | every sequence of 16-bit units, lone surrogates included, is decoded from its encoding |
| `Utf8.DecodeEncoded` | thirdparty/quickjs/cutils.h:905-1038 | every code point is decoded from its bytes whatever follows |
| `Utf8.EncodeDecoded` | thirdparty/quickjs/cutils.h:949-1038 | what is accepted is the one encoding of its code point, no overlong forms |
| `Utf8.ErrorsMeaning` | thirdparty/quickjs/cutils.h:1053-1091 | an error is reported exactly when the bytes encode no list of code points, and exactly when encoding the decoded text does not give them back |
| `Utf8.EncodeLaw` | thirdparty/quickjs/cutils.h:905-948 | the number of bytes, the marks of the lead and trail bytes and the bits they carry |
| `Utf8.LoneByte` | thirdparty/quickjs/cutils.h:949-1038 | a byte of 0x80 or more that stands alone is read as the one unit 0xFFFD |
| `Utf8.UnitsLaw` | thirdparty/quickjs/cutils.h:1129-1153 | the two units of a code point above 0xFFFF carry its twenty bits |
| `Utf8Buffers.Scan` | thirdparty/quickjs/cutils.h:1053-1091 | for every byte string the number of units decoding gives, and each flag exactly for its reason |
| `Utf8Buffers.DecodeBuf16` | thirdparty/quickjs/cutils.h:1129-1153 | the full length, and as many units as fit stored; no read past the end |
| `Utf8Buffers.EncodeBuf16` | thirdparty/quickjs/cutils.h:1199-1237 | the full length even when cut short; the whole characters that fit and a null byte stored, the rest of the buffer as it was |
| `Utf8Buffers.EnoughRoom` | thirdparty/quickjs/cutils.h:1129-1237 | with enough room the buffer decodes to the text that was encoded |
| `RtdeStream.FeedIsDrain` | src/rtde_client.cpp:358-402 | how the received bytes are cut into chunks makes no difference, malformed ones included |
| `RtdeStream.Reassembly` | src/rtde_client.cpp:332-373 | for every list of sent frames and every cut, exactly the complete frames come out, in order, and the beginning of the next is kept |
| `RtdeStream.Client.Poll` | src/rtde_client.cpp:595-623 | all complete frames are consumed, the latest data package is returned, the rest stays buffered; a malformed length fails |
| `RtdeStream.PackageBytes` | src/rtde_client.cpp:60 | the wire bytes of a frame of type 'U' are the latest package, those of another type are none |
| `RtdeStream.SendFrame` | src/rtde_client.cpp:332-356 | however few bytes the socket takes at a time, success means the whole frame went out, failure a part of it |
| `RtdeNames.SplitJoin` | src/rtde_client.cpp:72-90 | splitting joined names gives the names, if there is at least one and none holds a comma |
| `RtdeNames.JoinSplit` | src/rtde_client.cpp:72-90 | joining split text gives the text |
| `RtdeNames.SplitCsv` | src/rtde_client.cpp:81-90 | the loop computes that splitting |
| `RtdeNames.JoinCsv` | src/rtde_client.cpp:72-79 | the loop computes that joining |
| `RtdeNames.TwoNames` | src/rtde_client.cpp:72-90 | the separator is a comma, in both directions |
| `RtdeStream.Client.ParseBufferedFrame` | src/rtde_client.cpp:358-373 | takes out the first complete frame and nothing else, or says that it is incomplete or malformed and leaves the buffer alone |
| `RtdeSession.Session.Init` | src/oip_comms.cpp:1230-1373 | from whatever earlier sessions left: succeeds exactly when both recipes are accepted, every index suits its type and the controller starts; then every tag lies in its payload and tags of different variables or elements share no byte; every tag the layout reaches, also of one that fails, is given its type and keeps its bit flag |
| `RtdeSession.Session.TagSet` | src/oip_comms.cpp:510-592 | the value is read back, cut to the tag's type, unless the tag's bit flag is stale; then nothing is stored and zero is read; no tag changes that shares no bit with it |
| `RtdeSession.Session.ReadBack` | src/oip_comms.cpp:510-592 | every value written to a tag is read back if and only if it is not the case that an earlier layout made the tag a bit and its variable's type now is not an unsigned integer |
| `RtdeSession.Session.Register` | src/oip_comms.cpp:1803-1828 | a tag added, before or between sessions, stands without a type and without the flag among the others, which stay as they are |
| `RtdeSession.Session.Lost` | src/oip_comms.cpp:1388-1393 | a failed poll ends the session; the tags, their places and their flags stay |
| `RtdeRecipe.StaleMeaning` | src/oip_comms.cpp:1317-1357 | the flag is stale exactly when one of the earlier types made the tag a bit and the last did not |
| `RtdeRecipe.StaleTagsAccepted` | src/oip_comms.cpp:1317-1357 | the controllers of the input below are accepted, whatever usable types they give |
| `RtdeRecipe.StaleReached` | src/oip_comms.cpp:1241-1244 | after the two answers the tag stands as the next row needs it |
| `RtdeRecipe.StaleInput` | src/oip_comms.cpp:528-554 | an input register typed UINT32 in one session and INT32 in the next: 5 is written, nothing is stored and 0 is read |
| `RtdeLayout.EntriesApart` | src/oip_comms.cpp:1287-1357 | ranges of different variables, and of different elements of one, are disjoint |
| `RtdeLayout.ReadWritten` | src/oip_comms.cpp:2242-2279 | reading after writing gives the value, for scalars and bits whose flag is not stale |
| `RtdeLayout.ReadBackIff` | src/oip_comms.cpp:2253-2261 | all values are read back if and only if the flag is not stale |
| `RtdeLayout.OthersKept` | src/oip_comms.cpp:528-587 | a write changes no range apart from its own, no other bit of the same number, and nothing read from a stale tag; a write to a stale tag changes nothing |
| `RtdeLayout.WireBytes` | src/oip_comms.cpp:556-586 | the bytes each scalar type leaves in the payload, high byte first |
| `RtdeLayout.MinusOne` | src/rtde_client.cpp:134-142 | -1 is read back as -1 from signed variables and vector elements, as 2^32 - 1 from unsigned ones |
| `RtdeLayout.ByteRead` | src/oip_comms.cpp:2264-2268 | any byte but 0 the controller sends for a BOOL is read as true, and a UINT8 as its byte |
| `RtdeLayout.BitNumber` | src/oip_comms.cpp:528-554 | a bit written to a UINT8, UINT32 or UINT64 changes the number by its place value or not at all, and is read back |
| `RtdeLayout.OffsetLaw` | src/oip_comms.cpp:1287-1357 | variables and the elements of one lie directly behind each other, from the start on |
| `RtdeLayout.VectorLaw` | src/rtde_client.cpp:94-142 | a vector is so many numbers; the types without a size are those that are refused |
| `RtdeRecipe.IndexLaw` | src/oip_comms.cpp:1332-1357 | the indices accepted for every type |
| `RtdeRecipe.AcceptedLaw` | src/rtde_client.cpp:480-521 | a recipe is refused exactly for an answer of the wrong length or with NOT_FOUND, IN_USE or an unknown type among the types |
| `RtdeRecipe.NamesInOrder` | src/oip_comms.cpp:1246-1257 | the variables are asked for in the order of their first tags |
| `RtdeNumbers.BitsAfter` | src/oip_comms.cpp:534-547 | setting or clearing a bit of an unbounded number sets that bit and no other |
| `WriteQueue.NoStrandedWrite` | src/oip_comms.cpp:367-418 | in every interleaving of any number of callers with the worker: a queued write is announced by its caller or its token or the worker is on its way; writes are processed once and in order; a cleanup comes after all writes before its token |
| `WriteQueue.FlushedBeforeHandling` | src/oip_comms.cpp:367-418 | in every reachable state, whatever token it popped, the worker handles it only when all writes accepted so far are processed |
| `WriteQueue.AllProcessed` | src/oip_comms.cpp:2327-2339 | whenever no caller is between its two pushes, the worker alone processes every accepted write before it waits again |

## Findings

Properties the code does not have, each with an input that shows it and the exact condition under which it holds.

- Reading back a tag after writing it. `init_rtde_session` sets `is_bit_indexed` (src/oip_comms.cpp:1332) and clears it
  nowhere, and the tags outlive the session. An input register addressed with an index and typed UINT32 by one
  controller and INT32 by the next answers every write with nothing stored and every read with 0, although both
  sessions started (`RtdeRecipe.StaleTagsAccepted`, `RtdeRecipe.StaleReached`, `RtdeRecipe.StaleInput`). For every tag
  and every history: all values written are read back if and only if no earlier layout made the tag a bit or its type
  now is an unsigned integer again (`RtdeSession.Session.ReadBack`, `RtdeLayout.ReadBackIff`).
- The size of a compiled pattern. `lre_check_size` looks at the buffer before an atom, not at what quantifiers copy
  (thirdparty/quickjs/libregexp.c:398-403). 31 nested lazy quantifiers pass every check and give a program past 2^31
  bytes, the range of its own jump offsets (`RegexLibrary.SizeUnchecked`, `RegexLibrary.TooLong`). The output fits if
  and only if `ImageSize`, computed from the tree before compiling, is below 2^31, and then matching means what the
  pattern means (`RegexLibrary.CompileAndExecute`).
- Where a match may start. `lre_exec` starts at any index, and the give-back step moves to the previous character
  boundary (thirdparty/quickjs/libregexp.c:2134-2139). Started between the halves of a surrogate pair, `u?u` with u the
  low half (and no second u after it) gives back the whole pair instead of the half it took, and fails
  (`RegexSplit.WrongInside`). For every input
  and start: all patterns match as they mean if and only if the start is not inside a pair
  (`RegexSplit.StartCondition`).
- The union with an interval. The end point of `cr_union_interval` is `c2 + 1` in 32 bits
  (thirdparty/quickjs/libunicode.h:93-99). The result is the union if and only if c2 is below the greatest 32-bit value
  (`CharSets.CharRange.UnionInterval`); the callers pass code points.
- Nothing left to compose. The recomposition loop does not go back to a character it has passed over
  (thirdparty/quickjs/libunicode.c:995-1019), so with tables where a composite takes a character that its starter did
  not take, something is left. Every text comes out fully composed if and only if the tables have no such entry
  (`NormalForms.StableCondition`). The generated tables are parameters here, so whether they are stable is not part of
  this model.

## Left out

- The text of a pattern: `RegexCompiler` starts from the tree a parse gives, with named groups, `\p{}`, class syntax and the Annex B corners already resolved. A tree node that is itself a concatenation or disjunction stands for a `(?:...)` group.
- Ignore-case canonicalisation, interrupt polling, allocation failure inside `DynBuf` and `push_state`, and the stack-overflow callback.
- `FloatBits.ReadBits` begins behind the comparisons with `max_exponent` and `min_exponent` that answer far too large and far too small exponents at once, and takes the digits gathered as all there are.
- `RegexLibrary.Execute` starts matches at character boundaries and takes programs below 2^31 bytes; `RegexSplit.StartCondition` and `RegexLibrary.TooLong` show that neither can be dropped.
- The reference semantics resets the captures of an atom once, before a repeat whose minimum is 0, as the code does; section 22.2.2.3.1 of ECMA-262 resets them on every iteration.
- `RegexMachine.GreedyScan` stops as undefined when an atom matches without advancing; `RegexStack.RunWithinStack` shows compiled programs never get there.
- Positions are unit indices instead of byte pointers; 8-bit and 16-bit buffers differ only in the width of a unit.
- In `dtoa.c`: C doubles (the model works on mantissa and exponent), the choice of the number of digits, fixed buffer sizes, the contents of the tables (digit counts and radix powers are parameters with the property they need), the cut-off after `max_digits` digits and the syntax around the digits in `js_atod`.
- `FloatScaling.RoundNonzero` multiplies by 2^(53 - prec) where the source shifts (thirdparty/quickjs/dtoa.c:991). For prec of -11 and below the shift count is 64 or more, which C leaves undefined; the mantissa is 0 there, and the model takes the shifted value to be 0. A result past the greatest double is left to the caller.
- `Reciprocal.Div1Norm` is in place only, because the source reads the input after shifting into the output.
- Bits or-ed together that cannot overlap are written as sums, and `x & mask` as a remainder.
- `PropertyTable.IsInTable` takes the table and its index as parameters with the property they need; sums of run lengths are unbounded, as no table describes more than the code points.
- `Combining.SortCc` and `Combining.Recompose` take the class and composition tables as functions; that a starter composes to a starter is a property of those tables. Decomposition, Hangul and the table of classes are left out.
- `RangeSort.SortAndRemoveOverlap` takes intervals whose start is not above their end; its one caller, in the same file, builds no others.
- `QuickSort.Rqsort` sorts elements instead of bytes: the exchange functions for different sizes and alignments are one `Swap`.
- `RtdeStream.Client.Poll` is about a connection that stays open: when the peer closes it, complete packages still buffered are dropped by the source.
- `RtdeSession.Session.TagSet` leaves out sending the payload afterwards; doubles are the 64 bits they consist of, and the conversions of a Godot value are parameters.
- `WriteQueue.NoStrandedWrite` covers the running phase with atomic queue operations; the source does not lock the write queue, and at shutdown the worker may leave before flushing.
- Of `libunicode.c`: case conversion and folding, scripts, general categories and the generated tables. Of `cutils.h`: the 8-bit codecs, `DynBuf`, bit tricks and the list macros. Of `src/`: sockets, Godot bindings, OPC UA, ADS, MQTT, S7 and libplctag.
