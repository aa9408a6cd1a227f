# Verification of the value engine, scoping passes and sinks of xezim-core

A Dafny model of the parts of xezim-core whose correctness is easiest to get
wrong, with machine-checked proofs that they do what the language standard and
the repository's own documentation promise. `dafny verify dfyconfig.toml` checks
everything.

The modules, from the bottom up:

* `WordBits`, `WordVec`, `Congruence`: machine words as numbers below 2^64 with
  their bits, little-endian word vectors with carry chains, products and
  shift-subtract division, and congruence modulo powers of two.
* `Planes`, `Values`, `ValueMove`, `ValueJoin`: two-plane four-state storage, the
  value type with its inline and wide representations, and data movement.
* `ValueArith`, `ValuePower`, `HostLimits`, `PowerLimits`, `Decimal`: integer
  arithmetic in the three storage regimes, powers, the places where fixed host widths
  show through with the exact inputs on which they do not matter, and decimal text.
* `FourState`, `Abstraction`, `Reductions`, `Equality`: four-state operators as
  tables, and what they are exact about: a *resolution* of a value replaces every
  x and z by 0 or 1.
* `TwoState`, `Engines`: the independent two-state engine, and its
  agreement with the four-state one.
* `VcdVector`, `VcdSink`, `VcdReader`, `VcdMixed`, `StdoutSink`: the dump text and a
  reader of it, and the two threaded sinks as step systems with arbitrary interleaving
  of the producer, the worker and the worker's buffered writer.
* `Canonical`, `CanonicalPaths`: the span-erasing encoding used as a cache key, and
  what it tells apart, said by paths into the values.
* `PkgScope`, `TypeInline`: renaming of colliding package types, and inlining of
  typedefs through inheritance.
* `NameRegistry`, `BindConstants`, `Worklists`, `ArrayParams`, `Names`: interning,
  the overlay with its undo log, the two worklists, and packed array parameters.

Methods carry the loops and the mutable state of the source and are proved against
functions or predicates; lemmas then state what those promise over all inputs, all
runs or all reachable states. Words are unbounded integers below 2^64 and every
wrap-around, truncation or saturation of the source is written out.

## Places where the code and an ideal differ

The code is followed. Each difference has an exact condition and a counterexample; only
the last has a sufficient condition instead, because whether a capture shows in a width
depends on the arithmetic around it (`K - K` does not mind):

* Powers read the sign and size of the exponent from its low 64 bits, stop after 4096
  products up to 128 bits of width, and read only the base's low word for a negative
  exponent: `PowerLimits.PowerExact` is the condition on the two operands;
  `LongExponent`, `LongNegativeExponent`, `LongPositiveExponent`, `CappedExponent`
  and `NegativeCounterexample` are inputs that miss it.
* Shift amounts of `<<`, `>>` and `>>>` are read modulo 2^32: `ShiftLeftExact`,
  `ShiftRightExact`, `LongShiftCounterexample`, `LongArithShiftCounterexample`.
* `==` with an unknown sign under signed extension: `EqExact`, `EqCounterexample`.
* Two-state subtraction with a narrower subtrahend, and width 0: `SubExact`,
  `SubAgrees`, `SubCounterexample`, `MaskedIffWidth`, `ZeroWidthCounterexample`.
* Re-export chains of more than nine packages: `OwnerIff`, `TooLongChain`.
* Package names that end in a colon and names that hold `::`, possible with escaped
  identifiers: `KeysAreUnique`, `OwnKeyIff`, `TrailingColonClashes`, `EscapedNameClashes`.
* A shadowing declaration that was not collected, such as one in a class, leaves a
  bare name that a package declaration may own: `ShadowedStaysLocal`,
  `ShadowedIsCaptured`.
* Two record kinds in one dump sink: `MixedExact`, `MixedKinds`.
* A library name with more than one definition on offer: `OrderIrrelevantIff`,
  `OrderMatters`.
* Value defaults that read earlier parameters: `DefaultExactIff`,
  `DefaultNotSubstituted`, `DefaultCaptured`.
* Names free in a base class that mean something else in a deriving one: `ChainWidth`,
  `FreeNameCaptured`.

A comment on `case_wildcard_operands` (src/value.rs:3548-3550) says that wildcard
comparisons never sign-extend; the code sign-extends when both operands are signed,
and so does the model.

## Model

| member | source | states |
|---|---|---|
| `WordVec.WordsAdd` | src/value.rs:2064-2075 | the words spell the sum of the operands modulo 2^(64·len), through the carry chain |
| `WordVec.WordsSub` | src/value.rs:2077-2088 | the difference modulo 2^(64·len), and exactly the difference when nothing is borrowed |
| `WordVec.WordsNeg` | src/value.rs:2108-2110 | the two's complement modulo 2^(64·len) |
| `WordVec.WordsCmp` | src/value.rs:2141-2148 | orders two vectors as the numbers they spell |
| `WordVec.WordsMul` | src/value.rs:2091-2106 | the product modulo 2^(64·len) although every row drops its carry |
| `WordVec.WordsDivmod` | src/value.rs:2117-2139 | for every nonzero divisor the quotient and remainder satisfy q·b + r = a and r < b, with no guard bit in r |
| `WordVec.BringDown` | src/value.rs:2124-2136 | bringing one bit down keeps the partial remainder at most the dividend's remaining prefix, which is why no shifted-out bit is lost |
| `Planes.WidePlanes.Splice64` | src/value.rs:227-243 | after the splice each plane reads the written bits in the clipped range and its old bits elsewhere, and stays masked |
| `Planes.WidePlanes.Set` | src/value.rs:199-212 | sets one four-state bit, ignores positions past the width, keeps both planes masked |
| `Planes.ExtractPlaneBits` | src/value.rs:246-260 | a word extracted across a word boundary has exactly the requested bits |
| `Planes.MaskedWordsValue` | src/value.rs:149-175 | cutting words to a width is reduction modulo 2^width |
| `Values.ArithWordsValue` | src/value.rs:2036-2062 | the operand words spell the integer the value denotes, plus 2^(64·words) when it is negative |
| `ValueArith.Add` | src/value.rs:2329-2356 | in all three storage regimes: all x when an operand has x/z, else the integer sum of operands sign-extended iff both are signed, modulo 2^max width |
| `ValueArith.Sub` | src/value.rs:2359-2386 | as Add, for the difference |
| `ValueArith.Mul` | src/value.rs:2389-2416 | as Add, for the product |
| `ValueArith.Negate` | src/value.rs:2202-2221 | as Add, for the negation, keeping the operand's signedness |
| `ValueArith.TruncLaw` | src/value.rs:2151-2179 | the quotient and remainder used for signed division satisfy the division law, the remainder being smaller in magnitude than the divisor and taking the dividend's sign |
| `ValueArith.WideDivmod` | src/value.rs:2157-2179 | above 128 bits the signed wrapper gives the truncated quotient or remainder of the integers, modulo 2^width, all x for a zero divisor |
| `ValueArith.Div` | src/value.rs:2418-2474 | the truncated quotient modulo 2^width in every regime, most negative by -1 included; all x for x/z operands or a zero divisor |
| `ValueArith.Modulo` | src/value.rs:2490-2543 | the remainder with the dividend's sign modulo 2^width in every regime; all x for x/z operands or a zero divisor |
| `ValueArith.WideCmp` | src/value.rs:2183-2199 | orders known operands of any widths as integers, signed iff both are |
| `ValueArith.LessThan` | src/value.rs:3673-3698 | one unsigned bit: x on unknown operands, else 1 or 0 by the comparison of the integers |
| `ValueArith.LessEqual` | src/value.rs:3701-3728 | the same for less or equal |
| `ValuePower.SquareMultiply` | src/value.rs:2579-2598 | the square-and-multiply loop spells base^exp modulo 2^(64·words) for every exponent |
| `ValuePower.CappedProduct` | src/value.rs:2599-2611 | the repeated product stops after 4096 factors |
| `ValuePower.Power` | src/value.rs:2545-2614 | all x for unknown operands; above 128 bits base^(low 64 bits of the exponent) modulo 2^width; up to 128 bits base^min(low 64 bits of the exponent, 4096) modulo 2^width; the fixed small results when a signed exponent reads as negative; signed iff both operands are |
| `PowerLimits.PowerExact` | src/value.rs:2545-2614 | for all known operands the result is the integer power, or the standard's negative power, modulo 2^width exactly when PowerSafe holds: a test on the operands, the sign and exponent read from the low 64 bits, and the cap |
| `PowerLimits.SamePowerExact` | src/value.rs:2579-2611 | a smaller exponent n gives the power e modulo 2^w iff n is e, or the base is even and x^n already vanishes, or it is odd and 2^w divides x-1 or (x²-1)(e-n)/2 by the parity of e-n |
| `PowerLimits.VanishesExact` | src/value.rs:2601-2611 | x^n is 0 modulo 2^w iff w is 0, or n is positive and x is 0 or n times the number of its factors of two is at least w |
| `PowerLimits.ReadPositiveExact` | src/value.rs:2559-2579 | a negative exponent read as the nonnegative n is harmless exactly for base 1, for base -1 with n of the same parity or at width at most 1, and for other bases but 0 where x^n vanishes |
| `PowerLimits.ReadNegativeExact` | src/value.rs:2559-2578 | a nonnegative exponent read as negative is harmless exactly for even bases, bases whose power is 1 where 1 is returned, and, where 64 ones are returned, widths up to 64 or the one residue class of exponents for which that is the power |
| `PowerLimits.MinusExponentExact` | src/value.rs:2564-2568 | for a base with low 65 bits 0 followed by 64 ones, the powers equal to 2^64-1 modulo 2^w are those at one exponent modulo 2^(w-64) |
| `PowerLimits.LongExponent` | src/value.rs:1785-1808 | 2 at 8 bits to the 65-bit power 2^64: the result is 1, not 0 |
| `PowerLimits.LongNegativeExponent` | src/value.rs:2559-2579 | 2 at 8 bits to the signed 65-bit power -2^64: the result is 1, not 0 |
| `PowerLimits.LongPositiveExponent` | src/value.rs:2559-2578 | 3 at 8 bits to the signed 65-bit power 2^63: the result is 0, which is not the power |
| `PowerLimits.CappedExponent` | src/value.rs:2601-2601 | 3 at 8 bits to the 13-bit power 4097: the result is not the power |
| `HostLimits.CappedPowerExact` | src/value.rs:2601-2611 | the integer fact about the cap alone: x^min(e, 4096) is x^e modulo 2^w exactly when CapHarmless holds; how e is read from the operand is in PowerExact |
| `HostLimits.LiftedExponent` | src/value.rs:2601-2611 | for an odd base, x^k is 1 modulo 2^w exactly when 2^w divides x-1 (k odd) or (x²-1)·k/2 (k even) |
| `HostLimits.CapCounterexample` | src/value.rs:2601-2601 | 3^4096 is not 3^4097 modulo 256 |
| `HostLimits.NegativePowerExact` | src/value.rs:2560-2578 | the result chosen for an exact negative exponent is the ideal one exactly when NegativeSafe holds, a test on the base operand and the exponent's parity; how the exponent is read is in PowerExact |
| `HostLimits.NegativeCounterexample` | src/value.rs:2564-2568 | -1 at 65 bits to the power -3 sets only 64 bits |
| `HostLimits.AmountIsNarrowed` | src/value.rs:3034-3034 | a shift amount is read modulo 2^32 |
| `HostLimits.ShiftLeftExact` | src/value.rs:3033-3069 | the narrowed left shift is the full one exactly when the amount fits 32 bits or no bit survives |
| `HostLimits.ShiftRightExact` | src/value.rs:3072-3210 | for >> and >>> with any fill bit: the narrowed right shift is the full one exactly when the amount fits 32 bits or every bit from the narrowed amount up already is the fill |
| `HostLimits.LongShiftCounterexample` | src/value.rs:3034-3034 | 8-bit 1 shifted either way by the 33-bit amount 2^32 stays 1 |
| `HostLimits.LongArithShiftCounterexample` | src/value.rs:3115-3115 | signed 8-bit 81 (hexadecimal) under >>> by the same amount is unchanged, not all ones |
| `ValueMove.CopyBitsFrom` | src/value.rs:1681-1781 | exactly the clipped range takes the source's bits, everything else keeps its value, the result is well formed, and the flag is true iff a bit changed |
| `ValueMove.Resize` | src/value.rs:1857-1901 | bits below both widths are kept, the rest filled with a known 1 sign of a signed value or 0 |
| `ValueMove.ShiftLeft` | src/value.rs:3033-3069 | every bit moves up by the amount, zeros come in; all x for an unknown amount |
| `ValueMove.ShiftRight` | src/value.rs:3072-3105 | every bit moves down by the amount, zeros come in; all x for an unknown amount |
| `ValueMove.ArithShiftRight` | src/value.rs:3111-3210 | a signed value is filled with its four-state sign bit, an unsigned one shifts logically |
| `ValueMove.SameValue` | src/value.rs:127-260 | a well-formed value is determined by its width, signedness and bits |
| `ValueJoin.ConcatRefs` | src/value.rs:3965-4062 | in all three regimes the result is the bit-level join of the operands, first operand on top, cut at the width cap |
| `ValueJoin.Replicate` | src/value.rs:1027-1112 | bit i of n copies is bit i mod w of the source, cut at the width cap, whichever of the fast paths runs |
| `ValueJoin.RepeatedWordBits` | src/value.rs:1010-1021 | one wrapping multiplication lays a period that divides 64 across a word |
| `ValueJoin.JoinsIffReplicated` | src/value.rs:1027-1112 | an n-fold concatenation is a replication and conversely |
| `ValueJoin.RangeSelect` | src/value.rs:6176-6209 | bit i of the select is bit lo + i of the source, and x past its width |
| `ValueJoin.RangeSelectZext` | src/value.rs:6292-6410 | as RangeSelect, with 0 past the width |
| `ValueJoin.SelectOfJoin` | src/value.rs:3965-4062 | selecting an operand's range out of a concatenation returns that operand |
| `FourState.InlineLaneEncodes` | src/value.rs:2619-2663 | the inline word algebra of and, or, xor and merge gives, bit by bit, the four-state truth table |
| `FourState.WideLaneEncodes` | src/value.rs:2665-2698 | the plane-lane algebra gives the same table |
| `FourState.Bitwise` | src/value.rs:2619-2842 | inline words, equal-width lanes and the per-bit loop all tabulate the operator over zero-extended operands |
| `FourState.BitwiseNot` | src/value.rs:2843-2876 | each bit is the four-state complement |
| `Abstraction.BitwiseExact` | src/value.rs:2619-3028 | a bit of and/or/xor/merge is known iff every 0/1 resolution of both operands gives that bit, and is never z |
| `Abstraction.NotExact` | src/value.rs:2843-2876 | the same for the complement |
| `Reductions.ReduceAnd` | src/value.rs:3851-3889 | the result is one unsigned bit, scanned out a word at a time: 1 iff every resolution is all ones, 0 iff none is, else x |
| `Reductions.ReduceOr` | src/value.rs:3892-3919 | the same: 1 iff every resolution is nonzero, 0 iff every one is zero, else x |
| `Reductions.ReduceXor` | src/value.rs:3925-3937 | the same: 1 iff every resolution has odd parity, 0 iff every one has even, else x |
| `Reductions.AndExact` | src/value.rs:3851-3889 | 1 iff every resolution is all ones, 0 iff none is |
| `Reductions.OrExact` | src/value.rs:3892-3919 | 1 iff every resolution is nonzero, 0 iff every one is zero |
| `Reductions.XorExact` | src/value.rs:3925-3937 | 1 iff every resolution has odd parity, 0 iff every one has even |
| `Equality.Logic` | src/value.rs:3746-3795 | the result bit of a connective is 1 iff every pair of resolutions makes it true, 0 iff every pair makes it false, else x |
| `Equality.LogicNot` | src/value.rs:3768-3774 | the result bit is 1 iff every resolution is zero, 0 iff every one is nonzero, else x |
| `Equality.LogicExact` | src/value.rs:3746-3830 | a connective's result is known iff every pair of resolutions gives it |
| `Equality.IsEqual` | src/value.rs:3215-3315 | whichever of the four comparison paths runs, the result bit is 1 iff all resolutions are equal, 0 only if none are, and 0 iff none are exactly but for a torn sign extension |
| `Equality.EqExact` | src/value.rs:3215-3315 | 1 iff all resolutions are equal; 0 only if none are; and 0 iff none are, exactly unless a signed narrower operand's unknown sign would have to match both a 0 and a 1 |
| `Equality.EqCounterexample` | src/value.rs:3239-3280 | a signed one-bit x against 2'sb01 reads x although no resolution is equal |
| `Equality.CaseCompare` | src/value.rs:3328-3601 | ===, casez and casex: the word algebra and the bit loop both return the bit that says whether the extended four-state bits agree up to wildcards |
| `Equality.CaseFills` | src/value.rs:3328-3550 | each of them matches iff at every position one bit fills in both operands, where z for casez, x and z for casex, may be filled in at will |
| `Equality.CaseXMeans` | src/value.rs:3487-3550 | casex fails exactly when == reports 0 |
| `Equality.CaseOrder` | src/value.rs:3328-3550 | === implies casez implies casex |
| `Equality.CaseEqIdentity` | src/value.rs:3328-3413 | at one width and sign === is identity |
| `Decimal.FromDecimal` | src/value.rs:6039-6087 | malformed text is all x; otherwise both accumulators hold the digit string's value modulo 2^width |
| `Decimal.ToDecString` | src/value.rs:5681-5771 | the canonical decimal text of the signed or unsigned value, or the x/z/X/Z letter |
| `Decimal.PrintedReads` | src/value.rs:5696-5771 | a printed integer reads back as itself, with a minus sign iff it is negative |
| `Decimal.UnknownLetter` | src/value.rs:5686-5711 | a lower-case letter iff every bit is that letter, upper-case X iff an x is among other bits, upper-case Z iff only z is |
| `Decimal.WellFormedTexts` | src/value.rs:6039-6045 | a literal is accepted iff it is digits, at least one, behind at most one plus sign |
| `Decimal.CanonicalText` | src/value.rs:5751-5770 | a digit string without a leading zero is the canonical text of its value |
| `Decimal.PrintThenParse` | src/value.rs:5681-5771 | parsing the print of any known unsigned value gives that value back |
| `Decimal.ParseThenPrint` | src/value.rs:6039-6087 | printing a parsed literal gives the canonical text of its value modulo 2^width |
| `TwoState.FromWordsIs` | src/bits2.rs:64-81 | normalising words reduces them modulo 2^width |
| `TwoState.ZeroWidthUnmasked` | src/bits2.rs:35-38 | at width 0 nothing is masked: the first word stays whatever it is |
| `TwoState.MaskedIffWidth` | src/bits2.rs:64-81 | the constructor reduces modulo 2^width, and its result fits the width, exactly when the width is positive or the first word is 0 |
| `TwoState.ZeroWidthCounterexample` | src/bits2.rs:35-38 | 3 at width 0 stays 3 |
| `TwoState.SetBitIs` | src/bits2.rs:116-128 | changes one bit and no other |
| `TwoState.BitwiseIs` | src/bits2.rs:135-148 | and, or, xor act bit by bit on operands of any widths |
| `TwoState.NotIs` | src/bits2.rs:149-152 | the complement within the operand's own width |
| `TwoState.Add` | src/bits2.rs:155-165 | the sum modulo 2^max width |
| `TwoState.Sub` | src/bits2.rs:167-170 | a - b + 2^(width of b), modulo 2^max width |
| `TwoState.SubExact` | src/bits2.rs:167-170 | that is a - b modulo 2^max width iff the subtrahend is not narrower |
| `TwoState.Mul` | src/bits2.rs:260-279 | the product modulo 2^max width |
| `TwoState.ShiftLeft` | src/bits2.rs:173-193 | multiplication by 2^n modulo 2^width |
| `TwoState.ShiftRight` | src/bits2.rs:194-214 | division by 2^n |
| `TwoState.ArithShiftRight` | src/bits2.rs:321-334 | floor division of the two's-complement reading by 2^n, modulo 2^width |
| `TwoState.FloorShift` | src/bits2.rs:321-334 | the bits of a floor division: moved down, sign copies on top |
| `TwoState.Ult` | src/bits2.rs:217-227 | orders two values of any widths as numbers |
| `TwoState.EqValue` | src/bits2.rs:253-256 | numeric equality across widths |
| `TwoState.Slice` | src/bits2.rs:230-236 | the low hi-lo+1 bits of the value shifted by lo |
| `TwoState.Concat` | src/bits2.rs:239-248 | high · 2^(low width) + low |
| `TwoState.Divmod` | src/bits2.rs:283-316 | restoring division: q·o + r = a and r < o for all widths of at least 1 and mixed operand widths; zeros for a zero divisor |
| `Engines.FromValue` | src/bits2.rs:339-353 | a known 1 becomes 1, everything else 0 |
| `Engines.ToValue` | src/bits2.rs:356-367 | a known unsigned value with the same number |
| `Engines.RoundTrip` | src/bits2.rs:339-367 | converting out and back is the identity |
| `Engines.AddAgrees` | src/bits2.rs:155-165 | the two engines give one value on known unsigned operands |
| `Engines.SubAgrees` | src/bits2.rs:167-170 | they agree on a difference iff the subtrahend is at least as wide; the two-state one is too large by 2^(width of the subtrahend) |
| `Engines.SubCounterexample` | src/bits2.rs:167-170 | 8-bit 0 minus 4-bit 0 is 16 in the two-state engine |
| `Engines.MulAgrees` | src/bits2.rs:260-279 | they agree on products |
| `Engines.DivAgrees` | src/bits2.rs:283-316 | they agree on quotient and remainder, which satisfy the division law |
| `Engines.ShiftsAgree` | src/bits2.rs:173-214 | they agree on both shifts |
| `Engines.ConcatAgrees` | src/bits2.rs:239-248 | they agree on concatenation |
| `Engines.SliceAgrees` | src/bits2.rs:230-236 | they agree on part selects |
| `VcdVector.VectorBits` | src/vcd_sink.rs:527-570 | a reader of the printed text gets back every bit, x and z told apart, and no shorter text does that; width 0 prints 0 |
| `VcdVector.RestoresBits` | src/vcd_sink.rs:520-526 | reading back the characters and reading back the bits are the same |
| `VcdVector.KeptRestores` | src/vcd_sink.rs:545-569 | suppressing the leading run loses nothing |
| `VcdVector.ShorterFails` | src/vcd_sink.rs:545-569 | any text that reads back as the vector is at least as long |
| `VcdVector.VectorTextMinimal` | src/vcd_sink.rs:527-570 | the text the sink renders is the shortest one that reads as the value |
| `VcdVector.TextDetermines` | src/vcd_sink.rs:527-570 | values of one width and sign have equal texts iff they are equal |
| `VcdReader.StepsRead` | src/vcd_sink.rs:572-592 | reading the rendered steps line by line gives every time and every change in order, each with its identifier and all its bits |
| `VcdReader.FileReads` | src/vcd_sink.rs:572-592 | the file of a dropped sink that only carried steps reads as those steps |
| `VcdVector.MinimalUnique` | src/vcd_sink.rs:527-570 | the minimal text is unique |
| `VcdSink.Sink.WriteBytes` | src/vcd_sink.rs:425-444 | pending records are dispatched before the bytes are buffered |
| `VcdSink.Sink.PostVcdChanges` | src/vcd_sink.rs:165-193 | buffered bytes are sent first, a full batch is dispatched |
| `VcdSink.Sink.PostXtraceChanges` | src/vcd_sink.rs:203-224 | the same for trace slots |
| `VcdSink.Sink.CommitBytes` | src/vcd_sink.rs:229-251 | only buffers past their thresholds are sent |
| `VcdSink.Sink.FlushAll` | src/vcd_sink.rs:446-469 | everything is sent, then a flush message |
| `VcdSink.Sink.DropSink` | src/vcd_sink.rs:473-497 | everything is sent, then shutdown, and the sink is closed |
| `VcdSink.Sink.ReceiveOne` | src/vcd_sink.rs:103-130 | one turn of the worker: render, write, flush or stop |
| `VcdSink.InlineSink.PostVcdChanges` | src/vcd_sink.rs:165-173 | the inline mode accepts the rendered record at once |
| `VcdSink.Refinement` | src/vcd_sink.rs:97-251 | in every reachable state file, writer cache, queue, byte buffer and pending records spell the inline output in order, and bytes and records are never buffered together |
| `VcdSink.NextInv` | src/vcd_sink.rs:165-251 | every producer, worker and writer step keeps the one-buffer invariant and the place of the shutdown message |
| `VcdSink.NothingLost` | src/vcd_sink.rs:473-497 | once a dropped sink's worker has stopped, the file is the inline output |
| `VcdSink.JoinReturns` | src/vcd_sink.rs:488-495 | the worker of a dropped sink stops within as many receipts as messages are queued |
| `VcdSink.CommitBounds` | src/vcd_sink.rs:229-252 | a commit leaves no buffer past its threshold and moves no byte out of order |
| `VcdSink.FlushIsBarrier` | src/vcd_sink.rs:446-469 | once a flush has been handled, everything accepted before it is on file |
| `VcdMixed.StepExact` | src/vcd_sink.rs:165-440 | in any state and with both record kinds, a step puts its text behind everything accepted before it exactly when it commutes with what is pending |
| `VcdMixed.MixedExact` | src/vcd_sink.rs:165-440 | a history with both record kinds reads like the inline one at every moment exactly when every step of it commutes |
| `VcdMixed.MixedKinds` | src/vcd_sink.rs:196-202 | two record kinds in one sink: the trace slot moves behind later value changes, which shows exactly when the two texts do not commute |
| `VcdMixed.MixedKindsReorder` | src/vcd_sink.rs:196-202 | a concrete reordering |
| `StdoutSink.Sink.WriteBytes` | src/stdout_sink.rs:268-289 | append, and dispatch the whole buffer at the threshold |
| `StdoutSink.Sink.WriteLnStr` | src/stdout_sink.rs:204-266 | text and newline are appended before any dispatch |
| `StdoutSink.Sink.FlushIfStaleNow` | src/stdout_sink.rs:320-329 | a stale nonempty buffer is dispatched |
| `StdoutSink.Sink.SyncAll` | src/stdout_sink.rs:339-347 | flush, then queue the barrier |
| `StdoutSink.Sink.DropSink` | src/stdout_sink.rs:438-449 | flush, then shutdown |
| `StdoutSink.Sink.Drain` | src/stdout_sink.rs:95-108 | absorb what is queued without losing or reordering text |
| `StdoutSink.Sink.FlushThenAck` | src/stdout_sink.rs:110-115 | flush once, then acknowledge every barrier held |
| `StdoutSink.Sink.RunWorker` | src/stdout_sink.rs:66-122 | run to its end after a drop, the loop leaves in the file everything accepted, and no message unhandled |
| `StdoutSink.RunFacts` | src/stdout_sink.rs:66-346 | in every run file, cache, queue and buffer spell the text written; buffers handed back are empty |
| `StdoutSink.NothingLost` | src/stdout_sink.rs:438-449 | a finished worker leaves exactly the text written |
| `StdoutSink.ChunksEndAtCalls` | src/stdout_sink.rs:204-289 | every chunk boundary is the end of some call, so none falls inside a line |
| `StdoutSink.WholeLines` | src/stdout_sink.rs:204-266 | when only lines are written the worker has never taken part of one |
| `StdoutSink.FlushReachesFile` | src/stdout_sink.rs:268-347 | after a flush, a stale flush or a sync the worker by itself puts everything written so far on file |
| `StdoutSink.BufferBounded` | src/stdout_sink.rs:204-289 | between calls less than the threshold is buffered |
| `StdoutSink.SyncIsBarrier` | src/stdout_sink.rs:110-115 | a sync is acknowledged only after every byte written before it is on file |
| `StdoutSink.EverySyncReturns` | src/stdout_sink.rs:90-122 | left alone the worker comes to rest with every sync acknowledged and everything dispatched on file; after a drop it has ended |
| `NameRegistry.Registry.InternHashed` | src/shared_names.rs:26-71 | finds the live indexed name with the text if there is one, else allocates and indexes a new one, with colliding hashes and dead pointers |
| `NameRegistry.Registry.InternName` | src/shared_names.rs:130-141 | outside every scope a name is allocated and not indexed |
| `NameRegistry.Registry.EnterScope` | src/shared_names.rs:109-117 | only the outermost scope resets the index |
| `NameRegistry.Registry.LeaveScope` | src/shared_names.rs:95-104 | leaving the outermost scope empties the index |
| `NameRegistry.Registry.Release` | src/shared_names.rs:1-3 | freeing a name leaves the index, which owns no text, as it is |
| `NameRegistry.BucketPruned` | src/shared_names.rs:43-58 | dropping dead pointers from a bucket makes no live name unreachable |
| `NameRegistry.SlotTaken` | src/shared_names.rs:61-63 | taking a free or dead primary slot makes no live name unreachable |
| `NameRegistry.RunCanonical` | src/shared_names.rs:25-117 | in every run two live indexed names with equal text are one allocation |
| `NameRegistry.StaysFindable` | src/shared_names.rs:25-117 | a live name stays findable while some scope stays open |
| `NameRegistry.InternTwice` | src/shared_names.rs:130-141 | interning one text twice in an outermost scope gives one allocation if it lived in between |
| `BindConstants.PrefixRun` | src/lib.rs:3424-3429 | in sorted keys those with a prefix are a contiguous run from the partition point |
| `BindConstants.BindConstants.Scope` | src/lib.rs:3381-3437 | for every history of directives the map is the base with all enclosing declarations, the nearest winning |
| `BindConstants.BaseHas` | src/lib.rs:3395-3420 | a base has every parameter under the top module name, and besides those its own names |
| `BindConstants.OwnHas` | src/lib.rs:3395-3420 | the own names are all parameters in a module, and in $unit its declarations before the qualified parameters |
| `BindConstants.BindConstants.LayOver` | src/lib.rs:3422-3435 | the overlay is that map, and undoing its log gives the base |
| `BindConstants.BindConstants.Leave` | src/lib.rs:3440-3460 | the base is restored exactly |
| `BindConstants.UndoInsert` | src/lib.rs:3430-3431 | recording what a key held makes its insertion undoable |
| `Worklists.Close` | src/unit_subroutine_usage.rs:128-140 | exactly the names reachable through the dependencies, the least closed superset of the roots, cycles included |
| `Worklists.ReachableIff` | src/unit_subroutine_usage.rs:128-140 | a name is reachable iff it is a root or a recorded dependency of a reachable name |
| `Worklists.SuppliedIff` | src/lib.rs:4074-4124 | a name is supplied iff the library has it or some pending file holds a definition of it |
| `Worklists.Resolve` | src/lib.rs:4074-4124 | after a name is looked up it is indexed iff any library file or the library supplies it; an indexed name keeps its definition, another takes that of the first of its own candidate files still pending that defines it |
| `Worklists.Adopt` | src/lib.rs:4069-4157 | the definitions are closed under instantiation up to the unresolved names, which no library supplies, and nothing undemanded is adopted or reported; a name the library held from the start takes that definition, any other the first one of some library file |
| `Worklists.OrderIrrelevant` | src/lib.rs:4069-4157 | when no adopted definition had a rival on offer, every order of work and indexing gives the same definitions and the same unresolved names; names held from the start have none |
| `Worklists.OrderIrrelevantIff` | src/lib.rs:4069-4157 | an outcome is the only one the adoption promises exactly when no definition in it had a rival on offer |
| `Worklists.OrderMatters` | src/lib.rs:4069-4157 | two outcomes for a name defined in its own file and again in that of another |
| `ArrayParams.Elements` | src/elaborate/array_params.rs:57-180 | slicing a packed override yields, under each declared index in order, the bits at that element's place with the element type's sign and states |
| `ArrayParams.KeyAt` | src/elaborate/array_params.rs:70-80 | for every tuple of indices within the declared bounds, ascending or descending, the key at its row-major place, counted from the left bounds, is the name with those indices |
| `ArrayParams.PackThenSlice` | src/elaborate/array_params.rs:294-296 | packing elements of any dimensionality and slicing returns every element under its declared index, exactly unless the width cap cuts the packed value |
| `ArrayParams.ToTwoState` | src/value.rs:1458-1485 | unknown bits become 0, known bits stay |
| `Canonical.Canon.Serialize` | src/elaborate/canonical.rs:20-200 | appends the pure encoding, with the span flag down before and after; fails exactly on an unknown length outside a Span |
| `Canonical.Canon.Fields` | src/elaborate/canonical.rs:177-201 | fields are skipped while the flag is up and serialized otherwise; the flag is unchanged |
| `Canonical.SpanFree` | src/elaborate/canonical.rs:14-18 | the key, or none exactly when a length outside a Span is unknown |
| `Canonical.UniquelyDecodable` | src/elaborate/canonical.rs:3-6 | enc(a)+s = enc(b)+t implies a and b equal up to Spans and s = t, at any depth and for recursive types |
| `Canonical.EqualEncodesAlike` | src/elaborate/canonical.rs:3-6 | values equal up to Spans encode alike |
| `Canonical.KeysEqualIff` | src/elaborate/canonical.rs:3-18 | two keys are equal iff the values are equal up to Spans |
| `CanonicalPaths.CompareKeys` | src/elaborate/canonical.rs:3-18 | the keys the serializer returns for two values of one type: each is there iff no path that stays out of Spans leads to an unknown length, and they are equal iff no such path leads to a difference |
| `CanonicalPaths.KeysEqualPaths` | src/elaborate/canonical.rs:3-18 | two encodings are equal iff no path into the values that enters no Span leads to a difference |
| `CanonicalPaths.SizedPaths` | src/elaborate/canonical.rs:26-31 | a value has a key iff no such path leads to an unknown length |
| `CanonicalPaths.ErasedIsSame` | src/elaborate/canonical.rs:3-6 | without a Span type erasure changes no value |
| `CanonicalPaths.KeysInjective` | src/elaborate/canonical.rs:3-6 | without a Span type two keys are equal iff the values are |
| `CanonicalPaths.OptionsDistinct` | src/elaborate/canonical.rs:71-77 | Some(1), Some(2) and None have different keys |
| `CanonicalPaths.SpansShareKeys` | src/elaborate/canonical.rs:177-201 | structs that hold a Span have equal keys iff their other field is equal, whatever the Spans hold |
| `CanonicalPaths.Samples` | src/elaborate/canonical.rs:41-100 | sample keys: options and flags take one byte, lengths eight, characters four, least significant first |
| `Canonical.LittleEndianAt` | src/elaborate/canonical.rs:41-48 | byte i of a scalar is its i-th digit to base 256 |
| `PkgScope.Collect` | src/pkg_scope.rs:883-977 | said of the descriptions alone: every package with exactly its types, imports and exports, the names declared elsewhere, and a name collides iff one package declares it and another package, $unit or a module does too |
| `PkgScope.ReexportsFromText` | src/pkg_scope.rs:700-731 | said of the descriptions alone: which packages a package passes a name on from |
| `PkgScope.VisibilityOrder` | src/pkg_scope.rs:1337-1399 | in one scope an explicit import decides before a bound name, and that before the wildcard imports |
| `PkgScope.OwnerSound` | src/pkg_scope.rs:692-732 | a found owner ends a chain of re-exports from the package asked |
| `PkgScope.OwnerIff` | src/pkg_scope.rs:692-732 | the search succeeds iff some chain has at most nine packages |
| `PkgScope.TooLongChain` | src/pkg_scope.rs:692-732 | a chain of ten packages denotes a declaration the search does not find |
| `PkgScope.KeysAreUnique` | src/pkg_scope.rs:735-737 | for every design the flat table has one declaration per key exactly when no renamed declaration is spelled like another: p: with m like p with :m, p::s with m like p with s::m, or p with n like a name p::n that is not renamed |
| `PkgScope.OwnKeyIff` | src/pkg_scope.rs:735-737 | one package declaration has a key that finds nothing else exactly when none of those clashes involves it |
| `PkgScope.OnlyColonsClash` | src/pkg_scope.rs:735-737 | when no name holds :: the keys are unique exactly when no p: with m meets p with :m |
| `PkgScope.TrailingColonClashes` | src/pkg_scope.rs:735-737 | a design without :: in any name in which two packages register different declarations under one key |
| `PkgScope.EscapedNameClashes` | src/pkg_scope.rs:735-737 | a design in which an escaped $unit name a::b shares the key of the renamed b of package a |
| `PkgScope.MeaningPreserved` | src/pkg_scope.rs:1337-1399 | the rewritten name of a reference that designates a package declaration is that declaration's key, which finds nothing else exactly when no clash of spellings involves the declaration; an ambiguous reference is reported; every other reference keeps its name. Asked only of the referenced name in the packages its enclosing scopes import it from |
| `PkgScope.ShadowedStaysLocal` | src/pkg_scope.rs:1360-1376 | a locally shadowed reference keeps its bare name, which is a package key exactly when one package alone declares it and the shadowing declaration was not collected, or when it is spelled like a renamed declaration |
| `PkgScope.ShadowedIsCaptured` | src/pkg_scope.rs:1360-1376 | a design in which the kept bare name is a package declaration's key |
| `PkgScope.BindAllKeepsMeaning` | src/pkg_scope.rs:1328-1335 | binding a wildcard-imported name changes what no name means |
| `PkgScope.BoundResists` | src/pkg_scope.rs:756-760 | once referenced, a wildcard-imported name keeps its meaning under later wildcard imports |
| `PkgScope.ReferenceResists` | src/pkg_scope.rs:1381-1399 | through nested scopes: a reference settled in some scope keeps its meaning whatever that scope imports by wildcard afterwards |
| `PkgScope.AmbiguousOwners` | src/pkg_scope.rs:1381-1396 | an ambiguous reference is reported with exactly the declarations, more than one, that some scope's wildcard imports provide |
| `PkgScope.UnboundClashes` | src/pkg_scope.rs:1381-1396 | unreferenced, it clashes with an import of another declaration |
| `PkgScope.Rewriter.AddImport` | src/pkg_scope.rs:771-781 | an explicit import of a name replaces an earlier one, a wildcard import is appended, in the innermost scope only |
| `PkgScope.Rewriter.Resolve` | src/pkg_scope.rs:1337-1399 | the innermost-first search gives the specified resolution and binds at most the scope that settled it |
| `PkgScope.Rewriter.Rewrite` | src/pkg_scope.rs:1337-1399 | an ambiguous reference is recorded as an error, any other gets its rewritten name |
| `TypeInline.SubstWidth` | src/pkg_scope.rs:335-370 | the substituted type has in the deriving environment the width the type has where it is written |
| `TypeInline.MergeWidth` | src/pkg_scope.rs:374-425 | outer packed dimensions multiply the width |
| `TypeInline.MergeShape` | src/pkg_scope.rs:374-425 | the outer dimensions come first, and subscripting by all of them selects the replacement |
| `TypeInline.SubstShape` | src/pkg_scope.rs:335-350 | a replaced reference is the replacement with the written dimensions outside its own |
| `TypeInline.SubstDefined` | src/pkg_scope.rs:335-370 | substitution gives up iff some bare reference finds no type, or dimensions meet an unpacked struct or another type that takes none |
| `TypeInline.BindParams` | src/pkg_scope.rs:555-606 | for distinct parameters, each value parameter is bound to the last nonempty argument by its name, else the one in its place, else its default; type parameters likewise, a default under the earlier bindings |
| `TypeInline.GivenExactly` | src/pkg_scope.rs:564-579 | a name is given a value iff it is that of the last nonempty argument by the name or, without one, of the last positional one in its place |
| `TypeInline.ArgumentTypes` | src/pkg_scope.rs:483-552 | keyword arguments are the types they name with their widths, other names refer to types, parentheses do not matter, other expressions are no types |
| `TypeInline.BindingSound` | src/pkg_scope.rs:555-606 | for well-formed headers the bindings mean outside what the parameters mean inside the class |
| `TypeInline.ClassChainType` | src/pkg_scope.rs:1688-1720 | finds the nearest declaring class within 64 bases and rewrites its type for the deriving class; missing only when none is that near |
| `TypeInline.DeclaresIff` | src/pkg_scope.rs:1688-1720 | a class declares its typedefs, inlined or not, and its parameters |
| `TypeInline.ChainWidth` | src/pkg_scope.rs:1688-1720 | along any chain of bases the rewritten type has the width the typedef has in the base under the bound parameters |
| `TypeInline.DefaultExactIff` | src/pkg_scope.rs:598-602 | bound as written, a value default has in any deriving class the value it has in the header when every earlier parameter its evaluation reads has its value there; where the header's parameters are not visible, exactly when it has no value in the header or reads none of them |
| `TypeInline.DefaultCaptured` | src/pkg_scope.rs:598-602 | a deriving class with a name of its own equal to a header parameter gives the default another value |
| `TypeInline.FreeNameCaptured` | src/pkg_scope.rs:1688-1720 | a name free in the base class and redeclared below changes the width of the inlined typedef |
| `TypeInline.DefaultNotSubstituted` | src/pkg_scope.rs:598-602 | a default that names an earlier parameter loses the width of a typedef |

## Left out

- Real values and fill literals: the `is_real` and `is_fill` flags and every path they select (IEEE 754 arithmetic, real formatting, whole-array reals).
- The `X_LITERAL_TO_ZERO` switch, hexadecimal, octal and string conversions, indexed signed selects, and in-place single-bit setters beside the ones the modelled operations use: they add only easy members.
- Zero-width values with stray unknown bits in storage, which `is_equal` tolerates: well-formed values have none.
- Wide constructors are built from words directly, not through an intermediate bit vector.
- `TwoState` addition of widths near the 32-bit limit: `width + 1` and the sum of concatenated widths do not wrap in the model.
- Threads, clocks, `Arc` and `Weak` are nondeterministic steps, a `stale` flag, and an explicit set of live allocations; writes to the file do not fail.
- The text of trace slots is a parameter of the dump sink, and real-valued changes are not rendered.
- Latin-1 encoding of simulation text before it reaches the standard-output sink.
- `PkgScope` covers packages, `$unit`, modules, imports and exports of type names; enum members and values follow the same search and are not repeated. Class scopes, hidden module classes and the statement, constraint and coverage walk are not modelled.
- Mutation of syntax trees in place: `TypeInline` and `PkgScope` return rewritten names and types.
- `TypeInline` leaves out unpacked dimensions, and covers the operators of constant expressions by a representative set.
- ClassChainType: takes a base class by its resolved key; resolving a base class name is not part of this model.
- ChainWidth: needs every name free in a class on the chain to be a parameter of it or a name no class of the chain redeclares, and value defaults to be closed; `FreeNameCaptured` shows what happens without the first, and `DefaultExactIff`, `DefaultNotSubstituted` and `DefaultCaptured` are about the second.
- MeaningPreserved: needs each package that a scope around the reference imports the referenced name from to denote one declaration by it, within nine packages; the standard requires the first, the search depth the second. Other names and other packages may be ambiguous.
- ConcatRefs: the widths of the operands sum to less than 2^32, because the source adds them as `u32` (src/value.rs:3976), where a larger sum wraps or aborts by build mode.
- Replicate: the same for sources wider than 64 bits, which are concatenated; up to 64 bits every count is covered.
- PackThenSlice: the same for the packed elements.
- Refinement: needs one record kind per sink, as the sink's documentation asks of its callers; `MixedExact` covers the other histories.
- Floating-point scalars of the canonical encoding are taken by their bits, so 0.0 and -0.0 are different values with different keys.
- Collecting the instantiated names of a definition, reading and parsing library files, origins, diagnostics and progress output: a library file is the list of definitions it holds.
- Array parameters given by patterns or element by element; only the packed transport is modelled.
- Artifact reading and writing, compression, the command line, `src/upf.rs`, `src/packed_value.rs`, `src/ast_intern.rs`, and the rest of elaboration: input and output plumbing or easy members.
