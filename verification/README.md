# Verified models of TiFlash's vendored low-level libraries

TiFlash builds in several small libraries whose correctness rests on exact arithmetic, on pointer
structures or on buffer bookkeeping. This project models six of them in Dafny and proves what they
promise, for all inputs and for whole runs of operations.

- **libdivide** replaces division by a multiply, a shift and sometimes an add. `Words` and `Bits`
  hold words as natural numbers with explicit wrap-around and the bit operators on them.
  `WideArithmetic`, `WideDivision` and `DoubleDivision` are the portable double-word routines: high
  halves of products, leading zeros, Knuth's division of a double word by a word, and the division
  of a double word by a double word. `MagicNumbers`, `UnsignedDivider` and `SignedDivider` are the
  generators, the division and recovery functions of all eight divider kinds; the word width is a
  parameter whose instances are 32 and 64. `VectorLanes` is one lane of the AVX2 signed 64-bit
  division.
- **btrie** is a mutable binary radix tree over address prefixes with a page pool and a free list.
  `Btrie` models nodes and tree as objects with the source's fields; ghost maps tie them to a flat
  map from bit prefixes to values. `BtrieHistory` runs whole histories of operations.
- **fastpforlib** packs 32 values of 8, 16, 32 or 64 bits into as few bits as asked. `Digits` reads
  a word buffer as one number; `BitPacking`, `BitUnpacking` and `FastPack` are the lane steps, the
  unrolled blocks, the special-case loops and the entry points. The template recursion over the lane
  index is a loop.
- **libmemcpy**'s `inline_memcpy` (`Memcpy`): overlapping moves, alignment, the unrolled loop, the
  backward jump.
- **cpptoml**: `TomlString` is the string writer and reader, and `TomlGrammar` says of the characters
  alone which texts are accepted and what they mean. `TomlOffset` is the printed form of zone offsets.
  `TomlTables` builds the table tree from headers and key/value lines, and `TomlAcceptance` says of the
  places of the tree alone which lines are accepted and what they change.
- **FarmHash**: `FarmHash` is `farmhashna::Hash64` with its seeded forms, and `FarmHashInverse` undoes
  its mixers, its turns and its paths, and derives which strings cannot collide.

Integers are unbounded in the model, so every truncation of the source is written out as `Wrap` or
`Shl`. Shifts and masks are defined on natural numbers, not on bit vectors. Exceptions and aborts of
the source are results: `Aborted`, `Rejected`, `Failed`, or `false`.

Where the code and a promise part ways, the code is modelled and the exact condition is proved:

- signed division meets truncated division exactly when the pair is not (MIN, -1)
  (`SignedDivider.DividesIffRepresentable`);
- deleting a prefix follows a null parent exactly when the prefix is empty and nothing else is
  stored (`Btrie.Trie.NullParentIff`, and the `fault` result of `Delete4` and `Delete6`);
  `BtrieHistory.EmptyPrefixAloneFaults` is the shortest such history, 0/0 inserted and then deleted;
- inserting the null value leaves a leaf without value exactly when the prefix was not a node
  (`Btrie.Trie.Insert4`, `Btrie.Trie.Insert6`);
- writing and reading back a string returns it exactly when the string has no control byte other
  than `\b \t \n \f \r` (`TomlString.RoundTripIff`); the `\u` form of the others is not padded to
  four digits, and `TomlString.BareByteMisread` shows one that is accepted as another character;
- a Unicode escape decodes to the UTF-8 of section 3 of RFC 3629 exactly when the code point is not
  a three-byte one with bit 11 set (`TomlString.UnicodeIsUtf8Iff`), because the middle byte is
  masked with five bits; `TomlGrammar.UnicodeEscape` says what every spelling of every number is read
  as, and `TomlString.EscapeOf0800Misread` shows the first escape that loses its bit;
- printing and reading a zone offset agree exactly when both fields have at most two digits and the
  minute has the sign of the hour, a zero hour counting as negative (`TomlOffset.RoundTripIff`);
  `TomlOffset.HalfHourEast` shows +00:30 read back as -00:30.

## Model

| member | source | states |
|---|---|---|
| `WideArithmetic.MulHighUnsignedExact` | contrib/libdivide/libdivide.h:240-264 | the four-product form of the unsigned high product never overflows and is floor(x·y / 2^W) |
| `WideArithmetic.MulHighSignedExact` | contrib/libdivide/libdivide.h:266-286 | the signed form is floor(x·y / 2^W), and every product and sum it forms stays in the signed range |
| `WideArithmetic.CountLeadingZeros` | contrib/libdivide/libdivide.h:288-312 | the byte-then-bit mask loops end with the number of leading zeros, also for 0 |
| `WideArithmetic.CountLeadingZerosDouble` | contrib/libdivide/libdivide.h:314-330 | the two-half form counts the leading zeros of the double word |
| `WideDivision.QuotientDigit` | contrib/libdivide/libdivide.h:406-414 | the corrected estimate is the exact quotient digit and its loop runs at most twice |
| `WideDivision.DivideStep` | contrib/libdivide/libdivide.h:406-429 | the wrapped partial remainder of a digit equals the true one |
| `WideDivision.DivideDoubleBySingle` | contrib/libdivide/libdivide.h:352-432 | for u1 < v exactly the quotient and remainder of u1·2^W+u0 by v, for u1 >= v both saturate |
| `WideDivision.ShiftDouble` | contrib/libdivide/libdivide.h:434-447 | the pair shift multiplies modulo the double word, or divides, by 2^s |
| `DoubleDivision.EstimateAtMostOneTooLarge` | contrib/libdivide/libdivide.h:484-501 | rounding the normalized divisor down to its top word raises the quotient by at most one |
| `DoubleDivision.EstimateQuotient` | contrib/libdivide/libdivide.h:480-501 | the estimate over hi/lo pairs is the quotient or one more |
| `DoubleDivision.LowerQuotient` | contrib/libdivide/libdivide.h:503-508 | after the decrement the estimate fits one word and is exact or one too small |
| `DoubleDivision.SubtractProduct` | contrib/libdivide/libdivide.h:510-525 | product and borrow over hi/lo pairs give the exact difference |
| `DoubleDivision.CorrectEstimate` | contrib/libdivide/libdivide.h:503-545 | one correction suffices for the exact quotient and double-word remainder |
| `DoubleDivision.DivideDoubleByDouble` | contrib/libdivide/libdivide.h:449-545 | whenever the quotient fits a word: exact quotient and 128-bit remainder |
| `MagicNumbers.MagicQuotient` | contrib/libdivide/libdivide.h:549-597 | a multiplier whose excess is small enough turns multiply-and-drop into floor division |
| `MagicNumbers.DoubledMagicExact` | contrib/libdivide/libdivide.h:578-588 | doubling quotient and remainder with wrapping and the overflow-aware test divides twice the dividend |
| `UnsignedDivider.GenShape` | contrib/libdivide/libdivide.h:549-609 | the generator aborts never for d != 0, is a pure shift for powers of two, else a sound W- or (W+1)-bit magic number |
| `UnsignedDivider.AbortsIff` | contrib/libdivide/libdivide.h:549-609 | the generator aborts exactly for zero, the branch-free one exactly for zero and one |
| `UnsignedDivider.DoIsDivision` | contrib/libdivide/libdivide.h:613-628 | for every d != 0 and n, dividing with the generated divider is floor(n/d) on all three paths |
| `UnsignedDivider.BranchfreeDoIsDivision` | contrib/libdivide/libdivide.h:630-635 | for every d >= 2 and n the branch-free form is floor(n/d) |
| `UnsignedDivider.MagicZeroIffPowerOfTwo` | contrib/libdivide/libdivide.h:706-756 | the magic number is zero exactly for powers of two |
| `UnsignedDivider.RecoverInvertsGen` | contrib/libdivide/libdivide.h:637-673 | recovery returns the divisor, including divisors with a (W+1)-bit magic number |
| `UnsignedDivider.BranchfreeRecoverInvertsGen` | contrib/libdivide/libdivide.h:675-702 | the same for branch-free dividers of d >= 2 |
| `UnsignedDivider.EqualDividersIffEqualDivisors` | contrib/libdivide/libdivide.h:2367-2369 | two dividers compare equal exactly when their divisors are equal |
| `UnsignedDivider.ComputeGen64` | contrib/libdivide/libdivide.h:706-756 | the 64-bit generator with its counting and dividing loops computes the modelled generator, abort included |
| `UnsignedDivider.ComputeRecoverLarge64` | contrib/libdivide/libdivide.h:808-837 | the 65-bit case over hi/lo pairs, with doubled quotient and remainder, computes the modelled recovery |
| `UnsignedDivider.ComputeRecover64` | contrib/libdivide/libdivide.h:796-873 | both 64-bit recoveries with their wide divisions compute the modelled ones |
| `SignedDivider.GenShape` | contrib/libdivide/libdivide.h:877-950 | shift exactly for plus or minus a power of two, else a sound magic number, negated only in the branching form |
| `SignedDivider.AbortsIff` | contrib/libdivide/libdivide.h:877-950 | both signed generators abort exactly for zero |
| `SignedDivider.SignedMagicQuotient` | contrib/libdivide/libdivide.h:952-978 | the floored product is the truncated quotient, one less for a negative numerator |
| `SignedDivider.DoIsTruncatedDivision` | contrib/libdivide/libdivide.h:952-978 | division truncated toward zero for every pair but (MIN, -1), d = MIN included |
| `SignedDivider.BranchfreeDoIsTruncatedDivision` | contrib/libdivide/libdivide.h:1149-1171 | the branch-free form with un-negated magic gives the same quotient |
| `SignedDivider.DividesIffRepresentable` | contrib/libdivide/libdivide.h:1120-1171 | both forms meet truncated division if and only if the pair is not (MIN, -1) |
| `SignedDivider.RecoverInvertsGen` | contrib/libdivide/libdivide.h:1004-1041 | recovery returns the divisor for both strategies and both signs |
| `SignedDivider.EqualDividersIffEqualDivisors` | contrib/libdivide/libdivide.h:2367-2369 | signed dividers compare equal exactly when their divisors are equal |
| `SignedDivider.ComputeGen64` | contrib/libdivide/libdivide.h:1045-1108 | the 64-bit signed generator with its counting and dividing loops computes the modelled generator, abort included |
| `SignedDivider.ComputeRecover64` | contrib/libdivide/libdivide.h:1173-1201 | the 64-bit signed recovery of both strategies with its wide division computes the modelled one |
| `VectorLanes.ShiftRightIs` | contrib/libdivide/libdivide.h:1742-1749 | the shift emulated by xor and subtract is the arithmetic shift |
| `VectorLanes.MulHighIs` | contrib/libdivide/libdivide.h:1769-1790 | the lane product of 32-bit halves is the unsigned high half |
| `VectorLanes.SignedMulHighIs` | contrib/libdivide/libdivide.h:1792-1799 | the sign-corrected product is the signed high half |
| `VectorLanes.LaneEqualsScalar` | contrib/libdivide/libdivide.h:1910-1938 | for every lane value and every divider the AVX2 lane equals the scalar signed division |
| `Btrie.Trie.constructor` | contrib/libbtrie/src/btrie.c:38-63 | a new tree is valid and represents the empty map |
| `Btrie.Trie.Alloc` | contrib/libbtrie/src/btrie.c:8-35 | the head of the free list whenever there is one, and then no slot or page is taken; otherwise the next slot, and a new page exactly when the last one is used up; tree and entries untouched |
| `Btrie.Trie.Insert4` | contrib/libbtrie/src/btrie.c:95-157 | returns 0 exactly when the prefix had no value and then adds that one entry, otherwise changes nothing; the tree stays valid if and only if the value is not null or the prefix was a node; the slots ever used become the maximum of their old number and the number of tree nodes |
| `Btrie.Trie.Prune` | contrib/libbtrie/src/btrie.c:193-219 | unlinking removes exactly the dead chain: the tree stays the prefix closure and one entry goes |
| `Btrie.Trie.Delete4` | contrib/libbtrie/src/btrie.c:160-220 | faults exactly when the empty prefix is deleted while nothing else is stored; otherwise returns 0 exactly when the prefix was present and removes that one entry; no slot is taken or given up |
| `Btrie.Trie.NullParentIff` | contrib/libbtrie/src/btrie.c:193-197 | the unlink loop starts at a node without parent if and only if the empty prefix is deleted while nothing else is stored |
| `Btrie.Trie.RootIsLeaf` | contrib/libbtrie/src/btrie.c:184-191 | the root has no child if and only if nothing but the empty prefix is stored |
| `Btrie.Trie.Find4` | contrib/libbtrie/src/btrie.c:223-250 | the value of the longest stored prefix of the key, or null |
| `Btrie.Trie.Insert6` | contrib/libbtrie/src/btrie.c:253-333 | the byte-and-bit walk inserts into the same abstract map over 128 bits; the mask is never read past byte 15 |
| `Btrie.Trie.Delete6` | contrib/libbtrie/src/btrie.c:336-406 | the same for deletion |
| `Btrie.Trie.Find6` | contrib/libbtrie/src/btrie.c:409-443 | longest stored prefix of 128 bits, whatever byte lies beyond the key |
| `Btrie.Trie.SubtreeWeight` | contrib/libbtrie/src/btrie.c:65-76 | the number of tree nodes at or below a node |
| `Btrie.Trie.Count` | contrib/libbtrie/src/btrie.c:78-86 | the number of distinct prefixes of stored prefixes |
| `Btrie.Trie.Allocated` | contrib/libbtrie/src/btrie.c:88-92 | bytes of tree nodes, free nodes and the unused page tail together, which is 4096 times the pages that the slots ever used need |
| `Btrie.Trie.PagesAreNeeded` | contrib/libbtrie/src/btrie.c:19-32 | in every valid tree the number of pages is what the slots ever used need, and no more |
| `Btrie.Trie.UsedCount` | contrib/libbtrie/src/btrie.c:8-35 | the slots ever used number the tree nodes and the free nodes together |
| `Btrie.Trie.NodesArePrefixClosure` | contrib/libbtrie/src/btrie.c:132-156 | in every valid tree the nodes are exactly the prefixes of stored prefixes and the root |
| `Btrie.Trie.LinksInvert` | contrib/libbtrie/src/btrie.c:132-156 | parent links invert child links |
| `Btrie.Trie.FreeListIsSeparate` | contrib/libbtrie/src/btrie.c:193-219 | the free list has no repetition and shares no node with the tree |
| `Btrie.Trie.PoolIsPartitioned` | contrib/libbtrie/src/btrie.c:8-35 | the used slots are the tree nodes and the free nodes, disjointly, and their numbers + size/32 = 128·len |
| `Btrie.LongestFound` | contrib/libbtrie/src/btrie.c:223-250 | the reference lookup returns the entry of the longest prefix present |
| `Btrie.LongestAbsent` | contrib/libbtrie/src/btrie.c:223-250 | and null when no prefix is present |
| `BtrieHistory.Perform` | contrib/libbtrie/src/btrie.c:95-406 | one operation of either family is one step of the abstract map with the reply that step gives, or a fault that changes nothing |
| `BtrieHistory.Replay` | contrib/libbtrie/src/btrie.c:95-406 | every history runs to its end or to its first faulting delete; the tree represents the map reached, every reply was the abstract one, and the slots ever used are the largest number of tree nodes reached |
| `BtrieHistory.RunThenFind4` | contrib/libbtrie/src/btrie.c:95-250 | after every IPv4 history from an empty tree, lookup finds the longest stored prefix |
| `BtrieHistory.RunThenFind6` | contrib/libbtrie/src/btrie.c:253-443 | the same for IPv6 |
| `BtrieHistory.RunThenAllocated` | contrib/libbtrie/src/btrie.c:8-92 | after every history from an empty tree btrie_allocated is 4096 times the pages needed for the largest number of nodes the tree had on the way |
| `BtrieHistory.EmptyPrefixAloneFaults` | contrib/libbtrie/src/btrie.c:193-194 | inserting the empty prefix alone and deleting it faults |
| `BtrieHistory.InsertThenDelete` | contrib/libbtrie/src/btrie.c:95-220 | deleting a prefix just inserted restores the contents and the very set of tree nodes |
| `BtrieHistory.FindAround` | contrib/libbtrie/src/btrie.c:95-250 | an operation on a prefix the key does not start with changes no lookup of that key |
| `BtrieHistory.LookupUnchanged` | contrib/libbtrie/src/btrie.c:223-250 | the same for the reference lookup on any map |
| `BitPacking.PackSingle` | contrib/fastpforlib/bitpacking.cpp:59-78 | a lane's low D bits are appended to the bits packed so far, in one word or across two, whatever the next word held |
| `BitPacking.PackSingle64` | contrib/fastpforlib/bitpacking.cpp:80-114 | the same for 64-bit values over one, two or three 32-bit words |
| `BitPacking.JoinChunks` | contrib/fastpforlib/bitpacking.cpp:69-114 | chunks written on both sides of a word boundary are one longer chunk |
| `BitPacking.PackLanes` | contrib/fastpforlib/bitpacking.cpp:115-202 | the block's words are the base-2^W digits of the sum of (v_i mod 2^D)·2^(i·D); nothing else is written |
| `BitPacking.PackLanes64` | contrib/fastpforlib/bitpacking.cpp:188-226 | the same for 64-bit values, with the two-word last lane |
| `BitPacking.PackWhole` | contrib/fastpforlib/bitpacking.cpp:817-820 | the full-width copy is the packing at that width |
| `BitPacking.PackWhole64` | contrib/fastpforlib/bitpacking.cpp:1277-1282 | low and high words in turn are the packing at width 64 |
| `BitUnpacking.UnpackSingleIsField` | contrib/fastpforlib/bitpacking.cpp:9-25 | the value read is the D-bit field at the lane's bit, and the word pointer ends at its last bit |
| `BitUnpacking.UnpackSingle64IsField` | contrib/fastpforlib/bitpacking.cpp:27-57 | the same for 64-bit values over up to three words |
| `BitUnpacking.UnpackLanes` | contrib/fastpforlib/bitpacking.cpp:115-218 | lane j of the block is the D-bit field at j·D |
| `BitUnpacking.UnpackLanes64` | contrib/fastpforlib/bitpacking.cpp:169-218 | the same into 64-bit values |
| `BitUnpacking.UnpackAligned` | contrib/fastpforlib/bitpacking.cpp:271-277 | the nested loops for widths that divide the word read the same fields |
| `BitUnpacking.UnpackWhole64` | contrib/fastpforlib/bitpacking.cpp:780-785 | two words per value are the fields of width 64 |
| `BitUnpacking.UnpackZero` | contrib/fastpforlib/bitpacking.cpp:228-247 | width zero yields zeros |
| `BitUnpacking.FieldsRebuild` | contrib/fastpforlib/bitpacking.cpp:115-226 | the fields of a number below a bit rebuild its low bits |
| `FastPack.Pack` | contrib/fastpforlib/bitpackinghelpers.h:559-571 | four quarters, two halves or one block, each packed at its stride; a width above the element is refused |
| `FastPack.Unpack` | contrib/fastpforlib/bitpackinghelpers.h:227-239 | the same for unpacking |
| `FastPack.Pack64` | contrib/fastpforlib/bitpackinghelpers.h:684-886 | 64-bit values at every width up to 64, refusal above |
| `FastPack.Unpack64` | contrib/fastpforlib/bitpackinghelpers.h:352-557 | the same for unpacking |
| `FastPack.UnpackInvertsPack` | contrib/fastpforlib/bitpackinghelpers.h:227-239 | unpacking a packing returns v_i mod 2^bit in every lane, for 8-, 16- and 32-bit values at every width |
| `FastPack.PackThenUnpack` | contrib/fastpforlib/bitpackinghelpers.h:559-571 | packing into any buffer and unpacking from it gives v_i mod 2^bit, or refuses the width |
| `FastPack.PackThenUnpack64` | contrib/fastpforlib/bitpackinghelpers.h:684-886 | the same for 64-bit values |
| `FastPack.LosslessIfNarrow` | contrib/fastpforlib/bitpackinghelpers.h:559-571 | the values come back unchanged if and only if all are below 2^bit |
| `FastPack.PackInvertsUnpack` | contrib/fastpforlib/bitpackinghelpers.h:559-571 | packing an unpacking returns every word |
| `FastPack.UnpackInvertsPack64` | contrib/fastpforlib/bitpackinghelpers.h:352-557 | the round trip for 64-bit values |
| `FastPack.PackInvertsUnpack64` | contrib/fastpforlib/bitpackinghelpers.h:684-886 | the opposite round trip for 64-bit values |
| `Memcpy.Copy` | libs/libmemcpy/memcpy.h:116-233 | for every size and alignment the destination range equals the source range, no other byte changes, dst is returned, and the jump is taken once exactly for sizes above 128 |
| `Memcpy.CopySmall` | libs/libmemcpy/memcpy.h:135-161 | tail-then-head moves cover 0 to 16 bytes |
| `Memcpy.CopyMedium` | libs/libmemcpy/memcpy.h:165-182 | the last 16 bytes and then 16 at a time cover up to 128 bytes |
| `Memcpy.Align` | libs/libmemcpy/memcpy.h:187-197 | after the padding move the destination address is a multiple of 16 and nothing was skipped |
| `Memcpy.Copy128` | libs/libmemcpy/memcpy.h:204-226 | eight stores, each at a 16-byte aligned address, copy 128 bytes |
| `Memcpy.CopyLarge` | libs/libmemcpy/memcpy.h:183-230 | aligns, copies 128 bytes at a time and leaves fewer than 128 |
| `TomlString.EscapeString` | contrib/cpptoml/cpptoml.h:3472-3518 | the writer's loop produces the escaped text byte by byte |
| `TomlString.StringLiteral` | contrib/cpptoml/cpptoml.h:2539-2564 | the reader's loop accepts exactly the texts the reading function accepts, with its value and end position |
| `TomlString.ParseEscapeCode` | contrib/cpptoml/cpptoml.h:2566-2611 | the escape code's value and end position, or an error |
| `TomlString.ParseUnicode` | contrib/cpptoml/cpptoml.h:2613-2674 | four or eight digits, scalar values only, and the bytes they stand for |
| `TomlString.ParseHex` | contrib/cpptoml/cpptoml.h:2676-2693 | accepts exactly when all digits are there, and returns their value |
| `TomlString.SkipsLeadingBlanks` | contrib/cpptoml/cpptoml.h:3196-3201 | exactly the leading blanks are consumed |
| `TomlString.RoundTripIff` | contrib/cpptoml/cpptoml.h:3472-3529 | reading the quoted output returns the string and stops after the quote and blanks if and only if there is no control byte other than \b \t \n \f \r |
| `TomlString.NeverLonger` | contrib/cpptoml/cpptoml.h:2539-2611 | reading written text never yields more bytes than the string had |
| `TomlString.BareStep` | contrib/cpptoml/cpptoml.h:3505-3510 | an unpadded \u fails or swallows the next bytes of the string as digits |
| `TomlString.EscapedInjective` | contrib/cpptoml/cpptoml.h:3472-3518 | strings that round-trip are written differently unless equal |
| `TomlString.BareByteMisread` | contrib/cpptoml/cpptoml.h:3505-3510 | the bytes 01 "234" are written, accepted and read as U+1234 |
| `TomlString.UnicodeIsUtf8Iff` | contrib/cpptoml/cpptoml.h:2625-2673 | a Unicode escape gives the UTF-8 bytes if and only if the code point is not a three-byte one with bit 11 set |
| `TomlString.EscapeOf0800Misread` | contrib/cpptoml/cpptoml.h:2648-2659 | the escape of U+0800 decodes to e0 80 80 where UTF-8 has e0 a0 80 |
| `TomlGrammar.HexNumberIff` | contrib/cpptoml/cpptoml.h:2676-2702 | the reader takes characters for a number if and only if they spell it in base 16, each digit in upper or lower case |
| `TomlGrammar.UnicodeEscape` | contrib/cpptoml/cpptoml.h:2613-2702 | every spelling of every number after \u (four digits) or \U (eight), before any text: refused if and only if the number is no scalar value, UTF-8 if and only if it is not a three-byte code point with bit 11 set, and otherwise those bytes without that bit |
| `TomlGrammar.UnicodeEscapeIff` | contrib/cpptoml/cpptoml.h:2613-2702 | after \u or \U nothing but a spelled scalar value is accepted |
| `TomlGrammar.BasicStringIff` | contrib/cpptoml/cpptoml.h:2539-2702 | a basic string is accepted if and only if it is raw characters, the seven short escapes and Unicode escapes up to a closing quote, and its value is their meanings in order |
| `TomlGrammar.LiteralStringIff` | contrib/cpptoml/cpptoml.h:2539-2564 | with any other delimiter the value is the text up to its first occurrence, unescaped |
| `TomlGrammar.BareByteWritten` | contrib/cpptoml/cpptoml.h:3505-3510 | a control byte without a short escape is written as \u and its shortest lower-case spelling |
| `TomlOffset.EatDigits` | contrib/cpptoml/cpptoml.h:1845-1855 | accepts exactly when all digits are there, and returns their value |
| `TomlOffset.ParseOffset` | contrib/cpptoml/cpptoml.h:3021-3043 | the end of a date is an offset, nothing, or malformed, as the reading function says |
| `TomlOffset.RoundTripIff` | contrib/cpptoml/cpptoml.h:251-277 | reading a printed offset returns it if and only if both fields have at most two digits and the minute has the printed sign |
| `TomlOffset.HalfHourEast` | contrib/cpptoml/cpptoml.h:258-270 | zero hours and thirty minutes are printed and read as minus thirty minutes |
| `TomlOffset.ReadIff` | contrib/cpptoml/cpptoml.h:3021-3043 | an offset is read if and only if the text is a sign, two digits, a colon and two digits, the sign counting for both, or a Z for zero; no text means no offset |
| `TomlTables.EnterIsGood` | contrib/cpptoml/cpptoml.h:2000-2034 | a header part moves into a table or a last row, or creates a table; no leaf changes |
| `TomlTables.BackExists` | contrib/cpptoml/cpptoml.h:2016-2022 | whenever the last row of a table array is taken there is one |
| `TomlTables.SingleTableKeepsLeaves` | contrib/cpptoml/cpptoml.h:1986-2074 | an accepted table header changes no leaf and ends in the table its keys spell |
| `TomlTables.TableArrayKeepsLeaves` | contrib/cpptoml/cpptoml.h:2076-2178 | an accepted array header changes no leaf and ends in a new empty last row |
| `TomlTables.KeyValueAddsLeaves` | contrib/cpptoml/cpptoml.h:2180-2221 | an accepted key/value line adds its value's leaves at its key, where none was, and changes no other leaf |
| `TomlTables.KeyValueKeepsShape` | contrib/cpptoml/cpptoml.h:2180-2221 | every table array keeps a row, and the containers around the current table keep their kind and rows |
| `TomlTables.BuildLeaves` | contrib/cpptoml/cpptoml.h:3127-3179 | inline tables and arrays of them have exactly the leaves their text gives |
| `TomlTables.ParseObjectArray` | contrib/cpptoml/cpptoml.h:3127-3152 | an array of inline tables is built row by row and is never empty |
| `TomlTables.RunLeaves` | contrib/cpptoml/cpptoml.h:1932-1959 | along every accepted run a leaf is present if and only if it was present before or a line wrote it: nothing overwritten, removed or invented |
| `TomlTables.DocumentLeaves` | contrib/cpptoml/cpptoml.h:1932-1959 | the leaves of a parsed document are exactly those its key/value lines wrote, each at its place |
| `TomlTables.LeavesSurvive` | contrib/cpptoml/cpptoml.h:1932-1959 | once defined, a leaf stays through every accepted continuation |
| `TomlTables.Run` | contrib/cpptoml/cpptoml.h:1932-1959 | every accepted run ends in a tree whose table arrays all have rows, with the current table in the last rows around it |
| `TomlTables.Parser.ParseSingleTable` | contrib/cpptoml/cpptoml.h:1986-2074 | the loop over key parts accepts and updates as the header function says, redefinition check included |
| `TomlTables.Parser.ParseTableArray` | contrib/cpptoml/cpptoml.h:2076-2178 | the same for array headers |
| `TomlTables.ParseKeyValue` | contrib/cpptoml/cpptoml.h:2180-2221 | the loop over dotted parts computes the key/value function |
| `TomlTables.Parser.Parse` | contrib/cpptoml/cpptoml.h:1932-1959 | the parse loop computes the run |
| `TomlAcceptance.TableHeaderIff` | contrib/cpptoml/cpptoml.h:1986-2074 | a table header is accepted if and only if it has keys, none of them empty, no prefix of them leads through last rows to a leaf, and they lead to no table that is empty or holds a scalar |
| `TomlAcceptance.ArrayHeaderIff` | contrib/cpptoml/cpptoml.h:2076-2178 | an array header is accepted if and only if it has keys, none of them empty, no proper prefix of them leads to a leaf, and the last key is free or a table array that was not written inline |
| `TomlAcceptance.SingleTableGrows` | contrib/cpptoml/cpptoml.h:1986-2074 | an accepted table header adds at most empty tables on the way to the place it moves to; every other place keeps its kind and rows |
| `TomlAcceptance.TableArrayOpens` | contrib/cpptoml/cpptoml.h:2076-2178 | an accepted array header does the same and appends one empty row to the table array it moves to |
| `TomlAcceptance.KeyValueIff` | contrib/cpptoml/cpptoml.h:2180-2221 | a key/value line is accepted into a table if and only if it has a key, its value is accepted, its last key is free and the keys before it lead to tables or to nothing |
| `TomlAcceptance.KeyValuePuts` | contrib/cpptoml/cpptoml.h:2180-2221 | after it every place below its key is what the built value has there, missing tables on the way exist, and every other place keeps its kind and rows |
| `TomlAcceptance.BuildIff` | contrib/cpptoml/cpptoml.h:3127-3179 | a value is accepted if and only if, in every inline table of it, no key path is empty or clashes with an earlier one in the text |
| `TomlAcceptance.AssignmentIff` | contrib/cpptoml/cpptoml.h:2180-2221 | the same for a whole line in the current table, with the value judged by its text |
| `TomlAcceptance.LineDoes` | contrib/cpptoml/cpptoml.h:1932-2221 | what each kind of accepted line does to the tree and to the current place |
| `TomlAcceptance.InlineArrayIsClosed` | contrib/cpptoml/cpptoml.h:2108-2131 | an array header for a table array written as a value is rejected |
| `FarmHash.HashLen16Bijective` | contrib/libfarmhash/farmhash.cc:425-433 | for a fixed second word and odd multiplier the mixer is a bijection of 64-bit words, with an explicit inverse |
| `FarmHash.HashLen16Injective` | contrib/libfarmhash/farmhash.h:129-138 | two first words mix to the same hash exactly when they are equal |
| `FarmHash.ShiftMixInvolution` | contrib/libfarmhash/farmhash.cc:417-419 | the shift mix is its own inverse |
| `FarmHash.OddInverseWorks` | contrib/libfarmhash/farmhash.h:129-138 | every odd multiplier has an inverse modulo 2^W |
| `FarmHash.ComputeHash64` | contrib/libfarmhash/farmhash.cc:513-566 | the do-while loop with its swaps computes the recursive hash, reads only inside the string, and its last block starts 64 bytes before the end |
| `FarmHashInverse.FetchIsValue` | contrib/libfarmhash/farmhash.cc:192-202 | a load is the number its bytes are, lowest first |
| `FarmHashInverse.RotateIs` | contrib/libfarmhash/farmhash.cc:214-240 | a rotation by k is the word divided by 2^k with its low k bits on top |
| `FarmHashInverse.RotateUndone` | contrib/libfarmhash/farmhash.cc:214-240 | rotating by k and then by 64 - k restores a word |
| `FarmHashInverse.WeakHashBijective` | contrib/libfarmhash/farmhash.cc:474-483 | for fixed words the weak hash is a bijection of the seed pairs, with an explicit inverse |
| `FarmHashInverse.RoundUndone` | contrib/libfarmhash/farmhash.cc:538-547 | a turn of the long loop can be undone given the old y, and the new w holds the new y plus the word at 16 |
| `FarmHashInverse.RoundReads` | contrib/libfarmhash/farmhash.cc:538-547 | of the block, x reads nothing, z exactly the word at 8, and y exactly the words at 40 and 48 |
| `FarmHashInverse.RoundSums` | contrib/libfarmhash/farmhash.cc:538-547 | the first words of v and w add up the first and the last four words of the block |
| `FarmHashInverse.RoundReadsEveryWord` | contrib/libfarmhash/farmhash.cc:538-547 | from one state, blocks that differ in a single word always lead to different states |
| `FarmHashInverse.RoundsUndone` | contrib/libfarmhash/farmhash.cc:538-547 | every turn of the run over a string can be undone |
| `FarmHashInverse.ClosingUndone` | contrib/libfarmhash/farmhash.cc:551-562 | the closing turn over the last 64 bytes can be undone for every odd multiplier |
| `FarmHashInverse.MultiplierIs` | contrib/libfarmhash/farmhash.cc:549 | the closing multiplier is k1 plus twice the low byte of z, hence odd |
| `FarmHashInverse.CombineUndone` | contrib/libfarmhash/farmhash.cc:563-565 | two of the seven combined words can be computed from the hash and the others |
| `FarmHashInverse.LongHashUndone` | contrib/libfarmhash/farmhash.cc:513-566 | for every string over 64 bytes the hash and the closing state give back the state after the blocks |
| `FarmHashInverse.InitialState` | contrib/libfarmhash/farmhash.cc:527-532 | the loop starts from the fixed y and z with the first word in x |
| `FarmHashInverse.Hash1To3Undone` | contrib/libfarmhash/farmhash.cc:449-456 | for 1 to 3 bytes, the first and middle byte can be computed from the hash, the length and the last byte |
| `FarmHash.Hash4To7Undone` | contrib/libfarmhash/farmhash.cc:444-448 | for 4 to 7 bytes, the first four from the hash, the length and the last four |
| `FarmHashInverse.Hash8To16Undone` | contrib/libfarmhash/farmhash.cc:435-443 | for 8 to 16 bytes, the first word from the hash, the last word and the second argument of the last mix |
| `FarmHashInverse.NoCollision8To16` | contrib/libfarmhash/farmhash.cc:435-443 | for 8 to 16 bytes of one length and the same second argument, hashes agree exactly when the first arguments do, and strings with one end in common are equal |
| `FarmHashInverse.Hash17To32Undone` | contrib/libfarmhash/farmhash.cc:462-470 | for 17 to 32 bytes, the word 16 before the end from the hash and the other words |
| `FarmHashInverse.NoCollision17To32` | contrib/libfarmhash/farmhash.cc:462-470 | strings of 17 to 32 bytes of one length that agree in the first 16 and the last 8 bytes hash alike only if equal |
| `FarmHashInverse.Hash33To64Undone` | contrib/libfarmhash/farmhash.cc:497-511 | for 33 to 64 bytes, the word 24 before the end from the hash and the other words |
| `FarmHashInverse.NoCollision33To64` | contrib/libfarmhash/farmhash.cc:497-511 | strings of 33 to 64 bytes of one length that agree in the first 32 bytes and outside the word 24 before the end hash alike only if equal |
| `FarmHashInverse.SeedsUndone` | contrib/libfarmhash/farmhash.cc:570-576 | the plain hash can be computed from either seeded hash and its seeds |
| `FarmHash.SeedsKeepCollisions` | contrib/libfarmhash/farmhash.cc:574-576 | for fixed seeds the seeded hashes of two strings agree exactly when the unseeded ones do |
| `FarmHash.SeedKeepsCollisions` | contrib/libfarmhash/farmhash.cc:570-572 | the same for the one-seed form |
| `FarmHash.FirstSeedIsBijective` | contrib/libfarmhash/farmhash.cc:574-576 | for one string and second seed, distinct first seeds give distinct hashes |
| `FarmHash.NoCollision4To7` | contrib/libfarmhash/farmhash.cc:444-448 | strings of 4 to 7 bytes of one length with the same last four bytes hash alike only if equal |
| `FarmHash.NoCollision1To3` | contrib/libfarmhash/farmhash.cc:449-456 | strings of 1 to 3 bytes of one length with the same last byte hash alike only if equal |

## Left out

- libdivide's inline assembly, compiler builtins, 128-bit integer branches and vector code other than the AVX2 signed 64-bit lane: foreign operations; the portable branches are modelled.
- libdivide's branch-free unsigned divider of 1: the library refuses it, which is all that is stated of it.
- Btrie.Trie.Alloc: does not model allocation failure or the limit on pages; the pool is one growing sequence of nodes.
- Btrie.Trie.Insert4: mixing IPv4 and IPv6 in one tree is not modelled, and the operations are modelled on trees in which every leaf has a value.
- BtrieHistory.Replay: histories insert values other than the null value.
- BitPacking.PackSingle: shifts are taken before truncation to the word; the wider intermediate type of the source holds the same low bits.
- fastpforlib's dispatch switches are modelled by ranges of widths, since their cases differ only in the template argument.
- Memcpy.Copy128: the eight loads and stores are a loop; source and destination are distinct buffers as the source's restrict qualifiers demand.
- cpptoml's numbers, dates and times before the offset, multi-line strings, writer of tables, line splitting and key syntax: formats without state of their own.
- TomlOffset.ParseOffset: works on the text from the end of the time to the end of the date.
- TomlTables.Parser.Parse: works on lines whose keys are already split; scalars and plain arrays are opaque; shared pointers are places in a tree value, so aliasing is not modelled.
- FarmHash's other variants, 32- and 128-bit hashes and debug mode; nothing is claimed about hash quality.
- boringssl tables, libunwind headers, glibc shims, string dispatch, cityhash headers, dashboards and scripts: data, declarations or thin wrappers.
