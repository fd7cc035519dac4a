# Verified models of nftables' integer arithmetic, interval sets and evaluation helpers

nft keeps every address, mask and range bound as a multi-limb integer, merges and cuts
interval sets in userspace before it talks to the kernel, and rewrites header fields and
comparisons into what the kernel can execute.  This project models that code in Dafny and
proves what each part is for, for all inputs.

`dafny verify dfyconfig.toml` checks everything.

## What is modelled

**Multi-limb arithmetic** (src/mini-gmp.c, src/gmputil.c).  Limbs are 64-bit naturals in
arrays, written in place; `Val` is the number that little-endian limbs denote.

- Reciprocals and division: the half-limb reciprocal of `mpn_invert_3by2`, the two division
  steps built on it, schoolbook division with its single add-back, and the signed division of
  `mpz_div_qr` in three rounding modes, with results written over the operands or left out.
- Roots and gcd: Newton iteration with truncating division, binary gcd and binary extended gcd.
- `mpz_and`, `mpz_ior`, `mpz_xor`, `mpz_tstbit`: sign and magnitude against infinite two's complement.
- Text: `mpz_get_str`, `mpz_set_str`, `mpz_sizeinbase`, on the bit path and on the division path.
- Bytes: `mpz_import`, `mpz_export` for every word size, word order and byte order.

**Interval sets** (src/intervals.c, src/mergesort.c, include/list.h).  A list of elements
denotes the set of numbers in its ranges (`Den`).  The merge sort is proved twice: on
sequences (sorted, same elements, stable) and on linked nodes relinked in place, which end
in exactly the order of the sequence version.  Adding, deleting, overlap detection and the lowering
to boundaries are stated against the denotation and against the kernel's elements, counted with multiplicity.

**Evaluation helpers**: bit-field loads and stores and the right-shift transfer
(src/evaluate.c), the full-dump protocol of the ruleset cache (src/cache.c), the time
printer and parser (src/datatype.c), collapsing of element commands (src/cmd.c).

## Results about the code that differ from what one might expect

- `mpn_invert_3by2`: its last comparison may as well be `>=`; the case in which the two differ
  cannot occur, because no divisor in range divides B^3 (`Invert.NeverMinusOne`).
- `mpz_gcdext`: the comment at src/mini-gmp.c:2977 bounds the cofactor s by u, but s is small compared to v:
  2g|s| <= |v| always, and strictly exactly if |v| is not 2g; the same for t and u when the operands were
  exchanged (`GcdExt.Gcdext`).  The bound as announced follows if |v| <= |u| (`GcdExt.AnnouncedHolds`) and no
  cofactor meets it for u = 2, v = 5 (`GcdExt.AnnouncedFails`).
- `time_parse` reads back what `time_print` wrote exactly if there are fewer than 10^8 days; from
  then on it reports a value that is too large (`TimeText.TimePrint`).  It also accepts and ignores digits
  after the last unit, and units without a number (`TimeGrammar.OneMeaning`).
- A prefix key alone would be lowered to all its numbers exactly if its base has no host bits
  (`Prefixes.PrefixExact`); evaluation clears them first, so that every evaluated prefix is lowered to all its
  numbers (`Prefixes.EvaluatedPrefix`).
- `nft_cache_is_updated` receives the generation id in 16 bits.  It recognises an unchanged or
  next generation exactly if the id is below 65536 (`CacheProtocol.ShortcutNeedsNarrowIds`), and
  accepts nothing else exactly if the id is below 65536 or its low half is zero (`CacheProtocol.ShortcutConfuses`);
  generation 65541 passes for generation 5 (`CacheProtocol.ConfusedIds`).
- `set_delete` leaves the cached list sorted without auto-merge.  With auto-merge it does so exactly if the last
  deletion took a whole remaining range, or cut the lowest one at one end, or split the only one
  (`SetDelete.SetDelete`, `ElementDelete.AfterSorted`).  Additions to a list of spaced ranges all do what they should
  exactly if it is sorted (`CacheOrder.CacheMustBeSorted`).  With 1-2 and 10-20, deleting 15 (`CacheOrder.SplitUnsorts`)
  and then adding 12 in the same batch purges 10-14 and turns 1-2 into 10-2 (`CacheOrder.SplitThenAdd`).
- A set defined with elements in the same batch is cached without EXPR_F_KERNEL on them.  Then `set_automerge`
  gets the element count right exactly if there is no such element (`SetAutomerge.SetAutomerge`,
  `SetAutomerge.UncountedElement`), and `set_delete` deletes everything it reports as deleted exactly if no such
  element is one of the merged ranges to delete (`SetDelete.SetDelete`, `SetDelete.IgnoredDeletion`).
- `set_overlap` also refuses when the cached list is out of order (`Overlap.SetOverlap`); a range listed twice passes,
  and is lowered to boundaries that mean the same but are not in order (`Boundaries.SetToIntervals`).
- `nft_cmd_uncollapse` brings the joined commands of a group back in reverse order (`Collapse.ReleasedGroup`).

## Assumptions

- Cached ranges are pairwise disjoint, and not adjacent in an auto-merge set.
- Kernel generation ids are not zero, fit in 32 bits and do not repeat within a run; such histories exist for any
  number of generations below 2^32 - 1 (`CacheProtocol.Histories`).
- Where the C code aborts (division by zero, an even root of a negative number, root 0) the methods have a precondition.
- Two numbers do not share a limb array unless they are the same number.

## Model

| member | source | states |
|---|---|---|
| `Reciprocal.Umul` | src/mini-gmp.c:114-137 | the two limbs are the exact product, although the half-limb sums carry |
| `Reciprocal.Udiv21` | src/mini-gmp.c:139-156 | with an exact reciprocal, one multiplication and two corrections give the exact quotient and remainder of two limbs by one |
| `Reciprocal.Udiv32` | src/mini-gmp.c:158-183 | the same for three limbs by two |
| `Invert.Invert32` | src/mini-gmp.c:735-839 | the result is floor((B^3-1)/(B*u1+u0)) - B for every u1 with its top bit set, and floor((B^2-1)/u1) - B when u0 is 0 |
| `Invert.NeverMinusOne` | src/mini-gmp.c:829-835 | the product of quotient and divisor is never exactly B^3, so the strict comparison loses nothing |
| `Mpn.AddN` | src/mini-gmp.c:415-433 | sum and carry out; the result may overwrite an operand; nothing else in the array changes |
| `Mpn.Mul1` | src/mini-gmp.c:499-520 | product by a limb, with the high limb returned |
| `Mpn.Add1` | src/mini-gmp.c:396-413 | adding a limb, with carry out |
| `Mpn.SubMul1` | src/mini-gmp.c:548-571 | subtracting a multiple in place, with the borrow limb returned |
| `Mpn.Lshift` | src/mini-gmp.c:609-637 | multiplication by a power of two, with the bits shifted out returned, also in place |
| `Mpn.Rshift` | src/mini-gmp.c:639-664 | the low limb returned and the shifted limbs together are the number times B over the power of two |
| `MpnSigned.NormalizedSize` | src/mini-gmp.c:375-381 | dropping high zero limbs keeps the value and leaves a nonzero top limb |
| `MpnSigned.Cmp` | src/mini-gmp.c:355-364 | comparing from the top limb compares the values |
| `MpnSigned.Cmp4` | src/mini-gmp.c:366-373 | the same for normalised numbers of different lengths |
| `MpnSigned.Add` | src/mini-gmp.c:434-445 | sum of numbers of different lengths |
| `MpnSigned.Sub` | src/mini-gmp.c:486-497 | difference of numbers of different lengths |
| `DivInverse.Clz` | src/mini-gmp.c:79-89 | shifting by the result sets the top bit and loses none |
| `DivInverse.Invert1` | src/mini-gmp.c:851-861 | shift, shifted divisor and its exact reciprocal |
| `DivInverse.InvertMany` | src/mini-gmp.c:863-911 | the same from the two top limbs of a longer divisor |
| `MpnDivision.SubtractMultiple` | src/mini-gmp.c:1080-1094 | after subtracting the estimated multiple the remainder is at least -D and below D: one add-back is always enough |
| `MpnDivision.StepMax` | src/mini-gmp.c:1072-1077 | the step whose top limbs equal the divisor's: the quotient limb is B-1 and no borrow is left |
| `MpnDivision.StepPi1` | src/mini-gmp.c:1068-1099 | one step divides exactly by D |
| `MpnDivision.DivQrPi1` | src/mini-gmp.c:1042-1103 | N = Q*D + R with R < D for every normalised divisor of more than two limbs, quotient kept or not |
| `MpnDivQr.Div1Preinv` | src/mini-gmp.c:915-946 | exact quotient and remainder of any limb array by one limb, also in place |
| `MpnDivQr.Div2Preinv` | src/mini-gmp.c:978-1028 | exact division by two limbs, remainder shifted back |
| `MpnDivQr.DivManyPreinv` | src/mini-gmp.c:1105-1137 | exact division by more limbs with the numerator shifted there and back |
| `MpnDivQr.DivQr` | src/mini-gmp.c:1139-1158 | N = Q*D + R with R < D for every divisor, the remainder replacing the numerator |
| `MpzNumbers.AddMpz` | src/mini-gmp.c:1989-2000 | exact signed sum, normalised, for operands that may be the result |
| `MpzNumbers.SubMpz` | src/mini-gmp.c:2002-2013 | exact signed difference |
| `MpzNumbers.AddUi` | src/mini-gmp.c:1915-1922 | exact signed sum with a limb |
| `MpzNumbers.SubUi` | src/mini-gmp.c:1924-1931 | exact signed difference with a limb |
| `MpzDivision.DivQrMpz` | src/mini-gmp.c:2171-2281 | quotient and remainder in each rounding mode for all signs, with results absent or written over the operands |
| `MpzDivision.DivisionUnique` | src/mini-gmp.c:2171-2281 | mode, dividend and divisor leave no choice of quotient and remainder |
| `MpzDivision.RoundingDirection` | src/mini-gmp.c:2171-2281 | floor rounds the exact quotient down, ceil up, trunc towards zero |
| `Root.RootRem` | src/mini-gmp.c:3214-3273 | floor root with the sign of the operand, and the exact remainder |
| `Root.MeanInequality` | src/mini-gmp.c:3244-3264 | the inequality of weighted means that keeps the iterates above the root |
| `Root.StepAbove` | src/mini-gmp.c:3244-3264 | a truncated Newton step from any start stays at or above the floor root |
| `Root.StepStops` | src/mini-gmp.c:3244-3264 | when the step no longer decreases, the iterate is the floor root |
| `Root.RootUnique` | src/mini-gmp.c:3214-3273 | there is only one floor root |
| `Gcd.Gcd11` | src/mini-gmp.c:2680-2720 | for any two limbs but two zeros: the divisors of the result are exactly the common divisors, and the last shift does not overflow |
| `Gcd.MpzGcd` | src/mini-gmp.c:2759-2818 | for all u and v of any sign: the divisors of the result are exactly the common divisors, and it is 0 only for two zeros |
| `Gcd.MpzGcdUi` | src/mini-gmp.c:2721-2742 | the same for one limb; the value returned is the divisor, but 0 when the limb is 0 |
| `Gcd.RestoreGcd` | src/mini-gmp.c:2776-2818 | putting back the smaller power of two turns the divisor of the odd parts into that of the numbers |
| `Gcd.ShiftAlike` | src/mini-gmp.c:2744-2755 | beside an odd number, mpz_make_odd changes no common divisor |
| `Gcd.CommonZeros` | src/mini-gmp.c:2691-2698 | shifting both limbs by the common trailing zeros loses no bit and leaves an odd one |
| `Gcd.SameAsExtended` | src/mini-gmp.c:2759-3001 | mpz_gcd and mpz_gcdext find the same divisor |
| `GcdExt.Gcdext` | src/mini-gmp.c:2821-3001 | g divides u and v and equals s*u + t*v; the cofactor of the operand divided first is at most half the other operand over g, and exactly half only if that is 1 |
| `GcdExt.CombinationIsGreatest` | src/mini-gmp.c:2821-3001 | a common divisor that is such a combination is divided by every common divisor |
| `GcdExt.HalfOnlyOfTwo` | src/mini-gmp.c:2977-2983 | the smaller cofactor reaches half the other quotient only if that quotient is two |
| `GcdExt.AnnouncedHolds` | src/mini-gmp.c:2977-2983 | the bound that the comment announces follows if v is not the larger operand |
| `GcdExt.AnnouncedFails` | src/mini-gmp.c:2977-2983 | for 2 and 5 no cofactor meets the announced bound |
| `GcdExt.Shift` | src/mini-gmp.c:2907-2950 | dividing out a power of two keeps both operands as combinations and multiplies the determinant |
| `GcdExt.Halve` | src/mini-gmp.c:2965-2982 | halving the cofactors power times keeps the identity and ends with a small one |
| `MpzBitwise.LowLimbs` | src/mini-gmp.c:3664-3680 | both operands converted, combined and converted back limb by limb; v's carry is spent when its limbs are |
| `MpzBitwise.HighLimbs` | src/mini-gmp.c:3682-3695 | past v's limbs its sign takes their place |
| `MpzBitwise.LogicBits` | src/mini-gmp.c:3630-3842 | the two's complement limbs determine every bit of the result, past its last limb too |
| `MpzBitwise.LogicalOp` | src/mini-gmp.c:3630-3842 | every bit of and, ior and xor is the operation on the operands' bits, for all signs; the result is normalised and may be an operand |
| `MpzBitwise.BitwiseUnique` | src/mini-gmp.c:3471-3494 | the bits determine the number |
| `MpzBitwise.TstBit` | src/mini-gmp.c:3495-3526 | the bit of the infinite two's complement |
| `MpnText.GetBaseInfo` | src/mini-gmp.c:1187-1200 | the largest power of the base that fits in a limb |
| `MpnText.NextDigit` | src/mini-gmp.c:1225-1237 | a digit that straddles two limbs is put together from both |
| `MpnText.GetStrBits` | src/mini-gmp.c:1212-1239 | the digits of the number in a power-of-two base, without a leading zero |
| `MpnText.LimbGetStr` | src/mini-gmp.c:1243-1262 | the digits of a limb, lowest first, by reciprocal division |
| `MpnText.GetStrOther` | src/mini-gmp.c:1264-1306 | the digits of the number in any base, without a leading zero |
| `MpnSetStr.SetStrBits` | src/mini-gmp.c:1328-1357 | the limbs have the value of the digits, which may straddle limbs, and are normalised |
| `MpnSetStr.SetStrOther` | src/mini-gmp.c:1361-1397 | the same by chunks of digits; the carries of product and sum fit one limb and the array suffices |
| `MpzText.SizeInBase` | src/mini-gmp.c:4005-4056 | the exact number of digits |
| `MpzText.MpzGetStr` | src/mini-gmp.c:4058-4121 | sign and digits of the number, terminated, inside the buffer, the caller's or a new one; no text above base 36 |
| `MpzText.MpzSetStr` | src/mini-gmp.c:4123-4225 | the number the text denotes, or 0 and a failure exactly for texts that denote none; the base by prefix if it is not given |
| `MpzText.TextRoundTrip` | src/mini-gmp.c:4058-4225 | every integer is read back from its text, in every base from 2 to 36 and both letter cases |
| `MpzText.PrefixRoundTrip` | src/mini-gmp.c:4137-4160 | without a given base, every integer is read back after 0x or 0X in base 16, 0b or 0B in base 2, 0 in base 8 and nothing in base 10, after a minus sign too |
| `MpzText.ReadableChars` | src/mini-gmp.c:4170-4197 | a text is refused exactly if it has a character that is neither white space nor a digit below the base, in either case of letters |
| `MpzText.SpaceIgnored` | src/mini-gmp.c:4134-4175 | white space counts for nothing |
| `MpzText.DigitChars` | src/mini-gmp.c:4066-4074 | the digits are the characters that the source lists |
| `Radix.LengthUnique` | src/mini-gmp.c:4005-4056 | a number has one digit count in a base |
| `MpzBytes.MpzImport` | src/mini-gmp.c:4257-4322 | the number of the bytes in order of significance, for every word size, word order and byte order |
| `MpzBytes.MpzExport` | src/mini-gmp.c:4325-4413 | the bytes of the magnitude in the fewest words, laid out in that order; nothing behind them changes |
| `MpzBytes.Partition` | src/mini-gmp.c:4257-4322 | every memory block of the right size is some list of words |
| `MpzBytes.MemoryByte` | src/mini-gmp.c:4257-4413 | which byte of the number lies where, for every word order and byte order |
| `GmpUtil.ExportData` | src/gmputil.c:90-111 | exactly len bytes, zero-padded, each the byte of the number with its weight in big-endian or host order |
| `GmpUtil.ImportData` | src/gmputil.c:113-132 | the number whose bytes are those of the data, in that order |
| `GmpUtil.RoundTrip` | src/gmputil.c:90-132 | importing what was exported gives the number back |
| `GmpUtil.SwitchByteorder` | src/gmputil.c:134-140 | byte reversal on a little-endian host, and no change on a big-endian one |
| `GmpUtil.SwitchedTwice` | src/gmputil.c:134-140 | byte reversal fits the same length and is its own inverse |
| `Sorting.ListSortCorrect` | src/mergesort.c:106-122 | sorted by key, same elements, and equal keys in their old order |
| `Sorting.SpliceStable` | src/mergesort.c:73-89 | among equal keys the spliced list's elements come first, each list's in order |
| `LinkedLists.ListCutPosition` | include/list.h:220-230 | two well-formed lists whose entries together are the old ones |
| `LinkedLists.InsertBefore` | include/list.h:53-61 | a well-formed list with the node before the given one, which may be the head |
| `MergeSort.ListCutMiddle` | src/mergesort.c:91-104 | both parts have at least one entry, and the first one half of them, rounded up |
| `MergeSort.ListSpliceSorted` | src/mergesort.c:73-89 | a well-formed list in merge order, although the nodes are never unlinked from the other list |
| `MergeSort.ListExprSort` | src/mergesort.c:106-122 | the same nodes in a well-formed list, sorted and stable |
| `Prefixes.RangeMatches` | src/intervals.c:18-66 | a key's range is the part of what it matches from its base on |
| `Prefixes.PrefixExact` | src/intervals.c:29-51 | a prefix is covered entirely if and only if its base has no host bits |
| `Prefixes.EvaluatedPrefix` | src/evaluate.c:1223-1275 | every prefix that evaluation accepts is lowered to exactly the numbers that agree with the base it was written with |
| `Automerge.CoveredKeeps` | src/intervals.c:85-95 | dropping a covered element keeps the denotation, the count and the kernel elements |
| `Automerge.UnionKeeps` | src/intervals.c:102-126 | joining two ranges keeps them too, and the kernel's one is purged with its old bounds |
| `Automerge.MergeCorrect` | src/intervals.c:148-202 | what the whole scan keeps, for every sorted list |
| `Automerge.SetelemAutomerge` | src/intervals.c:148-202 | for any list, the outcome of the scan as a function; for a sorted list: same numbers, neighbours at least two apart in an auto-merge set, count of new elements kept, every kernel element left or purged |
| `Displacement.MergeDisplaces` | src/intervals.c:148-202 | the scan purges exactly the kernel elements that another range overlaps, or in an auto-merge set touches, and reaches outside of; every range lies in one of those left; without auto-merge two neighbouring numbers are in one range exactly if they were before |
| `SetAutomerge.SetSortSplice` | src/intervals.c:128-146 | the list is the merge of cached and sorted new elements, and the cached list is empty |
| `SetAutomerge.SplicedFacts` | src/intervals.c:128-146 | nothing is lost, and the merged list is sorted exactly if the cached one was |
| `SetAutomerge.SetAutomerge` | src/intervals.c:233-283 | whatever is cached: elements to add, purge list and cache are those of one scan; from a sorted cache the new one is a sorted disjoint cover of old and new numbers that equals old kernel elements minus purged plus added ones; the count is exact if and only if every cached element is the kernel's; which elements are purged, which ranges are joined, and when nothing happens, in terms of the given ranges |
| `SetAutomerge.Addition` | src/intervals.c:128-202 | with auto-merge a kernel element is purged exactly if a number next to it is in the set, old or new; nothing is purged or added exactly if every new range lies in a cached one |
| `SetAutomerge.UncountedElement` | src/intervals.c:97-126 | a cached element without the kernel's flag that is added again but not counted |
| `CacheOrder.MergeNeedsOrder` | src/intervals.c:148-202 | merging spaced ranges keeps their numbers if and only if they are sorted |
| `CacheOrder.CacheMustBeSorted` | src/intervals.c:128-202 | all additions to a cache of spaced ranges do what they should if and only if it is sorted |
| `CacheOrder.SplitUnsorts` | src/intervals.c:333-357 | a split that leaves the list out of order |
| `CacheOrder.SplitThenAdd` | src/intervals.c:102-146 | an addition to that list loses numbers and inverts a range |
| `Remainders.DenCut` | src/intervals.c:295-380 | cutting a range out of one that contains it removes exactly its numbers |
| `Remainders.SpacedCut` | src/intervals.c:295-380 | the pieces stay apart from each other and from the other ranges |
| `Remainders.ExactIsKernel` | src/intervals.c:415-424 | a deletion equals an element the kernel does not know if and only if that one was cached so |
| `Remainders.RemainingStep` | src/intervals.c:382-447 | one deletion keeps what is known about ranges, purged elements and borders |
| `Remainders.PurgedExactly` | src/intervals.c:382-447 | a kernel element is purged if and only if a number of it is to be deleted |
| `ElementDelete.Placed` | src/intervals.c:464-473 | the stable sort puts the element to remove behind all others with its left bound |
| `ElementDelete.SetelemAdjust` | src/intervals.c:359-380 | the range is cut on the left, on the right or in the middle, or refused if it is not covered |
| `ElementDelete.SetelemDelete` | src/intervals.c:382-447 | exact match, cut or error, from the element listed before |
| `ElementDelete.Refused` | src/intervals.c:382-447 | a refused deletion names a number that is not there, or without auto-merge a range that is not |
| `ElementDelete.DeleteOne` | src/intervals.c:464-473 | one element is replaced by its pieces, or the deletion is not possible; the list ends sorted exactly if the pieces are in place |
| `ElementDelete.AfterSorted` | src/intervals.c:295-380 | a deletion leaves the sorted list sorted exactly if it takes a whole range, cuts the first one at one end or splits the only one |
| `SetDelete.AutomergeDelete` | src/intervals.c:449-462 | the ranges to delete end merged, with the same numbers |
| `SetDelete.SetDelete` | src/intervals.c:476-538 | success exactly if everything to delete is there; then the cache denotes the difference, except for cached elements without the kernel's flag that equal a merged range; each touched kernel element is purged once with its old bounds, old kernel elements minus purged plus added are the new list; when the list is left sorted |
| `SetDelete.EffectiveDen` | src/intervals.c:415-424 | everything named is deleted if and only if no cached element without the kernel's flag is one of the merged ranges |
| `SetDelete.OrderInNumbers` | src/intervals.c:295-380 | the condition on the order in terms of the numbers that remain |
| `SetDelete.IgnoredDeletion` | src/intervals.c:415-424 | a deletion that is accepted, changes nothing and adds the element again |
| `Overlap.SetelemOverlap` | src/intervals.c:540-610 | comparing neighbours finds every conflict, and refuses any list out of order |
| `Overlap.SetOverlap` | src/intervals.c:613-634 | accepted if and only if no two different ranges, new or in a usable cache, share a number and the cache is sorted; the cache takes the new elements either way |
| `Overlap.CompatibleIs` | src/intervals.c:540-610 | two ranges conflict exactly if they differ and have a number in common |
| `Overlap.AcceptedLowers` | src/intervals.c:540-610 | what overlap detection accepts is what set_to_intervals can lower |
| `Boundaries.Scan0IsAllOnes` | src/intervals.c:710-710 | the scan for a clear bit ends at the key length exactly for the greatest key |
| `Boundaries.SetToIntervals` | src/intervals.c:660-755 | the last boundary at or before a number is a start exactly if a range has the number; keys fit, and are ordered, strictly in anonymous sets, exactly if no range is listed twice; then the boundaries are exactly the starts, and the ends below the greatest key except, in an anonymous set, where another range starts; an end at 0 exactly if the first segment is needed; the count is exact |
| `BitFields.ExprOffsetShift` | src/evaluate.c:548-562 | the shift that aligns a field with the end of the bytes loaded |
| `BitFields.StoreAccess` | src/evaluate.c:3245-3266 | byte offset, size and shift locate the field; for a checksum an odd size is widened by one byte so as to start at an even offset, otherwise offset and size are those of the field; too wide exactly if the bytes exceed a register |
| `BitFields.LoadAccess` | src/evaluate.c:564-592 | the same for a load |
| `BitFields.StoreSetsField` | src/evaluate.c:3268-3324 | the masked store sets exactly the field and leaves every other bit of the packet |
| `BitFields.LoadGetsField` | src/evaluate.c:592-628 | masking and shifting give the field |
| `BitFields.StoreThenLoad` | src/evaluate.c:564-628 | what was stored is loaded, whatever accesses both sides use |
| `ShiftTransfer.ShiftConst` | src/evaluate.c:1393-1398 | in the widened length no bit of the shifted constant is cut |
| `ShiftTransfer.Transfer` | src/evaluate.c:2391-2506 | every constant of a value, range or set is shifted in its place; the context grows by exactly the shift, and only if a shifted constant would not fit |
| `ShiftTransfer.MaskedIsShifted` | src/evaluate.c:2432-2442 | the mask leaves what shifting right and left again would |
| `ShiftTransfer.TransferKeepsMeaning` | src/evaluate.c:2353-2506 | the comparison means the same for every field value, every operator, value, range and set |
| `RulesetCache.FlushEmpties` | src/cache.c:1272-1280 | deleting item by item empties the list and every bucket |
| `RulesetCache.AddConsistent` | src/cache.c:1305-1309 | buckets and list keep the same items in the same order |
| `CacheProtocol.StepKeeps` | src/cache.c:1215-1270 | every step of the call and every commit keeps the invariant |
| `CacheProtocol.FullDumpIsOneGeneration` | src/cache.c:1215-1270 | in every run, after a full dump the cache is exactly what one generation listed, the one whose id is recorded, and nothing is left of an abandoned attempt |
| `CacheProtocol.LoadedCoversRequest` | src/cache.c:1233-1270 | whenever a call returns 0, the flags recorded as loaded cover the request and the cache is what one generation listed for them, unless the ruleset is flushed |
| `CacheProtocol.NothingLeft` | src/cache.c:1248-1268 | after an error, or for a ruleset that is flushed, the cache is empty |
| `CacheProtocol.ShortcutNeedsNarrowIds` | src/cache.c:1193-1208 | the shortcut recognises a current id exactly if it fits in 16 bits |
| `CacheProtocol.ShortcutConfuses` | src/cache.c:1193-1208 | the shortcut accepts only the recorded and the next generation if and only if the id fits in 16 bits or has a low half of zero |
| `CacheProtocol.ConfusedIds` | src/cache.c:1193-1208 | two generations that are confused |
| `TimeText.TimePrint` | src/datatype.c:1146-1191 | the largest unit first, each below the next larger one, zeros left out; the text is read back as the same time below 10^8 days, and refused as too large from there on |
| `TimeGrammar.TimeParse` | src/datatype.c:1209-1292 | the time or the error that the text means, and nothing else |
| `TimeGrammar.OneMeaning` | src/datatype.c:1209-1292 | every text means exactly one thing: a sum of fields with distinct units, or the error at the first place where it is not one |
| `TimeText.PrintedParses` | src/datatype.c:1146-1292 | units are told apart, "m" from "ms" included, and absent parts count as zero |
| `Collapse.NftCmdCollapse` | src/cmd.c:427-472 | only commands that add or create elements of the same set are joined, and no neighbours of that kind are left; what is left stands for exactly the given commands in order, each head with their elements in order and their count; without such neighbours nothing changes |
| `Collapse.NftCmdUncollapse` | src/cmd.c:474-501 | every command gets back the elements marked as its own, in order, and the head keeps the rest with its count |
| `Collapse.ReleasedGroup` | src/cmd.c:474-501 | a group comes back as its head and the others in reverse order |
| `Collapse.ReleasedSet` | src/cmd.c:491-497 | the commands of a group get the set that their head was evaluated with |
| `Collapse.RoundTrip` | src/cmd.c:427-501 | collapsing and uncollapsing returns the same commands, reordered at most within a group |

## Left out

- Root.RootRem: works on whole integers; the mpz operations it calls are modelled as exact integer arithmetic, not on limbs, so aliasing of its results is not modelled.
- GcdExt.Gcdext: works on whole integers in the same way, and always computes both cofactors.
- Gcd.MpzGcdUi: always stores the divisor; the limb division it calls is taken as the exact remainder.
- Gcd.MpzGcd: works on whole integers too, down to the exit to single limbs; gmp_ctz is modelled by its result.
- MpzBitwise.LogicalOp: one method with the operation as a parameter stands for the three functions, which differ in it and in the size of the result.
- SetDelete.SetDelete: says nothing about the cache and the lists after a failed run.
- Collapse.NftCmdCollapse: commands and elements are values with ids instead of linked nodes; the stale collapse list of the head is modelled as empty.
- Boundaries.SetToIntervals: keys in host byte order are not stored reversed; the reversal itself is `GmpUtil.SwitchByteorder`.
- Interval lists are sequences in a field; only the sort and the list primitives it uses are modelled on linked nodes.
- Elements that share bound expressions (expr_get) are copies here.  The adjusting functions write through a bound that
  the element to remove still shares, and that element is unlinked and freed right after without being read again.
- Map elements are treated as their left key; catch-all elements, string prefixes, comments, timeouts and statements are not modelled.
- Limbs are 64 bits wide; allocation failure is not modelled.
- mpn_div_qr_1 with its branch for powers of two, which mpn_div_qr does not use.
- Left-shift and xor transfer, and the rest of src/evaluate.c: type checking and error reporting.
- Packet loads and stores are in network byte order.
- The numeric mode of time_print, which drops milliseconds.
- What evaluation adds to the ruleset cache between two updates, filters, and how netlink messages are parsed.
- src/misspell.c, JSON, netlink, monitor and the command line: input and output, or code that does not take part in these properties.
