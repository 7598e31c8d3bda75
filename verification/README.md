# AK: proofs about the hard parts of the support library

A model, in Dafny, of the algorithms in AK that do the most with arrays, bits and links, with proofs that each of
them computes what it is for. `dafny verify dfyconfig.toml` checks everything.

Code that works in place is modelled in place: arrays of words, bytes, buckets or arguments, classes with the
fields of the original, and loops with invariants. Every such method is tied to a specification that does not
mention its body: an integer, a byte history, a sequence of entries, the least occurrence of a needle, a multiset
of heap entries, the meaning of a command line.

| part of the library | files | what the specification is |
|---|---|---|
| multi-word integers | `Words`, `BigIntBase`, `BigIntShift`, `BigIntMul`, `BigIntCompare`, `QuotientDigit`, `KnuthDivision`, `FixedDivision` | the denoted integers, in any base |
| decimal big integers | `MinimalBigInt`, `DecimalDigits` | an integer, with a nonzero top word |
| decimal text | `EightDigits`, `DecimalParser` | a grammar, and the number the digits spell |
| ordered Robin Hood table | `HashLinks`, `HashProbe`, `HashState`, `HashTable`, `HashRuns` | a sequence of entries with distinct keys in first-insertion order |
| ring buffer with seekback | `CircularBuffer`, `SeekbackSearch` | the history of all bytes written |
| substring search | `MemMem`, `MemoryStream` | the least occurrence; the unread bytes |
| bit streams | `BitWords`, `BitStream` | the sequence of bits |
| binary heap | `BinaryHeap` | a multiset, and heap order |
| getopt | `OptionParser`, `OptionLines` | the meaning of the original argument line, read without reordering, and what the line was written from |

`Arithmetic`, `Bits` and `Prelude` hold what the parts share.

How the machine is represented:

- A word is a natural number below its base; every wrap-around, truncation and carry is written out. The integer
  algorithms hold for every base (shifts and division for every power of two, division for even ones).
- `u32` and `u64` values that are used as bit sets are sequences of their bits, least significant first.
- Links between buckets are indices, with -1 for null. The bucket that the original keeps on the stack while it
  displaces entries has the spare index after the last bucket.
- `Span` copies behave like `memmove`: the source is read before anything is written. Allocation succeeds, and a
  good allocation size is never smaller than the requested one. The host is little-endian.
- A hash key stands for a class of equal values; equal values have equal hashes.
- Short reads and uninitialised memory are arbitrary choices, restricted only by what the callee promises.

Where the code does not do what one would expect of it, the exact condition is proved:

- `copy_from_seekback` doubles its distance while it copies, and the distance check inside `next_seekback_span`
  fails if and only if the request overruns (`Request.Overruns`): the largest doubling of the distance within the
  capacity is copied in one unwrapped run, and both free bytes and more than that many bytes to copy remain. A
  request for at most capacity + 1 bytes never does.
- `add_small(0)` on an empty `MinimalBigInt` leaves a zero word. So do, on an empty one, `multiply_with_power_of_2(e)`
  exactly for e > 64, and `multiply_with_power_of_5(e)` and `multiply_with_power_of_10(e)` exactly for e >= 32.
  `multiply_with_small(0)` turns all words into zeros. The number is right after all of them.
- `baseline_mul` of two one-word operands reads signed words as unsigned: the result is right exactly under
  `Multiplies`, and on all other paths always.
- `bitap_bitwise` with an empty needle does not return position 0; the dispatch never calls it so.
- Division of a fixed-size integer by one whose storage is at least two words longer leaves the top words of the
  remainder as they were when it takes Algorithm D; the remainder is right exactly if it does not take it or they
  were zero.
- `negate` of a signed storage is the negation except for the least integer.
- `write_bits` leaves the bits of a value above the count in the buffer: exactly under `LeavesNothing` there are none.
- A bit reader that needs a 58th bit or more can ask for no bytes for ever: exactly under `NeverEnds`. Over a round
  trip that is so exactly if some item reaches beyond the eight bytes from the one that it starts in.
- `getopt` looks a letter up by splitting the list of letters at it, so a letter listed twice fails a VERIFY; a colon
  counts as a letter there (`LookupShortCases`).
- A bulk-built heap has right recorded indices exactly if the nodes at the positions outside `Disturbed` came with
  right ones.

## Model

| member | source | states |
|---|---|---|
| BigIntBase.AddWords | AK/BigIntBase.h:218-227 | sum word and carry satisfy r + carry*b = a + b + carry_in, in the portable form with its two wrap tests |
| BigIntBase.SubWords | AK/BigIntBase.h:260-269 | difference word and borrow satisfy the signed counterpart |
| BigIntBase.FitValue | AK/BigIntBase.h:303-311 | extending a storage with sign words, as the word loops do past its end, keeps the denoted integer for every length and signedness |
| BigIntBase.ChainValue | AK/BigIntBase.h:479-486 | a whole carry or borrow chain computes the word values exactly, with the last carry worth b^n |
| BigIntBase.CarryLoop | AK/BigIntBase.h:479-486 | the in-place word loop equals the chain for any operand lengths, also when the result starts at an operand, and writes nothing else |
| BigIntBase.Add | AK/BigIntBase.h:462-492 | a ± (b + carry) = c + r*b^size over the denoted integers for every mix of signed and unsigned storages whenever the result is at least as long as both operands, aliasing included; for shorter results the same equation between the truncated operands |
| BigIntBase.OverflowIffUnrepresentable | AK/BigIntBase.h:462-470 | the return value is zero exactly if the true result is representable in the result storage, signed or unsigned |
| BigIntBase.SignedRange | AK/BigIntBase.h:98-125 | a signed storage denotes an integer in [-b^n/2, b^n/2) |
| BigIntCompare.HighWords | AK/BigIntBase.h:331-345 | high words equal to the sign extension do not matter; any other high word puts the integer beyond every shorter storage, for both signs |
| BigIntCompare.FirstDifference | AK/BigIntBase.h:350-362 | the highest differing word decides the order |
| BigIntCompare.Compare | AK/BigIntBase.h:319-364 | compare returns -1, 0 or 1: negative exactly if the left integer is less, positive exactly if it is greater, for all sizes and signedness; with the inequality hint it still returns 0 exactly for equal integers |
| BigIntCompare.Increment | AK/BigIntBase.h:494-513 | x ± 1 = x' + r*b^size over the denoted integers, in place |
| BigIntCompare.Negate | AK/BigIntBase.h:515-526 | the result is the two's complement and the return value tells whether the operand is nonzero |
| BigIntCompare.NegatedSigned | AK/BigIntBase.h:515-526 | over signed storages negate is the negation if and only if the operand is not the least integer |
| BigIntShift.ShlValue | AK/BigIntBase.h:424-441 | the left-shifted words denote value * 2^shift modulo b^size, for any word offset and bit remainder |
| BigIntShift.ShrValue | AK/BigIntBase.h:443-460 | the right-shifted words denote value / 2^shift |
| BigIntShift.ShiftLeft | AK/BigIntBase.h:424-441 | the in-place descending loop refines both the word formula and the modular product; shift may equal the whole width |
| BigIntShift.ShiftRight | AK/BigIntBase.h:443-460 | the in-place ascending loop refines both the word formula and the quotient |
| BigIntMul.Convolution | AK/BigIntBase.h:573-590 | the column sums of the word products add up to the product of the values |
| BigIntMul.CarryFits | AK/BigIntBase.h:60-61 | with at most b words the column carry never overflows a double word |
| BigIntMul.AccumulateProduct | AK/BigIntBase.h:583-589 | one word product added to the three-word column accumulator, exactly |
| BigIntMul.AccumulateColumn | AK/BigIntBase.h:576-590 | a whole column is accumulated exactly and split into word and carry |
| BigIntMul.MultiplyColumns | AK/BigIntBase.h:573-590 | the column loop leaves the truncated convolution in the result |
| BigIntMul.BaselineMul | AK/BigIntBase.h:528-594 | for signed and unsigned operands of any lengths and any result length the result is the product of the denoted integers modulo b^size, on the swapped path and on the general path with its sign normalisation always; on the path for two one-word operands if and only if only one word is kept, no operand is negative, both are the least integer, or one is zero and two words are kept |
| BigIntMul.MultiplyStorages | AK/BigIntBase.h:556-594 | with the signs of the operands normalized if the result is longer than the shorter one, and read as unsigned otherwise, the result is the product modulo b^size |
| BigIntMul.OneWordProduct | AK/BigIntBase.h:535-550 | exactly when two words read as unsigned, multiplied and extended by the sign of the result give the product |
| BigIntMul.NegativeByZero | AK/BigIntBase.h:535-550 | -1 times 0 into three words leaves a nonzero number |
| QuotientDigit.FirstEstimate | AK/BigIntBase.h:621 | the two-word quotient estimate is not below the three-by-two quotient and at most two above it |
| QuotientDigit.EstimateDigit | AK/BigIntBase.h:613-633 | after at most two corrections the estimate is exactly the three-by-two quotient; with equal top words it is b-1 |
| QuotientDigit.EqualTopWords | AK/BigIntBase.h:617-619 | with equal top words the true digit is b-1 or b-2 |
| QuotientDigit.ThreeByTwoBracket | AK/BigIntBase.h:620-633 | below equality the three-by-two quotient is the true digit or one too large, whatever the remaining words are |
| KnuthDivision.DigitNear | AK/BigIntBase.h:613-633 | in both branches the estimate is the true digit or one too large |
| KnuthDivision.MultiplySubtract | AK/BigIntBase.h:635-644 | the in-place multiply-subtract leaves u - q*v modulo b^(n+1) with the borrow telling whether it was negative |
| KnuthDivision.AfterAddBack | AK/BigIntBase.h:646-653 | after a borrow one add-back gives the true remainder, and its overflow is 1: the second VERIFY never fails |
| KnuthDivision.DivideStep | AK/BigIntBase.h:613-653 | one step leaves the true digit and a window smaller than the divisor, and the first VERIFY holds for every such window |
| KnuthDivision.DivideDigits | AK/BigIntBase.h:613-654 | the loop leaves old dividend = divisor * quotient + remainder with remainder < divisor |
| KnuthDivision.NormalisingShift | AK/BigIntBase.h:607 | shifting by the leading zeroes sets the top bit and loses nothing |
| KnuthDivision.NormalisedDividend | AK/BigIntBase.h:608 | the spare word takes the shifted dividend, and its top window is below the divisor |
| KnuthDivision.DivModInternal | AK/BigIntBase.h:596-662 | Algorithm D is exact: quotient = U / V with zero words above it, and, if asked for, remainder = U % V, through normalisation, add-back and un-normalisation |
| FixedDivision.CopyWords | AK/BigIntBase.h:303-311 | each word of the result is the operand word offset places up, or a word of its sign beyond it, and so the result is the integer divided by b^offset, rounded down, modulo b^size, for signed and unsigned operands and any offset and sizes |
| FixedDivision.CopyDivides | AK/BigIntBase.h:303-311 | words taken from an offset on and extended by the sign are the floor quotient by b^offset modulo b^size |
| FixedDivision.CopiedInteger | AK/BigIntBase.h:303-311 | a copy into a result that is long enough denotes the same integer, signed or unsigned |
| FixedDivision.DivideWord | AK/UFixedBigIntDivision.h:63-64 | one more word divided with the carry extends an exact division by a digit |
| FixedDivision.DivideByWord | AK/UFixedBigIntDivision.h:54-66 | division of any number of words by one word is exact, every digit fitting a word |
| FixedDivision.DivideSmaller | AK/UFixedBigIntDivision.h:40-45 | a dividend with fewer words is its own remainder |
| FixedDivision.DivideByKnuth | AK/UFixedBigIntDivision.h:72-77 | Algorithm D on copies, the dividend with a spare word, divides exactly |
| FixedDivision.DivMod | AK/UFixedBigIntDivision.h:14-78 | for storages of any two sizes the only check that can fail is the one for a zero divisor; otherwise dividend = quotient * divisor + remainder with remainder < divisor on all five paths; the whole remainder storage denotes the remainder if and only if the divisor has fewer than two words in use, the dividend has fewer words in use than the divisor, or the storage words that Algorithm D does not reach were zero before |
| FixedDivision.StaleRemainder | AK/UFixedBigIntDivision.h:72-77 | a division of two words by four, two of them in use, with a wrong remainder storage |
| MinimalBigInt.MinimalBigInt.MultiplyWithSmall | AK/FloatingPointStringConversions.cpp:1724-1735 | the number is multiplied exactly and the carry gets a word only if needed; canonical form is kept if and only if the factor is not zero or there are no words |
| MinimalBigInt.MinimalBigInt.AddSmall | AK/FloatingPointStringConversions.cpp:1744-1755 | the number is added exactly; canonical form is kept if and only if there was a word before or the addend is not zero |
| MinimalBigInt.MinimalBigInt.AddDigits | AK/FloatingPointStringConversions.cpp:1757-1763 | number * 10^digits + value, exactly; canonical form is kept if and only if there was a word before or the value is not zero |
| MinimalBigInt.ProductTrimmed | AK/FloatingPointStringConversions.cpp:1665-1668 | a product of canonical numbers needs all words of both or all but one, so trimming one word suffices |
| MinimalBigInt.MinimalBigInt.MultiplyWithWords | AK/FloatingPointStringConversions.cpp:1665-1668 | the product through baseline_mul and a copy is exact as long as it fits 58 words; canonical form is kept if and only if there was a word, and from nothing all words of the factor but one stay as zeros |
| MinimalBigInt.MinimalBigInt.MultiplyWithPowerOf5 | AK/FloatingPointStringConversions.cpp:1545-1672 | binary exponentiation over the table multiplies by exactly 5^e for every e < 2048 while the result fits, no intermediate product overflowing; canonical form is kept if and only if there was a word or e < 32, where the table entries of several words start |
| MinimalBigInt.StaleWordsLost | AK/FloatingPointStringConversions.cpp:1677-1682 | clearing one word before the shift suffices: stale words beyond it are shifted out of the result |
| MinimalBigInt.ShiftedTrims | AK/FloatingPointStringConversions.cpp:1682-1683 | after the shift of a canonical number trimming one word gives a canonical one; shifted zero keeps all its words but one |
| MinimalBigInt.MinimalBigInt.MultiplyWithPowerOf2 | AK/FloatingPointStringConversions.cpp:1674-1685 | multiplies by exactly 2^e; canonical form is kept if and only if there was a word or e <= 64 |
| MinimalBigInt.MinimalBigInt.MultiplyWithPowerOf10 | AK/FloatingPointStringConversions.cpp:1539-1543 | multiplies by exactly 10^e; canonical form is kept if and only if there was a word or e < 32 |
| MinimalBigInt.MinimalBigInt.CompareTo | AK/FloatingPointStringConversions.cpp:1693-1696 | -1, 0 or 1: negative exactly if the number is less than the other, positive exactly if it is greater, canonical or not |
| MinimalBigInt.MinimalBigInt.TrimLastWordIfZero | AK/FloatingPointStringConversions.cpp:1711-1715 | drops one zero word and keeps the number |
| DecimalDigits.DoesTruncateNonZero | AK/FloatingPointStringConversions.cpp:1407-1424 | the scan of eight and of single bytes finds a digit other than zero exactly if there is one |
| DecimalDigits.ReadGroup | AK/FloatingPointStringConversions.cpp:1439-1459 | a group of up to 19 digits, read eight and one at a time up to the digit limit, is the number it spells and fits a word |
| DecimalDigits.AppendLast | AK/FloatingPointStringConversions.cpp:1467-1481 | at the limit a digit 1 for what is cut off goes behind the group, in its word or on its own |
| DecimalDigits.AddRun | AK/FloatingPointStringConversions.cpp:1428-1490 | a run of digits extends the number exactly up to the limit, and from there on only tells whether a digit other than zero is cut off, in the run or in the fraction behind it; leading zeros leave no word |
| DecimalDigits.FromDecimal | AK/FloatingPointStringConversions.cpp:1394-1498 | for any whole and fractional digits and any limit up to 769 the result is canonical, as many digits are parsed as the limit allows of those behind the leading zeros, and the result is the number they spell, with a digit 1 appended exactly if a digit other than zero is cut off |
| DecimalDigits.DenotesPieces | AK/FloatingPointStringConversions.cpp:1394-1498 | digits taken apart into leading zeros, those kept and those beyond the limit: the number parsed is that of the kept ones, with a digit 1 behind it exactly if one of the others is not zero |
| DecimalDigits.DenotesExactly | AK/FloatingPointStringConversions.cpp:1394-1498 | without such a digit the result, scaled by the zeros cut off, is exactly the number that all digits spell |
| DecimalDigits.DenotesOrder | AK/FloatingPointStringConversions.cpp:1463-1481 | with one, the result compares with every number of the kept digits as all the digits do |
| EightDigits.HasEightDigitsCorrect | AK/FloatingPointStringConversions.cpp:186-201 | the byte-parallel test holds exactly if all eight bytes are ASCII digits, for all 2^64 words, whatever carries a non-digit causes |
| EightDigits.EightDigitsCorrect | AK/FloatingPointStringConversions.cpp:203-243 | three multiplications with wrap-around and two masks give the number the eight digits spell |
| DecimalParser.FastParseDecimal | AK/FloatingPointStringConversions.cpp:277-287 | consumes exactly the maximal run of digits and accumulates their number modulo 2^64 |
| DecimalParser.ParseExponent | AK/FloatingPointStringConversions.cpp:317-358 | the exponent counts only with a digit after an optional sign, else the position goes back before the letter; its digits are read until the number reaches the cap |
| DecimalParser.CappedExactly | AK/FloatingPointStringConversions.cpp:345-352 | an exponent below the cap is read exactly, and no other is read as one |
| DecimalParser.CappedPrefix | AK/FloatingPointStringConversions.cpp:345-352 | from 0x10000000 on the number read is that of the fewest first digits that reach it |
| DecimalParser.Significant | AK/FloatingPointStringConversions.cpp:363-371 | without leading zeros more than 19 digits means at least 10^19 |
| DecimalParser.WithoutLeadingZeros | AK/FloatingPointStringConversions.cpp:363-371 | the scan over zeros and points tells whether the number is at least 10^19, even when it runs past an all-zero number |
| DecimalParser.TakeDigits | AK/FloatingPointStringConversions.cpp:383-391 | digits are taken until the mantissa has nineteen, without overflowing 64 bits |
| DecimalParser.Reparse | AK/FloatingPointStringConversions.cpp:373-414 | 19 significant digits are kept and the exponent is raised by the number of digits dropped, in the whole and in the fractional part |
| DecimalParser.KeptBounds | AK/FloatingPointStringConversions.cpp:373-414 | kept digits m with d dropped: m*10^d <= number < (m+1)*10^d |
| DecimalParser.FaithfulBounds | AK/FloatingPointStringConversions.cpp:360-418 | mantissa*10^exponent is the exact value if nothing was dropped, and in every case value < (mantissa+1)*10^exponent |
| DecimalParser.ParseNumbers | AK/FloatingPointStringConversions.cpp:260-420 | for every text: valid exactly if it starts with a number; negative exactly if it starts with a minus sign; parts and end as the grammar says; the overflow flag is set exactly from 10^19 on, the mantissa is exact without it and has 19 digits with it, and the exponent is the one read, less the fractional digits, plus the digits dropped |
| DecimalParser.NumberExactly | AK/FloatingPointStringConversions.cpp:260-315 | a text is valid exactly if it starts with a number written as sign, digits, point with digits, and exponent, each but one digit optional |
| DecimalParser.ParseSpelled | AK/FloatingPointStringConversions.cpp:260-420 | a number put together from the bytes of its parts, whatever follows that cannot continue it: valid, negative exactly with 0x2D in front, each part where it was put, the end just behind the exponent, the exponent negated exactly with 0x2D, the flag from 10^19 on, and mantissa and exponent those of the digits |
| HashLinks.RelinkedList | AK/HashTable.h:618-645 | relinking two exchanged buckets exchanges their positions in the linked list and nothing else, also when they are neighbours, ends, or one of them is outside the list |
| HashLinks.AppendedList | AK/HashTable.h:607-617 | a new bucket becomes the last of the list |
| HashLinks.UnlinkedList | AK/HashTable.h:726-737 | unlinking removes exactly one position of the list |
| HashLinks.ShiftedList | AK/HashTable.h:744-780 | moving a bucket and repointing its neighbours keeps the list |
| HashProbe.ProbeLengthIsProbe | AK/HashTable.h:579-602 | the one-byte state, or the recomputed distance for long probes, gives the true circular probe distance |
| HashProbe.NotStored | AK/HashTable.h:562-577 | reaching a free bucket proves that no bucket holds the key |
| HashProbe.Placed | AK/HashTable.h:670-711 | placing an entry where the Robin Hood rule allows keeps the probe invariants |
| HashProbe.NeverRound | AK/HashTable.h:688-711 | displacement never goes once around the table |
| HashProbe.ShiftedBack | AK/HashTable.h:761-784 | a backward shift keeps the probe invariants across the hole, also over the wrap-around |
| HashState.Stolen | AK/HashTable.h:671-685 | stealing a bucket puts the new entry last in the list while the old one is carried at the spare index, links intact |
| HashState.HandedOver | AK/HashTable.h:703-709 | swapping the carried bucket with a richer one keeps ring, list and entries |
| HashState.ShiftedHole | AK/HashTable.h:761-784 | one shift of delete_bucket keeps ring, list and entries around the hole |
| HashState.ClosedHole | AK/HashTable.h:786-787 | marking the last shifted bucket free restores the whole invariant |
| HashTable.FreeBucket | AK/HashTable.h:509 | fewer entries than buckets leave a free bucket, so that probing ends |
| HashTable.OrderedHashTable.UpdateForSwappedBuckets | AK/HashTable.h:618-645 | the link updates in their order of execution equal the relinking of the two buckets |
| HashTable.OrderedHashTable.Lookup | AK/HashTable.h:561-577 | finds a bucket if and only if the key is stored, and terminates |
| HashTable.OrderedHashTable.Displace | AK/HashTable.h:688-711 | the displaced chain ends in a free bucket with every entry kept |
| HashTable.OrderedHashTable.WriteValue | AK/HashTable.h:605-718 | the table becomes the abstract upsert of the entry: replaced or kept in place, or inserted last, with the result code saying which; a steal never passes an equal key |
| HashTable.OrderedHashTable.DeleteBucket | AK/HashTable.h:720-788 | exactly one entry disappears and all probe and link invariants are restored across wrap-around |
| HashTable.OrderedHashTable.Remove | AK/HashTable.h:442-451 | removes the entry with the key if there is one, and says so |
| HashTable.OrderedHashTable.TakeFirst | AK/HashTable.h:490-497 | the first entry in insertion order is returned and removed |
| HashTable.OrderedHashTable.TakeLast | AK/HashTable.h:481-488 | the last entry in insertion order is returned and removed |
| HashTable.OrderedHashTable.RemoveAllMatching | AK/HashTable.h:462-479 | terminates leaving exactly the entries that fail the predicate, in order, although shifts refill examined indices and carry entries from index 0 to the last bucket |
| HashTable.OrderedHashTable.Rehash | AK/HashTable.h:524-556 | the larger table holds the same entries in the same order, and has the good capacity for the requested one or for eight more than before |
| HashTable.OrderedHashTable.Set | AK/HashTable.h:359-366 | grows exactly when the load factor would reach 80 percent, then to the good capacity for 60 percent or eight more, keeps the load below, and otherwise behaves as the abstract upsert |
| HashTable.OrderedHashTable.Values | AK/HashTable.h:499-506 | following next from the head visits the entries in first-insertion order |
| HashTable.OrderedHashTable.ValuesInReverse | AK/HashTable.h:96-114 | following previous from the tail visits them in reverse |
| HashTable.UpsertAbsent | AK/HashTable.h:652-659 | a new key goes last |
| HashTable.UpsertPresent | AK/HashTable.h:662-668 | an equal key is replaced or kept where it stands |
| HashTable.WithoutPresentKey | AK/HashTable.h:442-451 | removing a key takes out exactly the first entry that has it |
| HashTable.FailingMeaning | AK/HashTable.h:462-479 | something is removed exactly if some entry matches |
| HashTable.FailingMembers | AK/HashTable.h:462-479 | an entry is left exactly if it was there and does not match |
| HashRuns.OperationKeepsOrder | AK/HashTable.h:359-497 | every operation keeps keys distinct and never exchanges two keys that survive it |
| HashRuns.RunKeepsUnique | AK/HashTable.h:359-497 | over any run distinct keys stay distinct |
| HashRuns.RunKeepsOrder | AK/HashTable.h:359-497 | over any run two keys that stay in the table keep their order |
| HashRuns.OlderComesFirst | AK/HashTable.h:359-497 | the order is that of insertion: a key that was there when another one came is before it as long as both stay |
| HashRuns.Perform | AK/HashTable.h:359-497 | over any run of set, remove, take_first, take_last and remove_all_matching, rehashing included, the table holds what the abstract run gives, in that order |
| CircularBuffer.WriteHolds | AK/CircularBuffer.cpp:143-164 | a run written at the write index appends to the history and forgets only bytes beyond the capacity |
| CircularBuffer.CircularBuffer.CreateEmpty | AK/CircularBuffer.cpp:18-25 | an empty history, nothing unread, nothing to seek back to |
| CircularBuffer.CircularBuffer.NextWriteSpan | AK/CircularBuffer.cpp:98-103 | the span starts at the write index, stays inside the free bytes and is empty only if the buffer is full |
| CircularBuffer.CircularBuffer.NextReadSpan | AK/CircularBuffer.cpp:105-119 | the span starts at the unread byte asked for and is empty only past the last one |
| CircularBuffer.CircularBuffer.NextSeekbackSpan | AK/CircularBuffer.cpp:121-130 | the span starts distance bytes before the write index, through the modulo |
| CircularBuffer.CircularBuffer.Write | AK/CircularBuffer.cpp:143-164 | min(size, free) bytes are appended to the history, in wrapped runs, even when the source is part of the buffer itself |
| CircularBuffer.CircularBuffer.Read | AK/CircularBuffer.cpp:166-187 | the oldest unread bytes are returned in order and dropped, and the rest of the destination and the write index stay |
| CircularBuffer.CircularBuffer.ReadWithSeekback | AK/CircularBuffer.cpp:189-208 | an error beyond the limit; otherwise the bytes of the history that start distance back, and the rest of the destination stays |
| CircularBuffer.CircularBuffer.Discard | AK/CircularBuffer.cpp:210-218 | drops unread bytes, or fails and changes nothing if there are too few |
| CircularBuffer.RepeatFurther | AK/CircularBuffer.cpp:265-273 | copying from a multiple of the distance equals copying byte by byte from the distance |
| CircularBuffer.CircularBuffer.CopyFromSeekback | AK/CircularBuffer.cpp:253-277 | an error beyond the limit changes nothing; every returning copy appends exactly min(length, free) bytes, each equal to the byte distance positions earlier in the growing history, despite wraps, overlap and doubling; the distance check inside fails if and only if the request overruns, a condition on capacity, write index, distance, free bytes and length |
| CircularBuffer.ShortRequestsFit | AK/CircularBuffer.cpp:121-124 | no request for at most capacity + 1 bytes overruns |
| CircularBuffer.LongRequestOverruns | AK/CircularBuffer.cpp:121-124 | 10 bytes from 3 back into an empty ring of 4 do |
| CircularBuffer.OverrunReached | AK/CircularBuffer.cpp:253-277 | that state is reached from an empty ring by a write and a read, and the copy ends in the failed check |
| CircularBuffer.CircularBuffer.CopyFitting | AK/CircularBuffer.cpp:253-277 | a copy that fits the free bytes is made in full |
| SeekbackSearch.NextSearchSpan | AK/CircularBuffer.cpp:132-141 | the span starts distance bytes before the read index |
| SeekbackSearch.MatchLengthUnique | AK/CircularBuffer.cpp:492-503 | the match length is fixed by agreement up to it and a mismatch or the cap after it |
| SeekbackSearch.MatchAt | AK/CircularBuffer.cpp:490-503 | the loop over wrapped spans computes the common prefix of the unread bytes and the bytes distance behind, capped by maximum and distance |
| SeekbackSearch.TryDistance | AK/CircularBuffer.cpp:482-509 | one distance replaces the best match so far exactly if it is in range, matches at least the minimum and matches more |
| SeekbackSearch.FindCopyInSeekback | AK/CircularBuffer.cpp:468-513 | a match found is one of the distances, within the seekback limit less the unread bytes, its bytes agree, and its length is within minimum, maximum, distance and unread bytes; no listed distance in range agrees for more bytes, or for as many if it is earlier; none is found only if none agrees for the minimum |
| SeekbackSearch.MatchReplays | AK/CircularBuffer.cpp:468-513 | copying a match after the bytes it was found in gives the bytes that follow |
| SeekbackSearch.Replay | AK/CircularBuffer.cpp:253-277 | a decoder whose history ends in the bytes the encoder consumed copies the found match and so appends exactly the next unread bytes of the encoder |
| MemMem.FailureShared | AK/MemMem.h:58-59 | a continued border shares the strong failure entry |
| MemMem.FallingEnds | AK/MemMem.h:61-67 | the end of the failure chain gives the longest border of the next prefix |
| MemMem.PreparePartialTable | AK/MemMem.h:49-70 | entry i is the longest border of the first i bytes followed by another byte, or -1 |
| MemMem.Skipped | AK/MemMem.h:93-98 | no occurrence starts at a position that a mismatch skips |
| MemMem.MemMemChunked | AK/MemMem.h:45-102 | returns the least occurrence of a nonempty needle in the concatenation of the spans, or none, for every split including empty spans, and terminates |
| MemMem.LookupNext | AK/MemMem.h:33-35 | bit j of lookup is clear exactly if the last j bytes are the first j of the needle |
| MemMem.Bitap | AK/MemMem.h:18-42 | returns the least occurrence for needles of 1 to 31 bytes; for the empty needle it does not: position 1, or none in an empty haystack |
| MemMem.MemMemOptional | AK/MemMem.h:104-128 | equals the least occurrence on all dispatch paths, the empty needle included |
| MemoryStream.TextWritten | AK/MemoryStream.cpp:149-165 | bytes written into a chunk continue the text |
| MemoryStream.AllocatingMemoryStream.NextWriteRange | AK/MemoryStream.cpp:250-264 | the chunk at the write offset exists afterwards and the text before it is unchanged |
| MemoryStream.AllocatingMemoryStream.NextReadRange | AK/MemoryStream.cpp:234-248 | the unread bytes of one chunk; the chunk always exists |
| MemoryStream.AllocatingMemoryStream.WriteSome | AK/MemoryStream.cpp:149-165 | all bytes are appended to the unread bytes, over chunk boundaries |
| MemoryStream.AllocatingMemoryStream.ReadSome | AK/MemoryStream.cpp:127-147 | the oldest unread bytes are returned and dropped |
| MemoryStream.AllocatingMemoryStream.Discard | AK/MemoryStream.cpp:167-179 | drops unread bytes, or fails and changes nothing |
| MemoryStream.AllocatingMemoryStream.CleanupUnusedChunks | AK/MemoryStream.cpp:266-276 | restores a read offset inside the first chunk and keeps the unread bytes |
| MemoryStream.AllocatingMemoryStream.OffsetOf | AK/MemoryStream.cpp:200-232 | the first occurrence in exactly the unread bytes, after any run of operations |
| BitWords.Joined | AK/BitStream.h:400 | bits put above those in use by shift and or stand side by side with them |
| BitWords.NumberOfOr | AK/BitStream.h:385-400 | the union of two words as bits is the bitwise or of their numbers |
| BitStream.Output.FlushBufferToStream | AK/BitStream.h:406-422 | whole bytes go out, less than a byte stays, nothing written changes |
| BitStream.Output.WriteBits | AK/BitStream.h:381-404 | appends exactly the count low bits of the value, also when they fill the 64-bit buffer; the buffer is clear above them if and only if nothing is put into it after it was filled up, or the bits of the value above count that come to lie in it are clear |
| BitStream.StrayBit | AK/BitStream.h:400-401 | one bit written of a value with two set: the other stays behind in the buffer |
| BitStream.Output.AlignToByteBoundary | AK/BitStream.h:443-449 | pads with fewer than eight zero bits to a whole byte |
| BitStream.Input.RefillBufferFromStream | AK/BitStream.h:251-274 | collects the requested bits, up to 64, for any short-read pattern; at the end rejects, or fills with zero bits; never ends if and only if the request and the bits left both exceed what whole bytes can bring the buffer to |
| BitStream.EndlessRead | AK/BitStream.h:251-274 | 64 bits read after a single one: the loop asks for no bytes again and again |
| BitStream.Input.PeekBits | AK/BitStream.h:216-223 | the next bits, up to 64, without consuming them, under the same condition |
| BitStream.Input.DiscardPreviouslyPeekedBits | AK/BitStream.h:225-234 | consumes them, never more than there are |
| BitStream.Input.ReadBits | AK/BitStream.h:207-214 | the next count bits, up to 64, under the same condition; an error leaves every bit in place |
| BitStream.Input.AlignToByteBoundary | AK/BitStream.h:238-248 | drops and returns fewer than eight bits up to the byte boundary |
| BitStream.WriteAll | AK/BitStream.h:382-449 | numbers written with flushes at any points, then align and flush, leave their bits in order, as the little-endian number they are packed into, with fewer than eight zero bits behind them |
| BitStream.RoundTrip | AK/BitStream.h:208-449 | for any sequence of (value < 2^count, count <= 64) with flushes anywhere and any short-read pattern, a reader with the same widths returns the same values if and only if no item reaches beyond the eight bytes from the one that it starts in; otherwise it never ends |
| BinaryHeap.SinkStep | AK/BinaryHeap.h:102-114 | one step down keeps heap order but for the moved key |
| BinaryHeap.RiseStep | AK/BinaryHeap.h:91-100 | one step up keeps heap order but for the moved key |
| BinaryHeap.LiftStep | AK/BinaryHeap.h:48-51 | lifting a key to its parent without a comparison keeps heap order but for that key |
| BinaryHeap.LiftEnds | AK/BinaryHeap.h:52-54 | after the exchange with the last node only the root may be too large |
| BinaryHeap.IntrusiveBinaryHeap.FromNodes | AK/BinaryHeap.h:22-27 | bulk construction establishes heap order and keeps the entries; recorded indices are right if and only if every node came with a right one whose position no sinking key passes, and these positions are computed from the keys alone |
| BinaryHeap.NothingDisturbed | AK/BinaryHeap.h:22-27 | no sinking key passes any position if every parent is less than its children |
| BinaryHeap.OneFamily | AK/BinaryHeap.h:102-114 | of two children the second is taken only if it is less than the first, and the root stays only if it is less than that child |
| BinaryHeap.BuildOrdered | AK/BinaryHeap.h:22-27 | then every node stays as it came, and the recorded indices are right if and only if they came right |
| BinaryHeap.BuildWrongIndex | AK/BinaryHeap.h:22-27 | one node that came with index 1 keeps it at position 0 |
| BinaryHeap.IntrusiveBinaryHeap.HeapifyUp | AK/BinaryHeap.h:91-100 | restores heap order from a leaf that may be too small |
| BinaryHeap.IntrusiveBinaryHeap.HeapifyDown | AK/BinaryHeap.h:102-114 | restores heap order from any position that may be too large; exactly the nodes on the way of the key get their index set |
| BinaryHeap.IntrusiveBinaryHeap.Insert | AK/BinaryHeap.h:32-44 | adds one entry, keeps heap order, and keeps every recorded index equal to its position |
| BinaryHeap.IntrusiveBinaryHeap.Pop | AK/BinaryHeap.h:46-56 | returns the node that was at any index, restores heap order, removes exactly that entry, and keeps recorded indices right |
| BinaryHeap.IntrusiveBinaryHeap.PopMin | AK/BinaryHeap.h:58-61 | returns a least entry |
| BinaryHeap.Drain | AK/BinaryHeap.h:58-61 | repeated pop_min yields all entries in sorted order |
| OptionParser.LookupShortCases | AK/OptionParser.cpp:79-100 | a letter listed nowhere is unknown, one listed once takes no argument, needs one with a colon behind it or may have one with two, and one listed more than once fails the VERIFY |
| OptionParser.LookupLong | AK/OptionParser.cpp:155-181 | the first long option whose name is the argument or what is before an equals sign behind it, and the value after that |
| OptionParser.ReadConserves | AK/OptionParser.cpp:19-77 | the reordered line has the same arguments as the line, and what follows the double dash is unmoved |
| OptionParser.ReadPartitions | AK/OptionParser.cpp:19-77 | up to the double dash each argument of the line is either used or skipped, both in the order of the line, and what is skipped is no option |
| OptionParser.PassedOver | AK/OptionParser.cpp:264-287 | skipping arguments that are no options does not change the meaning of the line |
| OptionParser.TookOption | AK/OptionParser.cpp:19-77 | taking an option and rotating the array keeps the meaning of the whole line |
| OptionParser.OptionParser.FindNextOption | AK/OptionParser.cpp:264-287 | stops at the first option, the double dash, the end, or with a plus the first other argument |
| OptionParser.OptionParser.ShiftArgv | AK/OptionParser.cpp:238-262 | the consumed arguments are rotated in front of the skipped ones |
| OptionParser.OptionParser.HandleShortOption | AK/OptionParser.cpp:102-153 | outcome, report, consumed arguments and position in the cluster are those of the letter at this position; OptionLines says what they are for every way to write it |
| OptionParser.OptionParser.HandleLongOption | AK/OptionParser.cpp:183-236 | outcome, report and consumed arguments are those of the long option here; OptionLines says what they are for every way to write it |
| OptionParser.OptionParser.GetOpt | AK/OptionParser.cpp:19-77 | one call comes to exactly what the next argument that is an option, the end, or the argument that stops the scan says; it advances by what it consumed, or ends with the array in final order and the index at the first positional argument; over a run an error means that the line has no meaning; every reporting call makes progress |
| OptionParser.Run | AK/OptionParser.cpp:19-77 | over a whole run the reports are the options of the original line with their values in order, and the array is the used arguments, the double dash, the skipped arguments and the tail, a stable partition of the line |
| OptionLines.FlagsRead | AK/OptionParser.cpp:124-128 | letters without an argument inside a cluster are reported one by one, without a value |
| OptionLines.BareReads | AK/OptionParser.cpp:137-141 | a dash, letters and a last letter that needs no argument: the last one is reported with the empty value, one argument is used |
| OptionLines.AttachedReads | AK/OptionParser.cpp:129-136 | characters behind a letter that takes an argument are its value, one argument is used |
| OptionLines.SeparateReads | AK/OptionParser.cpp:142-145 | a last letter that needs an argument takes the next argument as its value, two arguments are used |
| OptionLines.UnlistedFails | AK/OptionParser.cpp:114-119 | a letter that is not listed is an error wherever it stands in a cluster, and one listed twice fails the VERIFY |
| OptionLines.MissingFails | AK/OptionParser.cpp:146-149 | a last letter that needs an argument is an error at the end of the line |
| OptionLines.LongFound | AK/OptionParser.cpp:155-181 | a long option is found by its name alone, without a value, and by its name with an equals sign, with what is behind it |
| OptionLines.LongAloneReads | AK/OptionParser.cpp:201-211 | two dashes and a name that needs no argument: reported without a value |
| OptionLines.LongWithReads | AK/OptionParser.cpp:209-215 | two dashes, a name that takes an argument, an equals sign and a value: reported with it, even if it is empty |
| OptionLines.LongThenReads | AK/OptionParser.cpp:216-219 | two dashes and a name that needs an argument: the next argument is its value |
| OptionLines.UnknownLongFails | AK/OptionParser.cpp:190-194 | a name that is in no table is an error, with or without a value |
| OptionLines.UnwantedValueFails | AK/OptionParser.cpp:202-206 | a value for a name that takes none is an error |
| OptionLines.MissingLongFails | AK/OptionParser.cpp:220-223 | a name that needs an argument is an error at the end of the line |
| OptionLines.ReadsBack | AK/OptionParser.cpp:19-77 | reading a line written from any list of clusters, long options, values and other arguments gives back the list, and goes on with what follows |
| OptionLines.RunBack | AK/OptionParser.cpp:19-77 | a run over such a line reports exactly what it was written from, in order, and leaves the options, the double dash, the other arguments and what follows, with the index behind the double dash |
| OptionLines.FaultSpreads | AK/OptionParser.cpp:55-62 | a fault anywhere after a well-written line makes the whole run an error |

## Left out

- BigIntMul.BaselineMul: the product of two signed words is taken to wrap around in the double word, where the original leaves it undefined.
- KnuthDivision.DivModInternal: as in the original, the remainder is written only as far as the dividend reaches.
- DecimalDigits.FromDecimal: limits above 769 digits, which no caller passes and for which the words may not suffice, are excluded.
- MinimalBigInt.MinimalBigInt.MultiplyWithPowerOf5: the literal words of the power table are taken to be the words of 5^(2^i).
- MemMem.MemMemChunked: an empty needle is excluded, for which the original indexes an empty table; for the same reason OffsetOf excludes it.
- BitStream.Input.PeekBits: results narrower than 64 bits are not modelled separately.
- CircularBuffer.CircularBuffer.CreateEmpty: a capacity of 0 is excluded, for which discard(0) and a nonempty read_with_seekback(0) would take a remainder modulo 0.
- CircularBuffer.CircularBuffer.CopyFromSeekback: after a failed check the process ends, so only the buffer invariant is stated then.
- HashTable.OrderedHashTable.Set: the arithmetic of capacities does not model the width of size_t.
- OptionParser.OptionParser.GetOpt: what the parser's fields hold after an error is not stated.
- OptionLines.ReadsBack: names that hold an equals sign or repeat an earlier name are excluded up to the one that is written, because such a line can spell another option.
- The carry intrinsics of compilers: the portable form of add_words and sub_words is modelled.
- 32-bit native words in MinimalBigInt, and top_64_bits.
- Correct rounding of floating-point numbers, the 651-entry power table and the printing of doubles.
- Bitwise operations of big-integer storages: one word at a time, nothing to prove beyond the loop.
- The unordered table, its iterators, clear, ensure_capacity and the running of destructors.
- Out-of-memory results of the table, the ring buffer and the memory stream.
- create_initialized, offset_of of the ring buffer, and filling from or flushing to a stream.
- The hash-chain search of the match finder and its location tables.
- Chunks of the memory stream are sequences, and the caller's buffer is a returned sequence: aliasing between them is not modelled.
- Errors of the streams under the bit streams, a source that delivers nothing before its end, and the big-endian bit streams.
- The key and value wrapper around the heap, peek_min and clear.
- Diagnostics, flag pointers and optopt of getopt: a long option is reported by its index.
