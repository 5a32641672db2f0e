# N-gram distance engine of ClickHouse's `ngramDistance` functions

This project models `NgramDistanceImpl`, the engine behind the four SQL functions `ngramDistance`, `ngramDistanceCaseInsensitive`, `ngramDistanceUTF8` and `ngramDistanceCaseInsensitiveUTF8`. It proves properties of that model.

The engine works in four steps:

1. It splits the needle into code points. These are bytes with N = 4 in the ASCII instantiations, and UTF-8 sequences packed into a UInt32 with N = 3 in the UTF-8 instantiations.
2. It hashes every window of N consecutive code points (an n-gram) to 16 bits and counts the hashes in a table of 65536 UInt16 counters.
3. It walks the haystack the same way. For each hash it moves a running distance by -1 when the counter still reads positive as an Int16, and by +1 otherwise. It then decrements the counter and records the hash.
4. It re-increments every recorded counter. The score is `distance / max(total n-gram count, 1)`.

Haystacks longer than 2^15 bytes score 1.

The model has seven modules:

- `Words`: machine words, meaning wrapping UInt16 counters, the Int16 reading, byte packing and the two case folds.
- `Decoding`: the four instantiations, as the `Mode` datatype. It also holds `Codepoints`, the reference code point stream of a byte range, decoded one code point at a time.
- `Hashing`: the two hash functors and `Ngrams`, the reference list of n-gram hashes of a stream.
- `Reader`: the two batched readers, as methods over the window array `cp`. Each is proved to append exactly the next code points of the reference stream.
- `Table`: the counter table as a `seq<u16>`. `Bump` and `Drop` give the table after a run of increments or decrements. `ScanDistance` gives the distance after the ±1 rule.
- `Stats`: the two batched walks, `calculateNeedleStats` and `calculateHaystackStatsAndMetric`, as methods over the `array<u16>` table. Both are proved to process exactly the reference n-grams, in order, across batches.
- `Driver`: `constant_constant` and `vector_constant`, proved to return `ScoreAsWritten`, the score with the needle length exactly as `calculateNeedleStats` returns it and read as `size_t`. Also the score `Score` with the needle's n-gram count, and proofs that the two agree whenever that length is not negative (always in ASCII mode) and that `Score` is the L1 distance between the n-gram histograms under stated bounds.

Foreign code is passed in as fields of `Mode`: `intHashCRC32`, the CRC step `_mm_crc32_u64` and `UTF8::seqLength`.

Scores are kept as a numerator and denominator (`Ratio`). The `size_t` arithmetic that produces them is written out modulo 2^64.

Inputs are the byte sequences the engine reads, padding included. A single string is followed by the 16 zero bytes that `resize` appends. A column carries its rows, each ending in a zero byte, and then the column's right padding.

## Model

| member | source | states |
|---|---|---|
| Words.WrapModulo | dbms/src/Functions/FunctionsStringSimilarity.cpp:52-56 | `++` and `--` on a UInt16 counter are +1 and -1 modulo 2^16 |
| Words.Signed16 | dbms/src/Functions/FunctionsStringSimilarity.cpp:234 | `static_cast<Int16>` reads a counter as the one value in [-2^15, 2^15) that is congruent to it modulo 2^16 |
| Words.ClearBit5Bits | dbms/src/Functions/FunctionsStringSimilarity.cpp:143-158 | the UTF-8 case fold leaves bit 5 clear and keeps every other bit of the byte |
| Words.ToLower | dbms/src/Functions/FunctionsStringSimilarity.cpp:73-77 | `tolower` changes only 'A'..'Z', to 'a'..'z'; its result is never an upper-case letter |
| Words.Load32IsLE | dbms/src/Functions/FunctionsStringSimilarity.cpp:58-61 | the word `unalignedLoad<UInt32>` hashes is the little-endian reading of the four code points |
| Words.LEInjective | dbms/src/Functions/FunctionsStringSimilarity.cpp:58-61 | the little-endian word determines its bytes, so the ASCII hash depends on the whole 4-gram |
| Words.Combine64Parts | dbms/src/Functions/FunctionsStringSimilarity.cpp:63-67 | the UInt64 built from the first two code points fits in 64 bits, and its high and low halves are those code points |
| Decoding.Utf8Length | dbms/src/Functions/FunctionsStringSimilarity.cpp:115-118 | the clipped sequence length is at least 1 and never passes `end` |
| Decoding.PackBound | dbms/src/Functions/FunctionsStringSimilarity.cpp:122-138 | the value copied into a code point is below 256^w for w copied bytes |
| Decoding.PackIsLE | dbms/src/Functions/FunctionsStringSimilarity.cpp:122-138 | without case folding, `memcpy` into a zeroed UInt32 is the little-endian reading of the sequence's bytes |
| Decoding.Utf8UnitBound | dbms/src/Functions/FunctionsStringSimilarity.cpp:120-158 | a UTF-8-mode code point fits its UInt32 slot |
| Decoding.CodepointsLength | dbms/src/Functions/FunctionsStringSimilarity.cpp:79-165 | a byte range yields at most one code point per byte, and exactly one per byte in ASCII mode |
| Decoding.AsciiSplit | dbms/src/Functions/FunctionsStringSimilarity.cpp:94-104 | in ASCII mode the stream splits at any cursor into the units before it and the stream after it |
| Decoding.CodepointsSlice | dbms/src/Functions/FunctionsStringSimilarity.cpp:79-165 | decoding reads only the bytes of its range, never the padding after `end` |
| Decoding.SliceStream | dbms/src/Functions/FunctionsStringSimilarity.cpp:266-269 | the stream of a range of a padded buffer is the stream of the unpadded string |
| Hashing.AsciiHash | dbms/src/Functions/FunctionsStringSimilarity.cpp:58-61 | `intHashCRC32` of the UInt32 loaded from the four code points, masked to 16 bits |
| Hashing.AsciiHashIsLE | dbms/src/Functions/FunctionsStringSimilarity.cpp:58-61 | the ASCII hash is `intHashCRC32` of the little-endian word of the 4-gram's bytes, masked to 16 bits |
| Hashing.Utf8Hash | dbms/src/Functions/FunctionsStringSimilarity.cpp:63-71 | the CRC step from the third code point over the UInt64 built from the first two, masked to 16 bits |
| Hashing.Utf8HashWord | dbms/src/Functions/FunctionsStringSimilarity.cpp:63-71 | on UInt32 code points, the UTF-8 hash is the CRC step from `cp[2]` over the word whose high half is `cp[0]` and whose low half is `cp[1]`, masked to 16 bits |
| Hashing.Hash | dbms/src/Functions/FunctionsStringSimilarity.cpp:251-258 | the hash functor `dispatchSearcher` passes: `ASCIIHash` in the ASCII instantiations, `UTF8Hash` in the UTF-8 ones |
| Hashing.Ngrams | dbms/src/Functions/FunctionsStringSimilarity.cpp:188-194 | a stream of c code points has c - N + 1 n-grams, or none when c < N |
| Hashing.NgramsIndex | dbms/src/Functions/FunctionsStringSimilarity.cpp:191-192 | the j-th n-gram hash is the hash of the N code points that start at j |
| Hashing.NgramsPrefix | dbms/src/Functions/FunctionsStringSimilarity.cpp:188-194 | reading more code points keeps every n-gram already complete, in place |
| Hashing.NgramsSuffix | dbms/src/Functions/FunctionsStringSimilarity.cpp:229-242 | the n-grams of a suffix of the stream are the matching tail of its n-grams |
| Hashing.SuffixIndex | dbms/src/Functions/FunctionsStringSimilarity.cpp:229-242 | n-gram `k` of the suffix from `j` is n-gram `j + k` of the stream |
| Hashing.NgramOfSuffix | dbms/src/Functions/FunctionsStringSimilarity.cpp:231-233 | `hash_functor(cp + i)` is the n-gram of the batch's remaining slots at position `i - i0` |
| Hashing.WindowAdvance | dbms/src/Functions/FunctionsStringSimilarity.cpp:87-94 | moving the window's last N - 1 slots to the front and appending the new batch keeps it a window of the extended stream |
| Hashing.WindowTail | dbms/src/Functions/FunctionsStringSimilarity.cpp:185 | from slot `i` on, the window holds the stream's tail |
| Reader.ReadAscii | dbms/src/Functions/FunctionsStringSimilarity.cpp:79-105 | slots 0..2 receive old slots 13..15 and slots 3..18 the next 16 bytes, lowered in slots 3..15 in case-insensitive mode; the cursor moves by 13; `found` is 16, or less by the overshoot; the valid new slots are exactly the next code points of the stream |
| Reader.ReadUtf8 | dbms/src/Functions/FunctionsStringSimilarity.cpp:107-165 | slots 0..1 receive old slots 14..15; the loop fills slots from 2 while there is room and input; slots beyond `num` are untouched; the filled slots are exactly the next code points of the stream, and the window is full unless input is exhausted |
| Reader.Utf8Advance | dbms/src/Functions/FunctionsStringSimilarity.cpp:115-162 | one loop turn appends the code point of the clipped sequence at `pos` and moves past it, along the reference stream |
| Reader.Read | dbms/src/Functions/FunctionsStringSimilarity.cpp:251-258 | both readers keep the previous window's last N - 1 slots in front of the new code points; a read with input left finds at least one code point, so it never ends the loop by returning 0 |
| Table.Zeros | dbms/src/Functions/FunctionsStringSimilarity.cpp:262-263 | the table after `memset` has 65536 zero counters |
| Table.BumpCount | dbms/src/Functions/FunctionsStringSimilarity.cpp:191-192 | after the increments, each counter has grown by its bucket's number of occurrences, modulo 2^16 |
| Table.DropCount | dbms/src/Functions/FunctionsStringSimilarity.cpp:240 | after the decrements, each counter has shrunk by its bucket's number of occurrences, modulo 2^16 |
| Table.RestoreExact | dbms/src/Functions/FunctionsStringSimilarity.cpp:245-247 | re-incrementing every recorded hash restores the table exactly, whatever the wrap-around |
| Table.BumpNext | dbms/src/Functions/FunctionsStringSimilarity.cpp:192 | one more `++ngram_stats[hash]` extends the increments by one hash |
| Table.DropNext | dbms/src/Functions/FunctionsStringSimilarity.cpp:233-240 | one more loop turn extends the decrements and the distance by one hash, with the ±1 step read from the counter before the decrement |
| Table.ScanBounds | dbms/src/Functions/FunctionsStringSimilarity.cpp:234-237 | each haystack n-gram moves the distance by exactly one |
| Table.ScanShift | dbms/src/Functions/FunctionsStringSimilarity.cpp:234-237 | the ±1 steps do not depend on the starting distance, so the distance a haystack adds is the same from every start |
| Table.CounterReadsDifference | dbms/src/Functions/FunctionsStringSimilarity.cpp:234 | under the bounds below, the Int16 reading of a counter is the needle count minus the haystack count seen so far |
| Table.DifferenceStep | dbms/src/Functions/FunctionsStringSimilarity.cpp:234-237 | a hash still unmatched in the needle lowers the needle-only part of the difference; any other hash raises the haystack-only part |
| Table.ScanIsL1 | dbms/src/Functions/FunctionsStringSimilarity.cpp:26-31 | starting from the needle histogram and its size, with needle buckets below 2^15 and at most 2^15 haystack n-grams, the ±1 rule ends at the L1 distance of the two histograms |
| Table.Compose | dbms/src/Functions/FunctionsStringSimilarity.cpp:188-194 | increments, decrements and the distance rule over a concatenation continue where the first part stopped |
| Stats.WalkStart | dbms/src/Functions/FunctionsStringSimilarity.cpp:183-185 | the first batch starts at slot N - 1 with no n-gram done |
| Stats.WalkBatch | dbms/src/Functions/FunctionsStringSimilarity.cpp:188-193 | the n-grams of a batch from slot `i` are exactly the n-grams of the stream read so far that are not yet done |
| Stats.WalkCount | dbms/src/Functions/FunctionsStringSimilarity.cpp:191-192 | counting a batch completes the counts of the stream read so far |
| Stats.WalkScan | dbms/src/Functions/FunctionsStringSimilarity.cpp:231-241 | scanning a batch completes the recorded list, the decrements and the distance of the stream read so far |
| Stats.WalkRead | dbms/src/Functions/FunctionsStringSimilarity.cpp:193-194 | after a full batch, the next read starts a batch at slot 0 with every earlier n-gram done |
| Stats.FirstRead | dbms/src/Functions/FunctionsStringSimilarity.cpp:183-185 | the first read establishes the walk's state |
| Stats.Advance | dbms/src/Functions/FunctionsStringSimilarity.cpp:194 | the read in the loop condition moves the walk on to the next batch and strictly advances the cursor |
| Stats.CountBatch | dbms/src/Functions/FunctionsStringSimilarity.cpp:191-192 | the inner loop increments the counter of every n-gram of the window from `i0` on |
| Stats.CountStream | dbms/src/Functions/FunctionsStringSimilarity.cpp:178-196 | the do-while loop increments the counter of every n-gram of the stream, and `len` is the code point count minus N - 1 |
| Stats.CalculateNeedleStats | dbms/src/Functions/FunctionsStringSimilarity.cpp:167-197 | the table gains every n-gram of the needle; the result is 0 below N bytes, and otherwise the code point count minus N - 1, possibly negative |
| Stats.ScanBatch | dbms/src/Functions/FunctionsStringSimilarity.cpp:231-241 | the inner loop records, decrements and moves the distance for every n-gram of the window from `i0` on, following the ±1 rule |
| Stats.Restore | dbms/src/Functions/FunctionsStringSimilarity.cpp:245-247 | the closing loop increments every recorded bucket |
| Stats.ScanRound | dbms/src/Functions/FunctionsStringSimilarity.cpp:231-242 | one batch brings the recorded list, the table and the distance up to date with the stream read so far |
| Stats.ScanStep | dbms/src/Functions/FunctionsStringSimilarity.cpp:229-243 | one do-while turn either ends with every n-gram recorded or reads the next batch |
| Stats.ScanStream | dbms/src/Functions/FunctionsStringSimilarity.cpp:207-243 | the recorded list is every n-gram of the haystack in order; the table has lost them and the distance has followed the ±1 rule over them |
| Stats.CalculateHaystackStatsAndMetric | dbms/src/Functions/FunctionsStringSimilarity.cpp:199-249 | the table is left exactly as found; the count is the number of n-grams and never exceeds `size`, so either `ngram_storage` buffer holds them; the distance is the ±1 rule over the n-grams |
| Driver.Max1 | dbms/src/Functions/FunctionsStringSimilarity.cpp:276 | `std::max(x, size_t(1))` is at least 1 and is `x` when `x` is not 0 |
| Driver.ZeroPadding | dbms/src/Functions/FunctionsStringSimilarity.cpp:268-269 | `resize` appends 16 bytes |
| Driver.NeedleCountIsNgramCount | dbms/src/Functions/FunctionsStringSimilarity.cpp:175-196 | the needle length clamped at 0 is the needle's n-gram count, in every instantiation |
| Driver.NeedleLenSign | dbms/src/Functions/FunctionsStringSimilarity.cpp:175-190 | the unclamped length is the n-gram count exactly when it is not negative, and it is negative exactly for needles of at least N bytes but fewer than N - 1 code points; in ASCII mode it is never negative |
| Driver.Reported | dbms/src/Functions/FunctionsStringSimilarity.cpp:276 | the reported ratio never divides by zero |
| Driver.Score | dbms/src/Functions/FunctionsStringSimilarity.cpp:260-282 | the corrected score, with the distance and total starting from the needle's n-gram count, never divides by zero, and a haystack over 2^15 bytes scores 1 |
| Driver.ScoreAsWritten | dbms/src/Functions/FunctionsStringSimilarity.cpp:271-281 | the score both drivers compute, with the unclamped needle length starting the distance and the total, never divides by zero |
| Driver.AsWrittenAgrees | dbms/src/Functions/FunctionsStringSimilarity.cpp:271-276 | as written and corrected, the scores agree whenever the needle length is not negative |
| Driver.EuroScoresOneAsWritten | dbms/src/Functions/FunctionsStringSimilarity.cpp:175-190 | the needle "€" against itself scores (2^64 - 1)/(2^64 - 1) as written, and 0/1 with the clamped count |
| Driver.ProfileTable | dbms/src/Functions/FunctionsStringSimilarity.cpp:262-271 | the needle's table holds each bucket's count modulo 2^16 |
| Driver.ReportedWraps | dbms/src/Functions/FunctionsStringSimilarity.cpp:271-276 | starting the distance and the total from the length read as `size_t` reports the same ratio as starting from the length itself |
| Driver.ReportedIsL1 | dbms/src/Functions/FunctionsStringSimilarity.cpp:26-31 | with small needle buckets and at most 2^15 haystack n-grams, the reported ratio is the histogram L1 distance over the total count |
| Driver.ReportedInRange | dbms/src/Functions/FunctionsStringSimilarity.cpp:276 | when the distance and total fit in `size_t`, the reported ratio is exactly distance over max(total, 1) |
| Driver.ScoreIsL1 | dbms/src/Functions/FunctionsStringSimilarity.cpp:26-33 | with needle buckets below 2^15, the corrected score equals the reference histogram L1 score for every haystack |
| Driver.DistanceInUnitInterval | dbms/src/Functions/FunctionsStringSimilarity.cpp:26-33 | the reference score lies in [0, 1] |
| Driver.DistanceZeroIff | dbms/src/Functions/FunctionsStringSimilarity.cpp:26-33 | below the size cap, the reference score is 0 exactly when the two n-gram histograms are equal |
| Driver.ScoreBounds | dbms/src/Functions/FunctionsStringSimilarity.cpp:26-33 | with small needle buckets, the corrected score lies in [0, 1], and a string within the cap scores 0 against itself |
| Driver.AsWrittenIsL1 | dbms/src/Functions/FunctionsStringSimilarity.cpp:26-33 | with needle buckets below 2^15 and a needle length that is not negative, the drivers' score equals the reference histogram L1 score |
| Driver.AsWrittenBounds | dbms/src/Functions/FunctionsStringSimilarity.cpp:26-33 | under the same conditions, the drivers' score lies in [0, 1], and a string within the cap scores 0 against itself |
| Driver.PaddedStream | dbms/src/Functions/FunctionsStringSimilarity.cpp:266-269 | padding a string does not change its code point stream |
| Driver.ScoreOfRange | dbms/src/Functions/FunctionsStringSimilarity.cpp:273-281 | the drivers' score of a byte range cut from a buffer is 1 over the cap, and otherwise the reported ratio over the stream of that range, from the unclamped needle length |
| Driver.NewTable | dbms/src/Functions/FunctionsStringSimilarity.cpp:262-263 | a fresh zeroed table |
| Driver.ProfileNeedle | dbms/src/Functions/FunctionsStringSimilarity.cpp:266-271 | the table holds the needle's n-gram histogram, and the count is the `calculateNeedleStats` result read as `size_t` |
| Driver.Compare | dbms/src/Functions/FunctionsStringSimilarity.cpp:273-281 | one comparison leaves the table as found; over the cap it scores 1 and leaves the distance alone; otherwise the caller's distance follows the ±1 rule over the haystack's n-grams, and the score is that distance over the total, both as `size_t` |
| Driver.ReportedOf | dbms/src/Functions/FunctionsStringSimilarity.cpp:271-276 | with the distance started from the needle's `size_t` length, `distance * 1.f / max(first_size + second_size, 1)` is the drivers' score |
| Driver.ConstantConstant | dbms/src/Functions/FunctionsStringSimilarity.cpp:260-282 | `constant_constant` returns the drivers' score of the haystack against the needle as written, and the corrected score whenever the needle length is not negative |
| Driver.WholeScore | dbms/src/Functions/FunctionsStringSimilarity.cpp:266-281 | comparing the padded haystack gives the drivers' score of the haystack |
| Driver.Row | dbms/src/Functions/FunctionsStringSimilarity.cpp:301-302 | row `i` has `offsets[i] - prev_offset - 1` bytes |
| Driver.CompareRow | dbms/src/Functions/FunctionsStringSimilarity.cpp:301-313 | one comparison, entered with the distance at the needle's `size_t` length, scores row `i` as the row alone would and leaves the table as it found it |
| Driver.RowScore | dbms/src/Functions/FunctionsStringSimilarity.cpp:301-313 | comparing the row's bytes in place in the column gives the drivers' score of the row |
| Driver.VectorConstant | dbms/src/Functions/FunctionsStringSimilarity.cpp:284-317 | every `res[i]` is the drivers' score of row `i` alone, and the corrected score whenever the needle length is not negative; the reset of `distance` after each row and the restored table make each row independent of the rows before it |

## Left out

- The `FunctionsStringSimilarity` wrapper is not part of this model. It is declared in the header and dispatches on column types. The registration at lines 346-352 is not modelled either.
- `dbms/src/AggregateFunctions/AggregateFunctionUniq.cpp` is not part of this model.
- `intHashCRC32`, `_mm_crc32_u64` and `UTF8::seqLength` are foreign code. They are fields of `Mode` and stay uninterpreted. `seqLength` is only known to return at least 1.
- `UTF8Hash` is written after the `_mm_crc32_u64` branch, with the CRC step an uninterpreted function of `(cp[2], combined)`. The non-SSE 4.2 fallback at line 69, `intHashCRC32(combined) ^ intHashCRC32(cp[2])`, is one such function, so every result proved here holds for both branches.
- `std::tolower` is modelled for the C locale only: 'A'..'Z' to 'a'..'z'.
- Float32 arithmetic is not modelled. The scores are `Ratio(num, den)` values with the same numerator and denominator. Rounding of the conversion and the division is left out.
- Memory past the padding is not modelled. Reads beyond the string go into an explicit padded sequence, and the contracts require that padding to be present, as `resize` and the column's padding provide it.
- The choice between `small_buffer` and `big_buffer` for the recorded hashes is not modelled. They are a `seq`. `Stats.CalculateHaystackStatsAndMetric` proves the count never exceeds `size`, which is what makes either buffer large enough.
- `distance` is an unbounded integer in the walks. The drivers start it from the needle length read as `size_t`, and its own `size_t` wrap-around is applied where it is read, when the ratio is formed. This agrees with computing modulo 2^64 throughout, because only additions and subtractions happen before that point. `Driver.ReportedWraps` shows that starting from the raw length gives the same ratio.
- Driver.ScoreIsL1: holds only when every needle bucket holds fewer than 2^15 n-grams (and the needle is shorter than 2^64 - 2^15 bytes). Past that, the Int16 reading of a counter wraps, and the engine's score is no longer the L1 distance. The source does not cap needles.
- Driver.ScoreBounds: the [0, 1] bound and the zero self-score are stated under the same bounds as `Driver.ScoreIsL1`.
- Driver.AsWrittenIsL1: stated under the bounds of `Driver.ScoreIsL1` and a needle length that is not negative. Without the latter the drivers' score is not the L1 distance (see Findings).
- Driver.AsWrittenBounds: stated under the same conditions as `Driver.AsWrittenIsL1`; the euro sign against itself scores 1, not 0, as written.
- Driver.VectorConstant: the ensures states each `res[i]` pointwise. That equal rows score alike, wherever they stand, follows from it because `ScoreAsWritten` is a function. It is not stated as a separate clause.
- Decoding.Utf8Length: the ensures gives only the range of the clipped length. The clipping rule itself is the function's body.

## Findings

| source | as written | input that shows it | evidently intended | confidence | as-written member | corrected member |
|---|---|---|---|---|---|---|
| dbms/src/Functions/FunctionsStringSimilarity.cpp:175-190 | the guard `size < N` counts bytes, but `len` counts code points minus N - 1, so a needle of at least N bytes with fewer than N - 1 code points returns -1, which `size_t` reads as 2^64 - 1 | UTF-8 mode, needle and haystack both "€" (E2 82 AC): the score is (2^64 - 1)/(2^64 - 1), that is 1, "not similar at all" | the needle count is its n-gram count, never negative, so a string scores 0 against itself | high; not executed | Driver.ScoreAsWritten, Driver.EuroScoresOneAsWritten | Driver.Score, Driver.NeedleCountIsNgramCount |
