# Models of the vendored engines

Dafny models of the eight algorithmic engines in `core/`, with their main properties proved for all inputs
or all runs. `dafny verify dfyconfig.toml` checks everything.

Where the source loops and updates in place, so does the model: classes for `deflate_state`, `Bigint`, the
`p5s` list, the trie, `strbuf_t`, the JSON parser, the state of `inflateBack`, the AES statics and the lists
of the thread pool, and array algorithms elsewhere. Each is proved against functions on values, and what the
source promises is proved about those functions.

| engine | modules | main result |
|---|---|---|
| LZ77 compressor | `Sequences`, `Lz77`, `DeflateHash`, `DeflateTables`, `Deflate` | `Deflate.DeflateState.Run`: expanding the tokens gives back the input, for both compressors, any chunks and any shortage of output space; `FastStep` and `SlowStep` tally the longest match among the candidates the tables hold |
| Huffman tables and decoders | `Arith`, `BitReverse`, `Canonical`, `InflateTable`, `HuffmanLookup`, `BitInput`, `InflateSpec`, `InflateSymbols`, `InflateCopy`, `InflateFast`, `InflateBack` | `InflateTable.InflateTable` decodes the canonical code, and refuses exactly the sets that are no code or need too much space; `InflateSymbols.EventOfSymbols` says what its symbols mean; `InflateFast` and the `LEN` case refine one specification, so `InflateBack.BlocksAgree` |
| checksums | `Crc32`, `Crc32Tables`, `Crc32Words`, `Crc32Combine`, `Adler32` | table forms equal the bitwise definitions; the combine functions compute the check of the concatenation |
| decimal output | `Limbs`, `Bignum`, `BignumCompare`, `BignumShift`, `BignumPow5`, `DtoaDigits`, `DtoaScale` | `DtoaScale.FixedDigits`: digits correctly rounded, half to even |
| segmentation | `Unicode`, `Trie`, `MpSegment`, `HmmSegment`, `MixSegment` | `MixSegment.Cut` composes prefilter, dictionary and HMM on every sentence; `MpSegment.PlanIsBest` and `HmmSegment.Viterbi` are optimal |
| JSON | `Strbuf`, `Json`, `JsonEncode`, `JsonGrammar`, `JsonUnicode`, `JsonRoundTrip`, `JsonParser`, `JsonText`, `JsonReading` | `JsonRoundTrip.RoundTrip`: decoding undoes encoding; `JsonReading.DecodeIff`: exactly the texts of the grammar are read, as what they spell |
| packet encryption | `AesField`, `AesCipher`, `AesStandard`, `Aes`, `Crypt` | `AesCipher.DecryptEncrypt`, lifted to CBC buffers and to packets by `Crypt.RoundTrip`; `AesStandard` proves tables, key schedule and rounds against FIPS 197 |
| thread pool | `WorkQueue`, `ThreadPool` | `ThreadPool.InvRun` over every interleaving, with order, ownership, wake-up, deadlock and shutdown results |

How the models stand for the source:

- Positions in the compressor are absolute, `base + strstart`; the ghost field `data` is all input read so
  far. `match_start` may wrap when the window slides, so a pending match is held by its distance. The results
  of `SlowStep` and `FastStep` tie the token to the length the search returned, and that to the candidates in
  the tables before the step; `DeflateTables.ChainComplete` says that these are all there are.
- `inflate_table` works on bit operators given by recursion (`BitReverse`), because the code is kept reversed.
- Input for `inflateBack` comes in chunks of any size and `out()` may refuse any window: both are choices the
  model leaves open. "Fails" means the input ended.
- The accumulator `hold` of the decoders is a number; that it fits 32 bits is proved.
- Weights in the segmentation are `real`. `MIN_DOUBLE` is the constant of the source, and sums that fall below
  it are cut off as there; the optimality results say where this cannot matter.
- `JsonText` spells a text as a tree that keeps white space and escapes; nothing in it comes from the tokenizer.
- JSON values are strings, booleans, null, arrays and string-keyed objects. Where a text holds a number the
  decoder's model stops with its own result, `AtNumber`, and says nothing about the rest.
- In `Crypt` the layout of a packet is a parameter, so the proofs hold for every structure with a header and
  an end chunk. `EncodeDecoded` gives the exact condition under which an accepted packet re-encodes to itself,
  since the code also accepts a length shorter than that of the structure.
- In `ThreadPool` a step is one action under a mutex or one unprotected access. The unprotected write of
  `shutdown` is its own step; condition variables may wake spuriously. `WorkQueue` proves that the pointer
  code of each critical section does to the lists what the step does to the sequences.
- Two corner cases of the bignum code are stated as they are: `lshift` of zero by a whole limb leaves leading
  zeros (`Bignum.LShift` says exactly when the result is normalised), and `mult` with a zero factor returns a
  number without limbs.

## Model

| member | source | states |
|---|---|---|
| Lz77.CopyBackIsMatch | core/zlib/deflate.c:1445-1467 | copying len bytes from dist back rebuilds the data exactly when the data repeat there, overlap included |
| Lz77.CopyBackAt | core/zlib/inffast.c:251-264 | every byte of a copy is the byte dist places before it |
| Lz77.CopyBackSplit | core/zlib/infback.c:586-603 | copying in two pieces is copying once |
| DeflateHash.HashForgets | core/zlib/deflate.c:157-163 | after three updates the key depends on the last three bytes only |
| DeflateHash.ThirdByteImplied | core/zlib/deflate.c:1335-1342 | equal keys and equal first two bytes force an equal third byte, for every legal hash_bits |
| DeflateHash.NextKey | core/zlib/deflate.c:182-186 | inserting the string one further rolls the key on by one byte |
| DeflateTables.InsertKeepsTables | core/zlib/deflate.c:182-186 | the two stores of INSERT_STRING keep every entry the newest older string with its key, or NIL if the window holds none |
| DeflateTables.GrowKeepsTables | core/zlib/deflate.c:1534-1535 | reading more input keeps the chains sound and complete |
| DeflateTables.SlideKeepsTables | core/zlib/deflate.c:201-225 | slide_hash changes every entry and the meaning of none: what stays denotes the same absolute position |
| DeflateTables.NextLink | core/zlib/deflate.c:1372-1373 | one step along a chain leads to the newest older string with the same key, or NIL if there is none |
| DeflateTables.ChainSound | core/zlib/deflate.c:1236-1377 | every candidate above the limit is an older inserted string with the key searched for, strictly older each time |
| DeflateTables.ChainComplete | core/zlib/deflate.c:1236-1377 | every inserted string with the key that lies above the limit is a candidate, unless the chain is cut off at its permitted length |
| DeflateTables.ChainAfterInsert | core/zlib/deflate.c:1845-1861 | inserting the string searched for changes none of the links that the search follows |
| Deflate.DeflateState.TallyLit | core/zlib/deflate.h:326-332 | a literal goes into both buffers; the result says whether the block is full |
| Deflate.DeflateState.TallyDist | core/zlib/deflate.h:333-342 | distance and length survive the truncation to 16 and 8 bits |
| Deflate.DeflateState.InsertString | core/zlib/deflate.c:182-186 | the string is linked in, the key rolls on, the result is the old head of its chain; the new tables in full |
| Deflate.DeflateState.SlideHash | core/zlib/deflate.c:201-225 | every entry of both tables is rebased, to NIL if it falls below the window |
| Deflate.DeflateState.SlideWindow | core/zlib/deflate.c:1507-1518 | absolute position, data and strstart - match_start (mod 2^32) are kept, although match_start may wrap |
| Deflate.DeflateState.ReadBuf | core/zlib/deflate.c:1164-1189 | input moves behind the lookahead, none lost |
| Deflate.DeflateState.InsertSkipped | core/zlib/deflate.c:1545-1555 | strings skipped at the end of earlier input are inserted once their three bytes are there, all of them |
| Deflate.DeflateState.FillWindow | core/zlib/deflate.c:1482-1600 | afterwards there is MIN_LOOKAHEAD ahead or no input left; nothing read is lost, position and distances stay, and the pending strings that now have three bytes are inserted |
| Deflate.DeflateState.Extend | core/zlib/deflate.c:1344-1357 | the unrolled comparison stops exactly at the first difference behind the first three bytes, or at 258 |
| Deflate.DeflateState.FirstThree | core/zlib/deflate.c:1330-1342 | a candidate passing the first comparisons agrees in its unchecked third byte too |
| Deflate.DeflateState.QuickCheck | core/zlib/deflate.c:1330-1333 | a candidate that is skipped cannot beat the best length |
| Deflate.DeflateState.Visit | core/zlib/deflate.c:1330-1371 | one candidate: it becomes the best exactly when it is longer |
| Deflate.DeflateState.LongestMatch | core/zlib/deflate.c:1236-1377 | a result above prev_length is a true match within lookahead and MAX_DIST; below nice_match no candidate of the chain matches one byte more |
| Deflate.DeflateState.InsertHere | core/zlib/deflate.c:1845-1852 | the result is the head the table had for the key of the string at strstart, and the candidates from it are those of the tables before the insertion |
| Deflate.DeflateState.CandidatesComplete | core/zlib/deflate.c:1236-1377 | every inserted string nearer than MAX_DIST with the same three bytes is among the candidates, unless max_chain_length is used up |
| Deflate.DeflateState.AdvanceOver | core/zlib/deflate.c:1876-1901 | strstart moves over the match; the strings within are inserted exactly if it is at most max_insert_length long and three bytes are left |
| Deflate.DeflateState.FastStep | core/zlib/deflate.c:1845-1908 | tallies a match of the length found or the literal at strstart; none of the candidates the old tables hold for this string matches for more bytes, unless the length is nice, 258 or all that is left; says which strings are inserted |
| Deflate.DeflateState.DeflateFast | core/zlib/deflate.c:1824-1918 | per call: no input lost, progress, and when it ends the tokens mean everything read |
| Deflate.DeflateState.Decide | core/zlib/deflate.c:1983-2033 | three-way lazy decision: previous match, literal for the byte before, or wait |
| Deflate.DeflateState.SlowSearch | core/zlib/deflate.c:1961-1984 | match_length is the result of longest_match, or 2 if there is no head in range, the match before is long enough, or the new one is dropped |
| Deflate.DeflateState.SlowStep | core/zlib/deflate.c:1948-2034 | emits the match found one byte before unless the new one is longer, else the byte before as a literal; unless the match before was long enough, the new length is the outcome of a search that no candidate of the old tables betters, less short matches dropped as filtered or TOO_FAR; all strings passed over are inserted |
| Deflate.DeflateState.DeflateSlow | core/zlib/deflate.c:1926-2049 | as DeflateFast, with one byte held back inside a run and none at its end |
| Deflate.DeflateState.Run | core/zlib/deflate.c:1824-2049 | for any chunks, with as many calls as needed and Z_FINISH at the end, expanding the tallied tokens gives the whole input; every distance is in 1..MAX_DIST and every length in 3..258 |
| BitReverse.RevIncrement | core/zlib/inftrees.c:239-248 | the backwards increment of huff is adding one to the code, seen from the top |
| BitReverse.RevCarry | core/zlib/inftrees.c:239-248 | after the last code the increment carries out and leaves 0 |
| Canonical.LevelStart | core/zlib/inftrees.c:130-143 | the first code of each length starts where the shorter codes end |
| Canonical.PrefixFree | core/zlib/inftrees.c:130-147 | in the canonical code of section 3.2.2 of RFC 1951 no code begins another |
| Canonical.CompleteDecodes | core/zlib/inftrees.c:130-138 | with a complete set any bits begin with exactly one code |
| Canonical.BeginsInShare | core/zlib/inftrees.c:230-237 | bits begin with a code exactly when, read from the top, they lie in its interval |
| InflateTable.CountLengths | core/zlib/inftrees.c:106-110 | count[len] is the number of symbols of that length |
| InflateTable.FreeSpace | core/zlib/inftrees.c:130-138 | left is the free code space and the loop stops early exactly when the set is over-subscribed |
| InflateTable.SortSymbols | core/zlib/inftrees.c:140-147 | work[] holds the coded symbols by length and, within a length, by symbol |
| InflateTable.Increment | core/zlib/inftrees.c:239-248 | huff becomes the next canonical code reversed, or 0 after the last |
| InflateTable.Replicate | core/zlib/inftrees.c:230-237 | the entry stands at exactly the indices whose low bits are the code |
| InflateTable.LookAhead | core/zlib/inftrees.c:266-274 | the sub-table has the index bits that the longest code under the same root entry needs, no more and no less |
| InflateTable.NewTable | core/zlib/inftrees.c:257-287 | a new sub-table is opened and linked from the root, or refused exactly if the space counted up to here exceeds the constant; what was filled stays |
| InflateTable.FillTables | core/zlib/inftrees.c:213-288 | all codes are entered, in both levels, using exactly the space that the lengths need; or 1 exactly if that is more than allowed |
| InflateTable.SubTableSize | core/zlib/inftrees.c:263-274 | the size that the look-ahead finds from the remaining counts is that of the longest code with the same first root bits |
| InflateTable.InflateTable | core/zlib/inftrees.c:32-304 | -1 exactly for over-subscribed sets and for incomplete ones other than no code or a single one-bit non-CODES code; 1 exactly for the other non-CODES sets whose space, told from the lengths and the clamped root bits alone, exceeds ENOUGH; on 0 that space is used and the two-level table decodes every code with exactly its bits |
| HuffmanLookup.LookDecodes | core/zlib/inffast.c:110-114 | on bits that begin with a code the two table accesses give its symbol and take its length |
| HuffmanLookup.GoodOfInflateTable | core/zlib/inftrees.c:290-298 | every table accepted, complete or not, is safe for the decoders on any bits |
| BitInput.PullOk | core/zlib/inffast.c:105-108 | adding a byte above the bits at hand keeps hold the next bits of the input |
| BitInput.DropOk | core/zlib/inffast.c:112-114 | dropping bits moves the position by exactly as many |
| BitInput.ReturnOk | core/zlib/inffast.c:292-296 | giving whole bytes back keeps the bit position |
| InflateSpec.EventRanges | core/zlib/inffast.c:36-49 | a match takes at most 48 bits, its length is 3..258 and its distance 1..32768 |
| InflateSpec.RunAdd | core/zlib/infback.c:481-604 | runs of decoded events compose |
| InflateSpec.RunsEndOnce | core/zlib/infback.c:481-604 | a run reaches the point where it can go no further in one way only |
| InflateCopy.CopyFromWindow | core/zlib/inffast.c:169-250 | the three-way window split produces the overlapping LZ77 copy, also when window and output are one buffer |
| InflateCopy.CopyByThree | core/zlib/inffast.c:251-264 | the unrolled copy by threes is the bytewise copy |
| InflateSymbols.LengthTable | core/zlib/inftrees.c:60-65 | the base and extra-bit tables of the lengths follow the rule of section 3.2.5 of RFC 1951 |
| InflateSymbols.DistanceTable | core/zlib/inftrees.c:66-72 | and so do those of the distances |
| InflateSymbols.EventOfCodes | core/zlib/infback.c:492-576 | with tables built by inflate_table, bits that begin with the codes of a symbol and a distance symbol are the literal, length and distance of section 3.2.5 |
| InflateSymbols.EventOfSymbols | core/zlib/infback.c:492-576 | with two complete codes any bits are one event, that of the only symbols whose canonical codes begin them |
| InflateFast.HoldFits | core/zlib/inffast.c:36-49 | hold never needs more than 32 bits |
| InflateFast.FastEvent | core/zlib/inffast.c:104-168 | one literal, match or end of block, decoded as specified, from at most six bytes |
| InflateFast.Turn | core/zlib/inffast.c:103-290 | one turn reads at most 6 bytes, writes at most 258 and is one step of the specification |
| InflateFast.ReturnUnused | core/zlib/inffast.c:292-296 | whole unread bytes go back, fewer than 8 bits stay, the position is unchanged |
| InflateFast.InflateFast | core/zlib/inffast.c:50-307 | emits the bytes and consumes the bits of a number of whole events, and never leaves in before its entry value |
| InflateBack.SlowCode | core/zlib/infback.c:493-510 | a code is got byte by byte; it fails exactly when the input ends inside the code |
| InflateBack.SlowEvent | core/zlib/infback.c:492-576 | one event with every check; it fails exactly when the input ends inside it |
| InflateBack.InflateBackState.Room | core/zlib/infback.c:210-221 | the full window is handed to out(), which may refuse it |
| InflateBack.InflateBackState.SlowCopy | core/zlib/infback.c:584-603 | copying in pieces around the circular window is the overlapping copy |
| InflateBack.InflateBackState.LenCase | core/zlib/infback.c:481-604 | one turn of the slow path is one step of the specification |
| InflateBack.InflateBackState.DecodeBlock | core/zlib/infback.c:481-604 | the whole block, fast where allowed and slow elsewhere, in any input chunks |
| InflateBack.BlocksAgree | core/zlib/infback.c:481-490 | fast or slow, a block decoded from the same point ends with the same bytes at the same bit for the same reason |
| Crc32.UpdateConcat | core/zlib/crc32.c:202-234 | data may be fed in pieces |
| Crc32.RegisterLinear | core/zlib/crc32.c:372-425 | a different starting register shows as zero bits applied to the difference |
| Crc32.CombineIsConcat | core/zlib/crc32.c:372-425 | combining crc(A), crc(B) and the length of B gives crc(A ++ B), for all byte strings |
| Crc32Tables.MakeCrcTable | core/zlib/crc32.c:88-140 | the eight tables hold what they should: crc of a byte followed by 0 to 3 zero bytes, and the byte reversals |
| Crc32Tables.MakePoly | core/zlib/crc32.c:94-107 | the loop over the exponents of the polynomial builds the constant 0xedb88320 |
| Crc32Tables.CheckOfChecked | core/zlib/crc32.c:202-234 | data followed by their check, low byte first, always have the check 0x2144df1c |
| Crc32Tables.ByteStep | core/zlib/crc32.c:198-198 | one table access does eight bit steps |
| Crc32Tables.WordStep | core/zlib/crc32.c:260-262 | four table accesses do thirty-two bit steps |
| Crc32Tables.WordRegister | core/zlib/crc32.c:259-263 | adding a whole word and stepping is adding its four bytes in order |
| Crc32Words.Crc32Little | core/zlib/crc32.c:266-297 | equals the bit-at-a-time CRC of section 8 of RFC 1952, for every buffer, length and alignment |
| Crc32Words.Crc32Big | core/zlib/crc32.c:299-337 | the same for the byte-reversed form |
| Crc32Combine.TimesLinear | core/zlib/crc32.c:344-358 | gf2_matrix_times is linear |
| Crc32Combine.Gf2MatrixTimes | core/zlib/crc32.c:344-358 | the loop computes the matrix product |
| Crc32Combine.SquareComposes | core/zlib/crc32.c:361-369 | the square of an operator applies it twice |
| Crc32Combine.TimesIsZeros | core/zlib/crc32.c:385-395 | the operator of k zero bits steps the register k times |
| Crc32Combine.Crc32Combine_ | core/zlib/crc32.c:372-425 | the alternating loop applies exactly 8 len2 zero bits to crc1 |
| Adler32.SumsLate | core/zlib/adler32.c:90-131 | reducing late equals reducing at every byte, section 8.2 of RFC 1950 |
| Adler32.NoOverflow | core/zlib/adler32.c:12-14 | within NMAX bytes both sums stay below 2^32 |
| Adler32.SumsWorst | core/zlib/adler32.c:14-14 | the exact value of the sums on the worst data |
| Adler32.NmaxIsLargest | core/zlib/adler32.c:14-14 | one byte more than NMAX can overflow |
| Adler32.Adler32Z | core/zlib/adler32.c:63-131 | on all length paths the result is the per-byte definition |
| Adler32.CombineIsConcat | core/zlib/adler32.c:143-169 | combining A(x), A(y) and the length of y gives A(x ++ y) |
| Adler32.Adler32Combine_ | core/zlib/adler32.c:143-169 | the code computes that combination, and 0xffffffff for a negative length |
| Limbs.TopDecides | core/lua-cjson/dtoa.c:1035-1063 | the first different limb from the top decides the order |
| Limbs.LongerIsLarger | core/lua-cjson/dtoa.c:1052-1053 | without leading zeros the longer number is the larger |
| Bignum.MultAdd | core/lua-cjson/dtoa.c:613-667 | b m + a in place, growing by a limb when it must, still normalised |
| Bignum.Mult | core/lua-cjson/dtoa.c:806-914 | the product in a new number; a zero product keeps no limbs |
| Bignum.LShift | core/lua-cjson/dtoa.c:975-1032 | b 2^k; normalised exactly if b is not zero or k < 32 |
| BignumCompare.Cmp | core/lua-cjson/dtoa.c:1035-1063 | the integer order |
| BignumCompare.Diff | core/lua-cjson/dtoa.c:1069-1160 | the absolute difference, normalised, sign set exactly when a < b |
| BignumCompare.Estimate | core/lua-cjson/dtoa.c:2149-2149 | the quotient of the top limbs is at most one too small |
| BignumCompare.Quorem | core/lua-cjson/dtoa.c:2120-2241 | returns floor(b / S) and leaves b mod S in b |
| BignumShift.Hi0Bits | core/lua-cjson/dtoa.c:708-735 | the number of leading zero bits |
| BignumShift.DShift | core/lua-cjson/dtoa.c:2107-2117 | shifting by p2 and this amount brings the top limb of S where quorem wants it |
| BignumShift.TopOfShifted | core/lua-cjson/dtoa.c:2107-2117 | why: the top limb then has its highest bit at place 27 |
| BignumPow5.P5s.Next | core/lua-cjson/dtoa.c:956-969 | a new node is made by squaring the last; node i holds 5^(4 2^i), the nodes before stay |
| BignumPow5.P5s.Pow5Mult | core/lua-cjson/dtoa.c:918-972 | b 5^k, whatever calls came before |
| BignumPow5.S2b | core/lua-cjson/dtoa.c:670-699 | the number all nd digits denote |
| DtoaDigits.RoundUp | core/lua-cjson/dtoa.c:4314-4322 | one added in the last place; nines are dropped and nothing but nines becomes 1 with k + 1 |
| DtoaDigits.TrimZeros | core/lua-cjson/dtoa.c:4324-4329 | trailing zeros go, the value stays |
| DtoaDigits.GenerateDigits | core/lua-cjson/dtoa.c:4284-4329 | for S <= b < 10 S the digits of b / S, rounded half to even to ilim digits, no trailing zeros |
| DtoaScale.RoundRatio | core/lua-cjson/dtoa.c:4306-4312 | rounding depends on the ratio only |
| DtoaScale.SetUp | core/lua-cjson/dtoa.c:4101-4158 | after the common powers are removed and S is normalised the ratio b / S is still the value |
| DtoaScale.FixedDigits | core/lua-cjson/dtoa.c:4101-4329 | the correctly rounded digits of b0 2^b2 5^b5 / (2^s2 5^s5), including the check of the estimate of k |
| Unicode.DecodeEncoded | core/cppjieba/Unicode.hpp:87-140 | decoding undoes the UTF-8 encoding of every code point, whatever follows |
| Unicode.DecodeRunesInString | core/cppjieba/Unicode.hpp:142-157 | true exactly for decodable strings; then the runes tile the bytes |
| Unicode.WordsTileBytes | core/cppjieba/Unicode.hpp:193-210 | words that tile the runes are non-empty and concatenate to the bytes |
| Unicode.WordAt | core/cppjieba/Unicode.hpp:193-210 | word k is the bytes from the beginning of its first rune to the end of its last |
| Trie.Trie.InsertNode | core/cppjieba/Trie.hpp:120-143 | the last value written wins; the empty key changes nothing |
| Trie.Trie.CreateTrie | core/cppjieba/Trie.hpp:146-154 | all keys inserted in order |
| Trie.Trie.Find | core/cppjieba/Trie.hpp:61-79 | the value last written for exactly this key, if any |
| Trie.Trie.FindDag | core/cppjieba/Trie.hpp:81-118 | the edges of every position |
| Trie.EdgesAreWords | core/cppjieba/Trie.hpp:100-114 | exactly the words that start there and end in range are listed |
| Trie.DagIsDictionary | core/cppjieba/Trie.hpp:81-118 | the DAG lists exactly the dictionary words of at most max_word_len runes, and single runes of the dictionary |
| MpSegment.ChooseBest | core/cppjieba/MPSegment.hpp:86-104 | the choice at a position has the largest weight of its edges, or MIN_DOUBLE |
| MpSegment.CalcDP | core/cppjieba/MPSegment.hpp:80-107 | every position is solved against the later ones; nothing else changes |
| MpSegment.PlanSegments | core/cppjieba/MPSegment.hpp:109-127 | following the choices is a segmentation, whatever the weights |
| MpSegment.PlanIsBest | core/cppjieba/MPSegment.hpp:80-127 | above MIN_DOUBLE it has maximum total weight among all segmentations |
| MpSegment.SinglesSuffice | core/cppjieba/MPSegment.hpp:80-107 | a bound on single runes and length under which no sum gets as low as MIN_DOUBLE |
| MpSegment.CutByDag | core/cppjieba/MPSegment.hpp:109-127 | the words are the ranges of the choices |
| MpSegment.Cut | core/cppjieba/MPSegment.hpp:55-66 | the words tile the range and are a segmentation of maximum weight |
| HmmSegment.TableIsUpperBound | core/cppjieba/HMMSegment.hpp:130-168 | no sequence of states scores higher than the table |
| HmmSegment.PathAttains | core/cppjieba/HMMSegment.hpp:143-168 | with non-positive log-probabilities a cell above MIN_DOUBLE is attained by the path led back from it |
| HmmSegment.EndIsBest | core/cppjieba/HMMSegment.hpp:170-182 | the better of the two end states leads back to a best sequence |
| HmmSegment.Viterbi | core/cppjieba/HMMSegment.hpp:130-182 | no sequence ending in E or S scores higher than the result, when some score exceeds MIN_DOUBLE; and in every case each state is the first best one before the next, or E where all weights are cut off |
| HmmSegment.TableIsWeight | core/cppjieba/HMMSegment.hpp:143-163 | the table holds the best weight over the states before, cut off at MIN_DOUBLE, and the path the first state that attains it or E |
| HmmSegment.UnknownRune | core/cppjieba/HMMSegment.hpp:148-152 | a rune that no state emits cuts all weights off, so the state before it is E |
| HmmSegment.InternalCut | core/cppjieba/HMMSegment.hpp:114-128 | the words tile the range and end exactly at the states E and S |
| HmmSegment.SequentialLetterRule | core/cppjieba/HMMSegment.hpp:79-95 | a letter and all letters and digits behind it, or nothing |
| HmmSegment.NumbersRule | core/cppjieba/HMMSegment.hpp:97-112 | a digit and all digits and dots behind it, or nothing |
| HmmSegment.Cut | core/cppjieba/HMMSegment.hpp:46-77 | ASCII words by rule, every maximal run of other runes cut as the model says, together tiling the range |
| MixSegment.PreFilter.Next | core/cppjieba/PreFilter.hpp:30-45 | a separator alone, or all runes up to the next one |
| MixSegment.MixSegment.Mix | core/cppjieba/MixSegment.hpp:56-85 | a word stays, or all single runes in a row that are not in the user dictionary are cut by the HMM together |
| MixSegment.MixSegment.CutRange | core/cppjieba/MixSegment.hpp:46-86 | the words tile the range: those of best weight without the HMM, and mixed with it otherwise |
| MixSegment.CutNext | core/cppjieba/MixSegment.hpp:36-39 | one range of the prefilter with its words |
| MixSegment.Cut | core/cppjieba/MixSegment.hpp:32-44 | the runes are taken range by range as the prefilter yields them, each cut as CutRange promises with this hmm flag, and the result is the bytes of all these words in order; they are non-empty and concatenate to the sentence |
| Strbuf.StringBuffer.CalculateNewSize | core/lua-cjson/strbuf.c:134-160 | exactly what is needed to shrink, otherwise as many doublings as it takes |
| Strbuf.StringBuffer.Resize | core/lua-cjson/strbuf.c:164-180 | room for len bytes and the contents kept |
| Strbuf.StringBuffer.EnsureEmptyLength | core/lua-cjson/strbuf.h:95-99 | room for len more bytes |
| Strbuf.StringBuffer.AppendCharUnsafe | core/lua-cjson/strbuf.h:122-125 | appends one byte, given room |
| Strbuf.StringBuffer.AppendMemUnsafe | core/lua-cjson/strbuf.h:134-138 | appends the bytes, given room |
| Strbuf.StringBuffer.AppendString | core/lua-cjson/strbuf.c:182-200 | appends byte by byte, making room when there is none |
| JsonEncode.AppendString | core/lua-cjson/lua_cjson.c:461-485 | the quoted string; its unsafe appends stay within the 6n + 2 bytes reserved |
| JsonEncode.AppendArray | core/lua-cjson/lua_cjson.c:564-584 | the text of an array, or failure beyond the depth limit |
| JsonEncode.AppendObject | core/lua-cjson/lua_cjson.c:616-655 | the text of an object, or failure beyond the depth limit |
| JsonEncode.AppendData | core/lua-cjson/lua_cjson.c:658-699 | the text of any value |
| JsonEncode.JsonEncode | core/lua-cjson/lua_cjson.c:701-730 | succeeds exactly within the depth limit, with the text of the value |
| JsonUnicode.Utf8Decodes | core/lua-cjson/lua_cjson.c:773-806 | codepoint_to_utf8 writes the UTF-8 encoding of the code point, which decodes back to it |
| JsonUnicode.ReadsSpelled | core/lua-cjson/lua_cjson.c:817-873 | escapes that spell the UTF-16 units of a scalar value are read as its UTF-8 encoding, all of them and no more |
| JsonUnicode.EscapeIff | core/lua-cjson/lua_cjson.c:837-861 | an escape is accepted exactly if the units there spell a scalar value: lone and swapped surrogates are errors |
| JsonGrammar.SpacesSkipped | core/lua-cjson/lua_cjson.c:1017-1024 | white space before a token does not matter |
| JsonRoundTrip.CharToken | core/lua-cjson/lua_cjson.c:1040-1044 | a character that is a token by itself |
| JsonRoundTrip.WordToken | core/lua-cjson/lua_cjson.c:1062-1075 | true, false and null are whole tokens |
| JsonRoundTrip.StringBack | core/lua-cjson/lua_cjson.c:1052-1054 | a written string is one token with that string as its value |
| JsonParser.JsonParse.DecodeHex4 | core/lua-cjson/lua_cjson.c:750-768 | four hexadecimal digits, or -1 |
| JsonParser.JsonParse.AppendUnicodeEscape | core/lua-cjson/lua_cjson.c:817-873 | as the grammar says; the unsafe append stays within json_len |
| JsonParser.JsonParse.NextStringToken | core/lua-cjson/lua_cjson.c:883-941 | the decoded string; unsafe appends stay within json_len bytes |
| JsonParser.JsonParse.Next | core/lua-cjson/lua_cjson.c:1012-1090 | the next token as the grammar says |
| JsonParser.JsonParse.ArrayContext | core/lua-cjson/lua_cjson.c:1184-1219 | an array as the grammar says, with the depth count restored |
| JsonParser.JsonParse.ObjectContext | core/lua-cjson/lua_cjson.c:1133-1181 | an object as the grammar says, a later value for a key replacing the earlier |
| JsonParser.JsonParse.ProcessValue | core/lua-cjson/lua_cjson.c:1222-1249 | a value as the grammar says |
| JsonParser.JsonParse.Decode | core/lua-cjson/lua_cjson.c:1251-1289 | json_decode is the decoding function, errors included, of which JsonReading.DecodeIff says what it accepts |
| JsonRoundTrip.CharBack | core/lua-cjson/lua_cjson.c:461-485 | every escape or plain character is read back |
| JsonRoundTrip.CharsBack | core/lua-cjson/lua_cjson.c:883-941 | the rest of a written string is read back |
| JsonRoundTrip.ValueBack | core/lua-cjson/lua_cjson.c:1222-1249 | a written value is read back wherever it stands |
| JsonRoundTrip.RoundTrip | core/lua-cjson/lua_cjson.c:701-1289 | decoding the encoding of v gives v and consumes all of it, for every value within the depth limit |
| JsonText.LastOccurrence | core/lua-cjson/lua_cjson.c:1133-1181 | in the table of an object every key occurs once, with the value of its last occurrence in the text |
| JsonReading.UnitIs | core/lua-cjson/lua_cjson.c:750-768 | four hexadecimal digits of either case are the number they spell, and nothing else is one |
| JsonReading.PiecesRead | core/lua-cjson/lua_cjson.c:883-941 | a string in any spelling, with plain bytes, two-character escapes and UTF-16 escapes, is read as the bytes it stands for |
| JsonReading.ReadsText | core/lua-cjson/lua_cjson.c:1251-1289 | every text without numbers, with any white space between tokens, is read as the value it spells |
| JsonReading.OnlyTexts | core/lua-cjson/lua_cjson.c:1251-1289 | and whatever is read is such a text: commas, colons, brackets, depth and the rest behind the value are as the grammar demands |
| JsonReading.DecodeIff | core/lua-cjson/lua_cjson.c:1012-1289 | json_decode gives v exactly for the texts, defined without the tokenizer, that spell v |
| AesField.SboxInverse | core/aes/aes.c:82-118 | sbox and rsbox are inverse permutations |
| AesField.MultiplyLinear | core/aes/aes.c:311-317 | the macro Multiply distributes over addition |
| AesField.MultiplyTwice | core/aes/aes.c:311-317 | multiplying twice is multiplying by the carry-less product of the constants |
| AesField.MixRowShort | core/aes/aes.c:286-299 | the short form of a row, with one xtime and the column sum, is the matrix row of section 5.1.3 of FIPS 197 |
| AesField.MixColumnInverse | core/aes/aes.c:286-340 | InvMixColumns and MixColumns undo each other on every column |
| AesStandard.SboxStandard | core/aes/aes.c:82-98 | every entry of sbox is the affine image of the multiplicative inverse of its index, section 5.1.1 of FIPS 197 |
| AesCipher.ShiftMoves | core/aes/aes.c:252-383 | what the two shifts do to each row and column |
| AesCipher.RoundKeyDeterminesKey | core/aes/aes.c:156-219 | two keys that share one round key are equal |
| AesStandard.ScheduleByPosition | core/aes/aes.c:156-219 | every byte of the expanded key: the key, then the sum of the byte four words before and of the byte a word before, at a key boundary taken one row down, substituted, and with a power of {02} in row 0 |
| AesStandard.RoundByPosition | core/aes/aes.c:387-410 | every byte of the state after the first key addition, after each round and after the last one, from the bytes of the state before |
| AesCipher.DecryptEncrypt | core/aes/aes.c:387-435 | InvCipher undoes Cipher, for all round keys and blocks |
| AesCipher.EncryptDecrypt | core/aes/aes.c:387-435 | and Cipher undoes InvCipher |
| AesCipher.EcbBack | core/aes/aes.c:454-478 | block by block, both ways round |
| AesStandard.EcbByBlock | core/aes/aes.c:454-465 | block i of the result is block i enciphered by itself |
| AesStandard.CbcByBlock | core/aes/aes.c:499-537 | block i of the result is block i plus the block of ciphertext before it, or the iv, enciphered |
| AesCipher.CbcBack | core/aes/aes.c:499-578 | CBC decryption undoes CBC encryption, any number of blocks |
| AesCipher.CbcConcat | core/aes/aes.c:499-537 | a message may be encrypted in pieces that continue from the last block |
| AesCipher.CbcDecryptConcat | core/aes/aes.c:539-578 | and decrypted in pieces |
| Aes.AddRoundKey | core/aes/aes.c:223-233 | in place, the block plus the round key |
| Aes.SubBytes | core/aes/aes.c:237-247 | in place, every byte substituted |
| Aes.InvSubBytes | core/aes/aes.c:345-355 | in place, every byte substituted back |
| Aes.ShiftRows | core/aes/aes.c:252-278 | the chained assignments rotate the rows |
| Aes.InvShiftRows | core/aes/aes.c:357-383 | and rotate them back |
| Aes.MixColumns | core/aes/aes.c:286-299 | in place, every column multiplied by the matrix |
| Aes.InvMixColumns | core/aes/aes.c:324-340 | in place, every column multiplied by the inverse |
| Aes.KeyExpansion | core/aes/aes.c:156-219 | the round keys of ExpandKey, in place; AesStandard.ScheduleByPosition says what each of their bytes is |
| Aes.Cipher | core/aes/aes.c:387-410 | the block enciphered in place, nothing else touched |
| Aes.InvCipher | core/aes/aes.c:412-435 | the block deciphered in place, nothing else touched |
| Aes.Context.EcbEncrypt | core/aes/aes.c:454-465 | one block from input to output, also in place |
| Aes.Context.EcbDecrypt | core/aes/aes.c:467-478 | one block from input to output, also in place |
| Aes.Context.CbcEncryptBuffer | core/aes/aes.c:499-537 | the buffer in CBC mode; a null key or iv continues from the call before |
| Aes.Context.CbcDecryptBuffer | core/aes/aes.c:539-578 | the same for decryption |
| Crypt.RSHash | core/func.hpp:103-113 | the loop computes the hash, with 32-bit wrap-around and signed characters |
| Crypt.RsHashIsSum | core/func.hpp:103-113 | the hash is the sum of the characters, each times the product of the multipliers of the turns after its own |
| Crypt.GetPut | core/nint.hpp:5-31 | a network integer is read back |
| Crypt.CryptEncode | core/crypt.hpp:35-54 | stamps length and hash and encrypts every block up to the end chunk; leaves an encrypted packet alone |
| Crypt.EncodedBlocks | core/crypt.hpp:35-54 | what is sent is the stamped packet with every block from unique on enciphered by itself, the rest as it was |
| Crypt.CryptDecode | core/crypt.hpp:55-81 | decrypts and checks; a packet that fails is zeroed |
| Crypt.RoundTrip | core/crypt.hpp:35-81 | decoding after encoding passes the check and gives the stamped packet |
| Crypt.BytesComeBack | core/crypt.hpp:35-81 | every byte but crypt, len and hash is restored |
| Crypt.EncodeDecoded | core/crypt.hpp:68-80 | an accepted packet re-encodes to what was received exactly when its length is that of the structure |
| WorkQueue.Lists.Get | core/threadpool.hpp:34-45 | a node from the free list, or a new one; in neither list afterwards |
| WorkQueue.Lists.Del | core/threadpool.hpp:46-51 | the node goes to the front of the free list |
| WorkQueue.Lists.Append | core/threadpool.hpp:175-184 | the walk ends at the last node and the new one goes behind it |
| WorkQueue.Lists.Take | core/threadpool.hpp:74-75 | the head leaves the queue |
| WorkQueue.Lists.Drain | core/threadpool.hpp:145-149 | the queue is emptied |
| ThreadPool.ExclusiveStep | core/threadpool.hpp:62-83 | the lock is held by the thread between lock and unlock and by no other |
| ThreadPool.CalmStep | core/threadpool.hpp:67-75 | what a thread has found out about queue and shutdown stays true until it acts on it |
| ThreadPool.StagedStep | core/threadpool.hpp:126-142 | after the broadcast nobody waits, although shutdown is written without the lock |
| ThreadPool.LivelyStep | core/threadpool.hpp:157-190 | no wake-up is lost |
| ThreadPool.OwnedStep | core/threadpool.hpp:34-51 | no node is in two of queue, free list and threads |
| ThreadPool.FifoStep | core/threadpool.hpp:157-190 | what was added is what was claimed and what is still queued, in order |
| ThreadPool.FaithfulStep | core/threadpool.hpp:74-80 | the node of a claimed job holds that job until it is run, and every claim has been run or is in the hands of one worker |
| ThreadPool.InvRun | core/threadpool.hpp:62-190 | all of these hold in every state of every run, for any number of threads |
| ThreadPool.ClaimsInOrder | core/threadpool.hpp:74-75 | the k-th claim takes the k-th job added, so none is claimed twice |
| ThreadPool.RunsInTurn | core/threadpool.hpp:74-80 | claim k runs the k-th job added, at most once, and no claim is lost on the way to the routine |
| ThreadPool.NoInterference | core/threadpool.hpp:66-76 | a worker that takes the head finds one; no two threads are in the critical section; node ownership |
| ThreadPool.NoLostWakeup | core/threadpool.hpp:67-69 | a non-empty queue or a completed broadcast never leaves all workers asleep |
| ThreadPool.NoDeadlock | core/threadpool.hpp:62-155 | while anything is left to do some thread can go on |
| ThreadPool.ShutdownEnds | core/threadpool.hpp:126-142 | after shutdown is flagged the workers take a bounded number of steps in all |

## Left out

- Deflate.DeflateState.LongestMatch: says nothing about candidates when the match found is already `nice_length` long or as long as the lookahead, because the source stops looking then.
- Deflate.DeflateState.TallyLit: the frequency counter `dyn_ltree` bumped by the macro is not modelled; it does not influence the tokens.
- Deflate.DeflateState.TallyDist: the frequency counters `dyn_ltree` and `dyn_dtree` are not modelled, for the same reason.
- Deflate.DeflateState.FlushBlock: block emission is not modelled (`trees.c` is not part of this model); the two buffers are handed on and emptied, and whether the output is then full is left open.
- deflate.c: `deflate_stored`, `deflate_rle`, `deflate_huff`, `deflateParams`, preset dictionaries, full and partial flushes, and the header and check-value parts of `deflate` and `read_buf`.
- deflate.c: the `UNALIGNED_OK` and `FASTEST` variants of `longest_match` and `INSERT_STRING`.
- InflateFast.InflateFast: distances that reach before the first byte are handled only where `sane` is set or they cannot occur, because `infback.c` does not set it; `INFLATE_STRICT` and `INFLATE_ALLOW_INVALID_DISTANCE_TOOFAR_ARRR` are off.
- InflateFast.Turn: the same restriction on distances that reach too far back.
- InflateBack.InflateBackState.DecodeBlock: the same restriction, for the blocks in which `inflate_fast` may be used.
- infback.c: the other modes of `inflateBack` (stored blocks, table headers, check); they only lead up to the `LEN` mode.
- InflateTable.InflateTable: for CODES the root has 7 bits and no length exceeds 7, as both callers have it; the code checks no table size for that kind.
- inftrees.c: the sizes ENOUGH_LENS and ENOUGH_DISTS enter as the bound that the code checks at run time.
- crc32.c: the thread guard around table building and the choice of byte order by `crc32_z`.
- Adler32.Adler32Z: starting values with a half of 65521 or more, which no check value has, are excluded.
- Adler32.Adler32Combine_: check values with such a half are excluded.
- adler32.c: the `NO_DIVIDE` variants of the modulo.
- BignumPow5.P5s.Pow5Mult: the number zero is excluded, for which `mult` leaves a result without limbs; `dtoa` treats zero before it gets here.
- dtoa.c: the floating-point quick paths, the shortest-digits modes with `leftright`, rounding-mode switches, the free lists of `Balloc` and `Bfree`; the list `p5s` is a sequence of nodes; `|` of disjoint bits is `+`.
- HmmSegment.Viterbi: real arithmetic, so rounding of `double` sums is not modelled.
- MixSegment.Cut: sentences of 4 GiB and more, whose offsets do not fit `uint32_t`.
- cppjieba: loading of dictionaries and models, keyword extraction, tagging, the full and query segmenters.
- JsonEncode.AppendObject: number keys are not modelled.
- JsonEncode.AppendData: number values are not modelled.
- JsonEncode.JsonEncode: values that hold numbers are not modelled.
- JsonParser.JsonParse.Next: a number token carries no value, since reading it is the business of `strtod`.
- JsonParser.JsonParse.ProcessValue: stops at a number with `AtNumber`.
- JsonParser.JsonParse.ArrayContext: stops at a number with `AtNumber`.
- JsonParser.JsonParse.ObjectContext: stops at a number with `AtNumber`.
- JsonParser.JsonParse.Decode: stops at a number with `AtNumber`.
- lua_cjson.c: number formatting and parsing, sparse-array options, configuration, the Lua stack and error unwinding; a table is an array or a list of string-keyed pairs.
- Strbuf.StringBuffer.CalculateNewSize: linear growth, and overflow of `int` sizes beyond 2 GiB, are not modelled.
- Aes.Context.CbcEncryptBuffer: lengths that are not whole blocks (the zero padding, which does not chain) are not modelled.
- Aes.Context.CbcDecryptBuffer: the same, and decryption in place, where the chaining block would be overwritten.
- aes.c: `Rcon` entries past the tenth, which a four-word key never reads.
- crypt.hpp: base64 of keys, and the concrete packet structures of `classes.hpp`.
- threadpool.hpp: thread creation, two concurrent calls of `tpool_destroy`, calls of `tpool_add_work` that outlive the pool, failure of allocation, and the inside of a routine. Each of the two short critical sections of `tw_pool` is one step.
- Fairness: `ThreadPool.ShutdownEnds` bounds the steps of the workers; that the scheduler lets them take these steps is not part of the model.
- UDP, HTTP, FastCGI, WebSocket, gz files, LevelDB, OpenSSL, the Lua API and the user interface.
