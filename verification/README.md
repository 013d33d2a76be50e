# Verified model of the gateway's codecs and converters

This project models four components of the RTI Routing Service gateway in Dafny and proves what they are for:

* **LZ4 blocks** (`lz4.c` of the bundled librdkafka): the block compressor with its lossy hash table, the compression stream
  over resets, renormalisations and blocks that continue each other, the optimised decoder with its fast loop, shortcut and safe
  loop, and the byte-by-byte reference decoder in the same file. The target is 64-bit and little-endian; memory is a sequence of
  bytes or an array, and pointers are positions.
* **CRC-32C** (`crc32c.c`): slicing-by-8 tables, the matrix operator that appends zeros, and the three-way interleaved loop over
  the CRC instructions, against the bit-at-a-time definition of section 12.1 of RFC 3720.
* **cJSON** (`cJSON.c`): the recursive-descent parser, the printer over a growing or preallocated buffer, and the doubly linked
  child list.
* **DDS/Protobuf converters** (the gateway's own `protobuf2dds`): both recursive conversions and the cache of scratch objects
  that they bind and unbind.

## Layout

| files | content |
|---|---|
| `Lz4Format` | block format: sequences and their meaning, encoding, decoding, end-of-block rules, size bound |
| `Lz4Copy`, `Lz4Count` | overlapping copies; common-prefix counting by words |
| `Lz4Greedy`, `Lz4Track` | the greedy parse as a specification; being on it, and what is certain when the output is too small |
| `Lz4Search`, `Lz4Encode`, `Lz4Compress`, `Lz4Stream` | match finder, field writers, block compressor, compression stream |
| `Lz4Equal` | one family of blocks worked out from the first probe to both decoders |
| `Lz4Accept`, `Lz4Decode` | which blocks the optimised decoder accepts; the optimised decoder |
| `Lz4Reference`, `Lz4RoundTrip` | reference decoder, and the theorems that join compressor and decoders |
| `Crc32cSpec`, `Crc32cSoft`, `Crc32cHard` | definition and algebra; table version; instruction version |
| `CjsonText`, `CjsonUtf` | trees, the text printed and read as functions; Unicode escapes |
| `CjsonParse`, `CjsonPrint`, `CjsonRoundTrip`, `CjsonList` | parse buffer, print buffer, round trip, child list |
| `CjsonSpelling`, `CjsonGrammar`, `CjsonLayout` | every spelling of a string; every text of the grammar; the printed text as tokens and layout |
| `GatewayTypes`, `GatewayConvert` | types, values, messages and what the two libraries do; the conversions as functions |
| `GatewayRoundTrip`, `GatewayConverter` | what comes back; the converters over their state, with the bind discipline |

Run `dafny verify dfyconfig.toml` to check everything.

## How to read it

Code that works in place is a method over arrays or a class, proved against a specification function: `DecodeFrom`, `Replay`
and the greedy parse `GreedyBlock` for LZ4, `Crc` for the CRC, `Print` and `ParseText` for cJSON, `ToPb` and `ToDds` for the
converters. The lemmas then relate the specification functions to each other, and to statements in literal numbers and bytes.
`Compressed(out, h, g)` says that a block stands for `g` after the history `h` and ends by the rules; `Conforms` is those rules
alone. Hash functions are arbitrary. An operation that may be refused memory takes the refusal from a nondeterministic choice and
reports it in a ghost result or field.

Where the code does less than its own words promise, the model follows the code:

* The optimised LZ4 decoder accepts only the token zero for an empty output, the reference decoder any token below 16
  (`DecodersAgree`, `ReferenceAcceptsMore`).
* The optimised decoder skips the end-of-block rules on some paths and accepts blocks that the reference rejects
  (`OptimisedAcceptsMore`). `AcceptsBlock` is the exact condition under which it accepts, by `DecompressGeneric`; among those
  that fill the output, the reference accepts exactly the ones that conform (`OptimisedAgainstReference`).
* At an offset of zero the optimised decoder writes zeros, and the reference leaves what the buffer held (`ZeroOffsetDiffers`).
  The two agree exactly when the buffer holds zeros there (`DecodersAgree`, `AcceptedOutput`).
* cJSON.h:194-195 asks for five spare bytes in a preallocated buffer; two are enough and necessary (`PrintPreallocated`).
* The comments on the string scratch buffer say that it only grows. That holds for single strings (`ReadString`); with repeated
  strings it can shrink (`ReadElementString`), and an octet sequence always sets it to its own size (`ReadOctets`).
* The converters' documentation lists sequences of sequence aliases as unsupported; the code converts sequences of octet
  sequences to repeated bytes fields, and so does the model.
* A value survives the converters if and only if it is `Faithful`: an optional member that holds zero, in a field without
  presence, comes back absent, and so does an optional empty collection; a number that a closed enumeration does not know is
  dropped, and zero is all that can come back in its place.

## Model

| member | source | states |
|---|---|---|
| `Lz4RoundTrip.RoundTrip` | rticonnextdds-gateway/third-party/librdkafka/src/lz4.c:915-1307 | for every source up to the input limit, every acceleration and every hash function, compressing into a buffer of the bound size yields at most that bound, and decoding into exactly the source size returns the source |
| `Lz4RoundTrip.RoundTripFastReset` | rticonnextdds-gateway/third-party/librdkafka/src/lz4.c:1383-1418 | the same on a table left over from any earlier calls, whose invariant it keeps |
| `Lz4RoundTrip.RoundTripDestSize` | rticonnextdds-gateway/third-party/librdkafka/src/lz4.c:1449-1487 | fillOutput: the block fits the target, decodes to exactly the consumed prefix of the source, leaves at most one target byte unused unless everything was consumed, and writes nothing beyond the target |
| `Lz4RoundTrip.StreamRoundTrip` | rticonnextdds-gateway/third-party/librdkafka/src/lz4.c:1637-1681 | any run of non-empty blocks laid side by side, each with its own acceleration and with fast resets at any points, decodes block by block to the concatenation |
| `Lz4RoundTrip.StreamBlock` | rticonnextdds-gateway/third-party/librdkafka/src/lz4.c:2529-2566 | one step of such a run, across the decoder states for no, small and 64 KB prefix |
| `Lz4RoundTrip.DecodersAgree` | rticonnextdds-gateway/third-party/librdkafka/src/lz4.c:1799-1896 | on exactly the bytes the reference decoder consumed, the optimised decoder accepts what the reference accepts if and only if output is asked for or the token is zero, and the two then leave the same buffer if and only if every match at distance zero falls on zeros |
| `Lz4RoundTrip.OptimisedAgainstReference` | rticonnextdds-gateway/third-party/librdkafka/src/lz4.c:1942-2344 | when the optimised decoder fills the output, the reference accepts the whole input if and only if the input conforms to the end-of-block rules |
| `Lz4RoundTrip.OptimisedAcceptsMore` | rticonnextdds-gateway/third-party/librdkafka/src/lz4.c:2124-2163 | a concrete block that breaks the end-of-block rules, accepted by the optimised decoder through its shortcut and rejected by the reference |
| `Lz4RoundTrip.ZeroOffsetDiffers` | rticonnextdds-gateway/third-party/librdkafka/src/lz4.c:1860-1886 | a concrete block with a match at distance zero that both accept and read differently |
| `Lz4RoundTrip.ReferenceMeans` | rticonnextdds-gateway/third-party/librdkafka/src/lz4.c:1799-1896 | what the reference accepts conforms to the end-of-block rules, fills the output, and stands for the same bytes if and only if every match at distance zero falls on zeros |
| `Lz4RoundTrip.ReferenceAcceptsMore` | rticonnextdds-gateway/third-party/librdkafka/src/lz4.c:1981-1987 | a concrete block that the reference accepts for empty output and the optimised decoder refuses |
| `Lz4RoundTrip.DecodeLater` | rticonnextdds-gateway/third-party/librdkafka/src/lz4.c:2402-2409 | more history in front does not change what a block stands for |
| `Lz4RoundTrip.DecompressSafe` | rticonnextdds-gateway/third-party/librdkafka/src/lz4.c:2350-2355 | a nonnegative result is exactly the length of what the block stands for; which blocks are accepted is stated exactly, and conforming blocks are among them |
| `Lz4RoundTrip.StreamDecode.DecompressSafeContinue` | rticonnextdds-gateway/third-party/librdkafka/src/lz4.c:2529-2566 | a positive result extends the prefix by the decoded bytes; otherwise the state is unchanged |
| `Lz4Format.DecodeOfEncode` | rticonnextdds-gateway/third-party/librdkafka/src/lz4.c:1087-1307 | the sequence encoding decodes to what the sequences mean, after any history |
| `Lz4Format.EncodeConforms` | rticonnextdds-gateway/third-party/librdkafka/src/lz4.c:248-249 | blocks whose last match leaves 12 bytes and whose last literals are at least 5 conform |
| `Lz4Format.EncodeConformsExactly` | rticonnextdds-gateway/third-party/librdkafka/src/lz4.c:248-249 | an encoded block obeys the end-of-block rules if and only if it has no sequence, or at least 5 last literals and a last match that starts at least 12 bytes before the end |
| `Lz4Format.EncodeBlockSize` | rticonnextdds-gateway/third-party/librdkafka/src/lz4.c:735 | an encoded block is never larger than the bound for its content |
| `Lz4Format.CopyMatchUnique` | rticonnextdds-gateway/third-party/librdkafka/src/lz4.c:1881-1886 | forward byte-by-byte copying is the only extension that repeats with the offset |
| `Lz4Stream.RenormKeepsDistances` | rticonnextdds-gateway/third-party/librdkafka/src/lz4.c:1617-1634 | renormalisation keeps the distance of every entry in the window and makes all others unacceptable |
| `Lz4Stream.Stream.RenormDictT` | rticonnextdds-gateway/third-party/librdkafka/src/lz4.c:1617-1634 | every entry is rescaled, the offset becomes 64 KB, the history is cut to 64 KB and still ends at the same address |
| `Lz4Stream.Stream.PrepareTable` | rticonnextdds-gateway/third-party/librdkafka/src/lz4.c:868-907 | clears the table exactly when it must, and otherwise leaves it as it is; afterwards no entry of a 32-bit table can be taken for history, and 16-bit tables stay in range |
| `Lz4Stream.Stream.ResetFast` | rticonnextdds-gateway/third-party/librdkafka/src/lz4.c:1530-1533 | keeps the streaming invariant and makes the old entries unreachable, by a gap in the indices unless the table must be cleared |
| `Lz4Stream.Stream.CompressGenericValidated` | rticonnextdds-gateway/third-party/librdkafka/src/lz4.c:915-1307 | result fits the capacity and the bound, stands for the consumed input after the history, and is the greedy block for each of the three output directives |
| `Lz4Stream.Stream.CompressGeneric` | rticonnextdds-gateway/third-party/librdkafka/src/lz4.c:1313-1348 | unsupported sizes and the empty input, and otherwise as above |
| `Lz4Stream.Stream.CompressFastContinue` | rticonnextdds-gateway/third-party/librdkafka/src/lz4.c:1637-1681 | prefix mode: the greedy block after the whole history, of which only renormalisation drops what is beyond 64 KB, on the table left by the blocks before it; it fails exactly when that block is larger than the output |
| `Lz4Stream.Stream.CompressFastExtState` | rticonnextdds-gateway/third-party/librdkafka/src/lz4.c:1351-1373 | exactly the greedy block of the input alone on an empty table, or failure when it does not fit |
| `Lz4Stream.Stream.CompressFastReset` | rticonnextdds-gateway/third-party/librdkafka/src/lz4.c:1383-1418 | the same from the table as it was, unless it must be cleared |
| `Lz4Stream.Stream.CompressDestSize` | rticonnextdds-gateway/third-party/librdkafka/src/lz4.c:1449-1464 | exactly the greedy block cut to fill the target, and how much of the input it holds |
| `Lz4Equal.CompressEqual` | rticonnextdds-gateway/third-party/librdkafka/src/lz4.c:1351-1373 | n >= 13 equal bytes, for every hash function and acceleration: one literal, one match of n - 6 bytes and five literals, in 10 + (n + 230) / 255 bytes, or failure when those do not fit |
| `Lz4Equal.GreedyOnEqual` | rticonnextdds-gateway/third-party/librdkafka/src/lz4.c:986-1269 | the greedy parse of equal bytes, on any table |
| `Lz4Equal.EqualIsAccepted` | rticonnextdds-gateway/third-party/librdkafka/src/lz4.c:1887-1893 | both decoders accept that block for an output of n bytes |
| `Lz4Equal.EncodeEqual` | rticonnextdds-gateway/third-party/librdkafka/src/lz4.c:1087-1307 | its bytes, written out |
| `Lz4Compress.CompressBlock` | rticonnextdds-gateway/third-party/librdkafka/src/lz4.c:915-1307 | the block compressor on any table whose entries are in range, in their own buckets and safe to follow: its output is the block of the greedy parse, byte for byte, and with a limited output it fails exactly when that block is larger than the limit |
| `Lz4Track.ChainGoesOn` | rticonnextdds-gateway/third-party/librdkafka/src/lz4.c:1099-1263 | after a match that is as long as it can be, the parse goes on with a match at once or with a search |
| `Lz4Track.ChainSize` | rticonnextdds-gateway/third-party/librdkafka/src/lz4.c:1090-1172 | the checks against the budget during compression refuse only blocks that do not fit |
| `Lz4Compress.Sequences` | rticonnextdds-gateway/third-party/librdkafka/src/lz4.c:986-1269 | the greedy loop: what is written encodes exactly the sequences of the greedy parse, which replay to the source up to the anchor |
| `Lz4Compress.EmitMatch` | rticonnextdds-gateway/third-party/librdkafka/src/lz4.c:1114-1204 | appends the match of the pending sequence, as long as it can be, or cut to a stated length when the output is to be filled; says exactly when it is left out or refused |
| `Lz4Compress.EmitLast` | rticonnextdds-gateway/third-party/librdkafka/src/lz4.c:1271-1302 | final literals, cut to fit when the output is to be filled |
| `Lz4Search.AcceptedIsInWindow` | rticonnextdds-gateway/third-party/librdkafka/src/lz4.c:1060-1078 | every accepted entry lies 1 to 65535 bytes back and inside the bytes still available |
| `Lz4Search.FindMatch` | rticonnextdds-gateway/third-party/librdkafka/src/lz4.c:998-1081 | exact over the probed positions: every probe before the last finds an entry that stands for no available position 1 to 65535 bytes back, or for other four bytes; a match is the first that fits, the search fails only when the next probe comes too late, and the table then holds every position probed |
| `Lz4Search.AcceptableIsFit` | rticonnextdds-gateway/third-party/librdkafka/src/lz4.c:1060-1078 | the acceptance tests let through exactly the entries that stand for such a position |
| `Lz4Greedy.SearchIsFirst` | rticonnextdds-gateway/third-party/librdkafka/src/lz4.c:998-1081 | the search of the specification ends at the first probe that fits |
| `Lz4Greedy.EntryIsLatest` | rticonnextdds-gateway/third-party/librdkafka/src/lz4.c:998-1081 | a bucket holds the last position probed with its hash, or what it held before the search |
| `Lz4Greedy.BackIsLongest` | rticonnextdds-gateway/third-party/librdkafka/src/lz4.c:1083-1085 | a match reaches back over equal bytes as far as the anchor and the history allow |
| `Lz4Search.MatchReplays` | rticonnextdds-gateway/third-party/librdkafka/src/lz4.c:1141-1164 | copying a match of the source onto the source before it gives the source |
| `Lz4Search.CatchUp` | rticonnextdds-gateway/third-party/librdkafka/src/lz4.c:1083-1085 | extending a match backwards keeps it a match, stays behind the anchor, and goes as far as it can |
| `Lz4Count.Count` | rticonnextdds-gateway/third-party/librdkafka/src/lz4.c:664-687 | exactly the length of the longest common run before the limit |
| `Lz4Count.CommonRunLongest` | rticonnextdds-gateway/third-party/librdkafka/src/lz4.c:664-687 | the specified length is a common run, and no longer one is |
| `Lz4Count.NbCommonBytesOfPack` | rticonnextdds-gateway/third-party/librdkafka/src/lz4.c:563-594 | the multiplication trick finds the first byte that is not zero, for every nonzero word |
| `Lz4Count.WordRunCorrect` | rticonnextdds-gateway/third-party/librdkafka/src/lz4.c:664-680 | the trick on the difference of two words is the number of common bytes |
| `Lz4Copy.RepeatsAtMultiple` | rticonnextdds-gateway/third-party/librdkafka/src/lz4.c:480-503 | repetition at an offset is repetition at every multiple of it |
| `Lz4Copy.RepeatsIsCopyMatch` | rticonnextdds-gateway/third-party/librdkafka/src/lz4.c:518-556 | an area that repeats with the offset is what byte-by-byte copying makes |
| `Lz4Copy.DistanceIsMultiple` | rticonnextdds-gateway/third-party/librdkafka/src/lz4.c:454-459 | after the first eight bytes the distance is a multiple of the offset and at least 8 |
| `Lz4Copy.CopyFirstEight` | rticonnextdds-gateway/third-party/librdkafka/src/lz4.c:480-497 | the table-driven first eight bytes repeat with the offset |
| `Lz4Copy.CopyUsingOffsetBase` | rticonnextdds-gateway/third-party/librdkafka/src/lz4.c:480-503 | the requested bytes repeat with the offset; nothing is written beyond the known overshoot |
| `Lz4Copy.CopyUsingOffset` | rticonnextdds-gateway/third-party/librdkafka/src/lz4.c:518-556 | the same for the pattern copies of offsets 1, 2 and 4 |
| `Lz4Decode.ReadVariableLength` | rticonnextdds-gateway/third-party/librdkafka/src/lz4.c:1909-1934 | agrees with the unbounded length field, or fails at the limit |
| `Lz4Decode.FastLoop` | rticonnextdds-gateway/third-party/librdkafka/src/lz4.c:2000-2114 | every sequence it handles is decoded as the format says, and otherwise it hands over at a sequence boundary or between literals and match |
| `Lz4Decode.ShortcutSequence` | rticonnextdds-gateway/third-party/librdkafka/src/lz4.c:2124-2163 | the two-stage shortcut decodes one sequence as the format says or hands over |
| `Lz4Decode.SafeMatch` | rticonnextdds-gateway/third-party/librdkafka/src/lz4.c:2253-2334 | the safe match copy, near the end of the buffer and away from it |
| `Lz4Decode.DecompressGeneric` | rticonnextdds-gateway/third-party/librdkafka/src/lz4.c:1942-2344 | accepts exactly the blocks that pass the checks of the paths taken, a nonnegative result is exactly what the block stands for, and nothing outside the output is changed |
| `Lz4Accept.ConformingBlockAccepted` | rticonnextdds-gateway/third-party/librdkafka/src/lz4.c:248-249 | those checks let every block pass that keeps the end-of-block rules, from either loop |
| `Lz4Reference.DecompressUnsafeGeneric` | rticonnextdds-gateway/third-party/librdkafka/src/lz4.c:1799-1896 | the byte-by-byte decoder computes its specification, in place |
| `Lz4Reference.AcceptedConforms` | rticonnextdds-gateway/third-party/librdkafka/src/lz4.c:1799-1896 | blocks it accepts conform to the end-of-block rules and fill the output |
| `Lz4Reference.AcceptsWhole` | rticonnextdds-gateway/third-party/librdkafka/src/lz4.c:1799-1896 | it accepts and consumes a whole input if and only if the input conforms to the end-of-block rules and fills the output |
| `Lz4Reference.AcceptedOutput` | rticonnextdds-gateway/third-party/librdkafka/src/lz4.c:1799-1896 | its output is what the block stands for if and only if every match at distance zero falls on zeros |
| `Lz4Reference.AcceptedAlone` | rticonnextdds-gateway/third-party/librdkafka/src/lz4.c:1830-1850 | the bytes it consumed are a whole block: alone, they are accepted again with the same result |
| `Crc32cSpec.StepsLinear` | rticonnextdds-gateway/third-party/librdkafka/src/crc32c.c:138-151 | feeding zero bits is linear over exclusive or |
| `Crc32cSpec.CrcLinear` | rticonnextdds-gateway/third-party/librdkafka/src/crc32c.c:221-227 | a change of the register passes through a message as through zeros |
| `Crc32cSpec.CrcConcat` | rticonnextdds-gateway/third-party/librdkafka/src/crc32c.c:97-128 | the register over a concatenation continues from the first part |
| `Crc32cSpec.Crc32cConcat` | rticonnextdds-gateway/third-party/librdkafka/src/crc32c.c:97-128 | the CRC of a concatenation is the CRC of the second part started from the CRC of the first |
| `Crc32cSpec.CrcCombine` | rticonnextdds-gateway/third-party/librdkafka/src/crc32c.c:284-285 | independent CRCs are combined by advancing the first over zeros and adding the second |
| `Crc32cSpec.EightSteps` | rticonnextdds-gateway/third-party/librdkafka/src/crc32c.c:86-90 | eight zero bits are one table lookup and a shift |
| `Crc32cSpec.CheckValue` | rticonnextdds-gateway/third-party/librdkafka/src/crc32c.c:62-63 | the definition gives the published check value |
| `Crc32cSoft.InitSw` | rticonnextdds-gateway/third-party/librdkafka/src/crc32c.c:69-93 | entry n of table k is the effect of byte n followed by k zero bytes |
| `Crc32cSoft.AbsorbAll` | rticonnextdds-gateway/third-party/librdkafka/src/crc32c.c:109-119 | the register can be added into the first four bytes of the message |
| `Crc32cSoft.TableSum` | rticonnextdds-gateway/third-party/librdkafka/src/crc32c.c:112-119 | the CRC of eight bytes from zero is the sum of one lookup in each table |
| `Crc32cSoft.EightBytes` | rticonnextdds-gateway/third-party/librdkafka/src/crc32c.c:109-119 | one 64-bit step of slicing-by-8 is eight bytes of the definition |
| `Crc32cSoft.CrcSw` | rticonnextdds-gateway/third-party/librdkafka/src/crc32c.c:97-128 | equals the definition for every start value, length and alignment |
| `Crc32cHard.TimesIsSteps` | rticonnextdds-gateway/third-party/librdkafka/src/crc32c.c:138-151 | a matrix that represents n zero bits maps every register to its value after n zero bits |
| `Crc32cHard.MatrixTimes` | rticonnextdds-gateway/third-party/librdkafka/src/crc32c.c:138-151 | the loop computes the product of any matrix and any vector |
| `Crc32cHard.TimesLinear` | rticonnextdds-gateway/third-party/librdkafka/src/crc32c.c:138-151 | that product is linear in the vector |
| `Crc32cHard.TimesColumn` | rticonnextdds-gateway/third-party/librdkafka/src/crc32c.c:138-151 | and maps the monomial of degree j to column j |
| `Crc32cHard.MatrixSquare` | rticonnextdds-gateway/third-party/librdkafka/src/crc32c.c:154-161 | squaring doubles the number of zero bits |
| `Crc32cHard.ZerosOp` | rticonnextdds-gateway/third-party/librdkafka/src/crc32c.c:162-202 | the operator for as many zero bytes as the largest power of two not above the length |
| `Crc32cHard.PowerBelowExact` | rticonnextdds-gateway/third-party/librdkafka/src/crc32c.c:162-167 | which is the length itself when it is a power of two |
| `Crc32cHard.PowerBelowIsPower` | rticonnextdds-gateway/third-party/librdkafka/src/crc32c.c:162-167 | and otherwise the largest power of two below it |
| `Crc32cHard.Zeros` | rticonnextdds-gateway/third-party/librdkafka/src/crc32c.c:206-217 | the four tables hold that operator byte by byte |
| `Crc32cHard.ShiftIsSteps` | rticonnextdds-gateway/third-party/librdkafka/src/crc32c.c:221-227 | four lookups apply the operator to any register |
| `Crc32cHard.InitHw` | rticonnextdds-gateway/third-party/librdkafka/src/crc32c.c:242-246 | the tables are exact for both block lengths |
| `Crc32cHard.ThreeBlocks` | rticonnextdds-gateway/third-party/librdkafka/src/crc32c.c:268-309 | three interleaved streams, recombined, are the CRC of the three blocks in order |
| `Crc32cHard.CrcHw` | rticonnextdds-gateway/third-party/librdkafka/src/crc32c.c:249-332 | equals the definition for every start value, length and alignment |
| `Crc32cHard.RdCrc32c` | rticonnextdds-gateway/third-party/librdkafka/src/crc32c.c:354-364 | both implementations return the same value |
| `CjsonRoundTrip.ParseTextOfPrint` | rticonnextdds-gateway/third-party/librdkafka/src/cJSON.c:1214-1683 | printing, formatted or not, and parsing gives an equal tree and ends behind the text, for every NUL-free tree nested at most 1000 deep |
| `CjsonRoundTrip.PrintedParsesBack` | rticonnextdds-gateway/third-party/librdkafka/src/cJSON.c:1214-1683 | a NUL-free tree comes back if and only if it is nested at most 1000 deep |
| `CjsonRoundTrip.Reprinted` | rticonnextdds-gateway/third-party/librdkafka/src/cJSON.c:1010-1082 | whatever text a NUL-free tree was parsed from, printing it and parsing that gives the same tree: the parser makes no tree that is too deep to come back |
| `CjsonGrammar.TextIsParsed` | rticonnextdds-gateway/third-party/librdkafka/src/cJSON.c:1010-1082 | every text of RFC 8259 without numbers, nested at most 1000 deep, with any spelling of its strings and any space between its tokens, after a byte order mark or not, parses to the tree it stands for |
| `CjsonGrammar.ParseOfDoc` | rticonnextdds-gateway/third-party/librdkafka/src/cJSON.c:1214-1270 | the same for a value anywhere in a text, at any depth that is left |
| `CjsonRoundTrip.PrintThenParse` | rticonnextdds-gateway/third-party/librdkafka/src/cJSON.c:1096-1154 | the same for the printer and parser themselves: whenever printing succeeds the tree comes back exactly when it is nested within the limit, and printing fails only for size or memory |
| `CjsonRoundTrip.ParseOfPrint` | rticonnextdds-gateway/third-party/librdkafka/src/cJSON.c:1214-1270 | a printed value is parsed wherever it stands in a text, at any depth that is left |
| `CjsonRoundTrip.ParseOfPrintMembers` | rticonnextdds-gateway/third-party/librdkafka/src/cJSON.c:1481-1581 | the members of a printed object, with indentation and separators |
| `CjsonRoundTrip.UnescapeOfEscape` | rticonnextdds-gateway/third-party/librdkafka/src/cJSON.c:695-932 | unescaping undoes escaping, and the scan finds the closing quote |
| `CjsonSpelling.SpelledIsParsed` | rticonnextdds-gateway/third-party/librdkafka/src/cJSON.c:695-820 | every spelling of a text by section 7 of RFC 8259 - raw, by a two-character escape, by four hexadecimal digits of either case or a surrogate pair - parses to that text; four bytes that are not all digits stand for U+0000 |
| `CjsonSpelling.BadEscapeIsRefused` | rticonnextdds-gateway/third-party/librdkafka/src/cJSON.c:747-799 | any other letter after a backslash, too few digits, and half of a surrogate pair make the string invalid, whatever precedes them |
| `CjsonSpelling.UnclosedIsRefused` | rticonnextdds-gateway/third-party/librdkafka/src/cJSON.c:709-737 | so does a missing closing quote |
| `CjsonLayout.UnformattedIsPlain` | rticonnextdds-gateway/third-party/librdkafka/src/cJSON.c:1273-1683 | unformatted text is the concatenation of the tokens of the tree |
| `CjsonLayout.TokensHaveNoSpace` | rticonnextdds-gateway/third-party/librdkafka/src/cJSON.c:1273-1683 | which have no byte up to 32 outside strings |
| `CjsonLayout.FormattedIsLaid` | rticonnextdds-gateway/third-party/librdkafka/src/cJSON.c:1427-1683 | formatted text is the same tokens with layout that depends on them alone: a newline after an opening brace and after every member, a tab for every level before names and closing braces, a tab after colons, a space after the commas of arrays |
| `CjsonLayout.EscapedForm` | rticonnextdds-gateway/third-party/librdkafka/src/cJSON.c:885-922 | how each byte of a string is written: as it is, by its two-character escape, or in lower-case digits |
| `CjsonUtf.DecodeOfUtf8` | rticonnextdds-gateway/third-party/librdkafka/src/cJSON.c:650-680 | the emitted bytes decode, by section 3 of RFC 3629, to the code point, except for surrogates |
| `CjsonUtf.Utf8OfDecoded` | rticonnextdds-gateway/third-party/librdkafka/src/cJSON.c:650-680 | and nothing else decodes: bytes that do are the encoding of a scalar value |
| `CjsonUtf.LiteralOfScalar` | rticonnextdds-gateway/third-party/librdkafka/src/cJSON.c:588-692 | the escape of every Unicode scalar value, as in section 7 of RFC 8259, gives its UTF-8 |
| `CjsonUtf.LiteralIsUtf8` | rticonnextdds-gateway/third-party/librdkafka/src/cJSON.c:588-692 | every literal that is accepted gives valid UTF-8 |
| `CjsonUtf.WriteUtf8` | rticonnextdds-gateway/third-party/librdkafka/src/cJSON.c:650-686 | the shifting loop writes exactly the UTF-8 form and nothing in front of it |
| `CjsonParse.ScanToBounds` | rticonnextdds-gateway/third-party/librdkafka/src/cJSON.c:709-737 | between two points the first pass counts at most one escape every two bytes |
| `CjsonParse.ParseBuffer.Utf16ToUtf8` | rticonnextdds-gateway/third-party/librdkafka/src/cJSON.c:588-692 | surrogate pairs, invalid halves and short input |
| `CjsonParse.ParseBuffer.FindStringEnd` | rticonnextdds-gateway/third-party/librdkafka/src/cJSON.c:709-737 | the closing quote and the number of skipped backslashes |
| `CjsonParse.ParseBuffer.UnescapeInto` | rticonnextdds-gateway/third-party/librdkafka/src/cJSON.c:747-799 | for every input, whatever the digits of its escapes are, the bytes written and the terminator fit the size from the first pass |
| `CjsonParse.ParseBuffer.ReadString` | rticonnextdds-gateway/third-party/librdkafka/src/cJSON.c:695-820 | accepts exactly the strings of the specification, with their bytes |
| `CjsonParse.ParseBuffer.SkipWhitespace` | rticonnextdds-gateway/third-party/librdkafka/src/cJSON.c:954-973 | skips bytes up to 32 but stays on the last byte |
| `CjsonParse.ParseBuffer.ReadValue` | rticonnextdds-gateway/third-party/librdkafka/src/cJSON.c:1214-1270 | accepts exactly what the specification accepts, keeps the depth, and links a list whose nodes hold the elements or members in order |
| `CjsonParse.ParseBuffer.ReadArray` | rticonnextdds-gateway/third-party/librdkafka/src/cJSON.c:1339-1424 | the same for arrays, with the nesting limit |
| `CjsonParse.ParseBuffer.ReadElements` | rticonnextdds-gateway/third-party/librdkafka/src/cJSON.c:1371-1402 | the element loop: as many nodes as elements, each with its value, linked in order |
| `CjsonParse.ParseBuffer.ReadObject` | rticonnextdds-gateway/third-party/librdkafka/src/cJSON.c:1481-1581 | the same for objects |
| `CjsonParse.ParseBuffer.ReadMembers` | rticonnextdds-gateway/third-party/librdkafka/src/cJSON.c:1512-1560 | the member loop: as many nodes as members, each with its name and value, linked in order |
| `CjsonParse.ParseWithLengthOpts` | rticonnextdds-gateway/third-party/librdkafka/src/cJSON.c:1010-1082 | byte order mark, leading space, one value, the NUL that may be asked for, and where the parse ended; after a failure that is a position inside the text |
| `CjsonPrint.PrintPreallocated` | rticonnextdds-gateway/third-party/librdkafka/src/cJSON.c:1193-1211 | succeeds if and only if the buffer holds the text and two more bytes, and then holds the text and a terminator |
| `CjsonPrint.PrintText` | rticonnextdds-gateway/third-party/librdkafka/src/cJSON.c:1096-1154 | the printed text, unless memory is refused, from the first buffer on, or the text is too long |
| `CjsonPrint.PrintNulFree` | rticonnextdds-gateway/third-party/librdkafka/src/cJSON.c:1273-1336 | no printed text holds a NUL |
| `CjsonPrint.PrintBuffer.Ensure` | rticonnextdds-gateway/third-party/librdkafka/src/cJSON.c:410-479 | keeps what is before the offset, makes the room, and fails only beyond the limit or without memory |
| `CjsonPrint.PrintBuffer.UpdateOffset` | rticonnextdds-gateway/third-party/librdkafka/src/cJSON.c:483-491 | moves the offset to the end of what was printed |
| `CjsonPrint.PrintBuffer.PrintStringPtr` | rticonnextdds-gateway/third-party/librdkafka/src/cJSON.c:823-932 | the size from the first pass is exactly what the second pass writes |
| `CjsonPrint.PrintBuffer.CountEscapes` | rticonnextdds-gateway/third-party/librdkafka/src/cJSON.c:843-866 | the extra characters that escaping needs |
| `CjsonPrint.PrintBuffer.PrintValue` | rticonnextdds-gateway/third-party/librdkafka/src/cJSON.c:1273-1336 | a value goes in at the offset exactly when it and two more bytes fit the limit |
| `CjsonPrint.PrintBuffer.PrintArray` | rticonnextdds-gateway/third-party/librdkafka/src/cJSON.c:1427-1478 | the same for arrays; the depth is restored |
| `CjsonPrint.PrintBuffer.PrintObject` | rticonnextdds-gateway/third-party/librdkafka/src/cJSON.c:1584-1683 | the same for objects, formatted or not |
| `CjsonList.ChildrenAreUnique` | rticonnextdds-gateway/third-party/librdkafka/src/cJSON.c:1706-1720 | the pointers determine the sequence of children |
| `CjsonList.AddItemToArray` | rticonnextdds-gateway/third-party/librdkafka/src/cJSON.c:1805-1830 | appends; the list is well formed afterwards if and only if the item had no successor or is the first |
| `CjsonList.GetArrayItem` | rticonnextdds-gateway/third-party/librdkafka/src/cJSON.c:1706-1728 | the child at an index, or null |
| `CjsonList.GetArraySize` | rticonnextdds-gateway/third-party/librdkafka/src/cJSON.c:1687-1704 | the number of children |
| `CjsonList.DetachItemViaPointer` | rticonnextdds-gateway/third-party/librdkafka/src/cJSON.c:2035-2063 | removal; the item then points nowhere |
| `CjsonList.DetachItemFromArray` | rticonnextdds-gateway/third-party/librdkafka/src/cJSON.c:2065-2071 | removal at an index |
| `CjsonList.InsertItemInArray` | rticonnextdds-gateway/third-party/librdkafka/src/cJSON.c:2103-2124 | splice in front of an index, append beyond the end, refusal of negative indices and of null arrays |
| `CjsonList.ReplaceItemViaPointer` | rticonnextdds-gateway/third-party/librdkafka/src/cJSON.c:2127-2167 | substitution by a detached item |
| `CjsonList.ReplaceItemInArray` | rticonnextdds-gateway/third-party/librdkafka/src/cJSON.c:2170-2177 | substitution at an index |
| `CjsonList.Chain.Add` | rticonnextdds-gateway/third-party/librdkafka/src/cJSON.c:1372-1387 | a new node becomes the last one; the others keep their names and values |
| `CjsonList.Chain.Close` | rticonnextdds-gateway/third-party/librdkafka/src/cJSON.c:1404-1412 | the linked nodes become the children of the item, and the head points to the tail |
| `GatewayRoundTrip.RoundTrip` | rticonnextdds-gateway/common/protobuf2dds/srcCxx/DdsToProtobuf.cpp:989-1211 | every value of a mapped type without optional members or closed enumerations comes back from a cleared object as it was |
| `GatewayRoundTrip.StructRoundTrip` | rticonnextdds-gateway/common/protobuf2dds/srcCxx/ProtobufToDds.cpp:675-773 | for every mapped type both conversions succeed, and the value comes back if and only if no optional member that is present leaves its field unset and no closed enumeration drops a number other than a zero that is restored |
| `GatewayRoundTrip.OptionalZeroIsLost` | rticonnextdds-gateway/common/protobuf2dds/srcCxx/ProtobufToDds.cpp:48-51 | a concrete optional zero that comes back absent |
| `GatewayRoundTrip.ClosedEnumLosesUnknown` | rticonnextdds-gateway/common/protobuf2dds/srcCxx/DdsToProtobuf.cpp:112-129 | a concrete enumerator that a closed Protobuf enumeration drops |
| `GatewayRoundTrip.NumbersRoundTrip` | rticonnextdds-gateway/common/protobuf2dds/srcCxx/DdsToProtobuf.cpp:590-612 | collections in a closed enumeration: what is dropped leaves no gap, so a sequence comes back if and only if nothing is dropped, and an array if and only if nothing but zeros follows the first dropped number |
| `GatewayRoundTrip.KeptArray` | rticonnextdds-gateway/common/protobuf2dds/srcCxx/DdsToProtobuf.cpp:590-612 | what is kept of an array, filled up with zeros, is the array exactly when only zeros follow an unknown number |
| `GatewayRoundTrip.ToPbFromSlots` | rticonnextdds-gateway/common/protobuf2dds/srcCxx/DdsToProtobuf.cpp:1055-1208 | each field holds what its own member put there, and nothing else changes |
| `GatewayRoundTrip.ToDdsFromFields` | rticonnextdds-gateway/common/protobuf2dds/srcCxx/ProtobufToDds.cpp:713-770 | each member is restored from its own field, and nothing else changes |
| `GatewayRoundTrip.UnsetChangesNothing` | rticonnextdds-gateway/common/protobuf2dds/srcCxx/ProtobufToDds.cpp:675-773 | a message with nothing set leaves a value as it is, and so does a sub-message with nothing set; an absent structure is made by default |
| `GatewayRoundTrip.UnsetElements` | rticonnextdds-gateway/common/protobuf2dds/srcCxx/ProtobufToDds.cpp:391-669 | repeated sub-messages with nothing set keep the elements that are there |
| `GatewayRoundTrip.CollectionRoundTrip` | rticonnextdds-gateway/common/protobuf2dds/srcCxx/ProtobufToDds.cpp:324-672 | element by element restoration of sequences and arrays |
| `GatewayRoundTrip.OctetsRoundTrip` | rticonnextdds-gateway/common/protobuf2dds/srcCxx/DynamicDataUtils.cpp:206-254 | sequences of octets through a bytes field |
| `GatewayRoundTrip.FuzzyBytesPointwise` | rticonnextdds-gateway/common/protobuf2dds/srcCxx/DynamicDataUtils.cpp:206-254 | a bytes field goes into a collection of octets or characters, and no other, if and only if its length is within the bound or equal to the length; element by element it is the byte, or the signed number with the same eight bits |
| `GatewayRoundTrip.ScalarGoesByTable` | rticonnextdds-gateway/common/protobuf2dds/srcCxx/DdsToProtobuf.cpp:112-400 | single values go into the fields of the documented table, strings also into bytes, and into no others |
| `GatewayRoundTrip.ScalarComesByTable` | rticonnextdds-gateway/common/protobuf2dds/srcCxx/ProtobufToDds.cpp:55-300 | values of fields go into members by the same table, besides enumerators and 32-bit numbers into each other, unchanged; one that is out of range is refused |
| `GatewayRoundTrip.ElementsNeedRoom` | rticonnextdds-gateway/common/protobuf2dds/srcCxx/ProtobufToDds.cpp:324-672 | elements are put in only if there is room for all of them |
| `GatewayRoundTrip.UpToNulIsPrefix` | rticonnextdds-gateway/common/protobuf2dds/srcCxx/ProtobufToDds.cpp:192-210 | a text is stored up to its first NUL |
| `GatewayRoundTrip.FuzzyLongKeepsValue` | rticonnextdds-gateway/common/protobuf2dds/srcCxx/DynamicDataUtils.cpp:85-145 | the signed setter stores exactly the given value, and refuses those that do not fit |
| `GatewayRoundTrip.FuzzyULongKeepsValue` | rticonnextdds-gateway/common/protobuf2dds/srcCxx/DynamicDataUtils.cpp:148-204 | the same for the unsigned setter |
| `GatewayTypes.ResolveKeepsValues` | rticonnextdds-gateway/common/protobuf2dds/srcCxx/DynamicDataUtils.cpp:27-50 | resolving aliases changes neither the values of a type nor its default |
| `GatewayConverter.ConverterState.GetCached` | rticonnextdds-gateway/common/protobuf2dds/srcCxx/ProtobufConverterUtils.hpp:44-57 | at most one scratch object for every type, created on first use |
| `GatewayConverter.ConverterState.Bind` | rticonnextdds-gateway/common/protobuf2dds/srcCxx/DdsToProtobuf.cpp:56-101 | required of every caller: the object is in the cache and not bound |
| `GatewayConverter.ConverterState.ReadString` | rticonnextdds-gateway/common/protobuf2dds/srcCxx/DdsToProtobuf.cpp:353-400 | the bytes that come out of the scratch buffer are the string; the buffer, of 128 bytes at first, keeps its size or grows to hold the string and its terminator |
| `GatewayConverter.ConverterState.ReadOctets` | rticonnextdds-gateway/common/protobuf2dds/srcCxx/DdsToProtobuf.cpp:406-436 | a sequence of octets gives the scratch buffer exactly its own size, larger or smaller than before |
| `GatewayConverter.ConverterState.ReadElementString` | rticonnextdds-gateway/common/protobuf2dds/srcCxx/DdsToProtobuf.cpp:866-907 | the element is read whole, and the buffer shrinks exactly when the element is longer than the one before it and smaller than the buffer |
| `GatewayConverter.ConverterState.ScalarsToPb` | rticonnextdds-gateway/common/protobuf2dds/srcCxx/DdsToProtobuf.cpp:866-975 | the elements of repeated fields that need no scratch object, and the size that strings leave the buffer with |
| `GatewayConverter.ConverterState.DdsToProtobuf` | rticonnextdds-gateway/common/protobuf2dds/srcCxx/DdsToProtobuf.cpp:989-1211 | computes the specified message; on success and on failure the bindings are those of the start |
| `GatewayConverter.ConverterState.SingularMemberToPb` | rticonnextdds-gateway/common/protobuf2dds/srcCxx/DdsToProtobuf.cpp:38-450 | the same for one member, bound and unbound around the recursion |
| `GatewayConverter.ConverterState.CollectionMemberToPb` | rticonnextdds-gateway/common/protobuf2dds/srcCxx/DdsToProtobuf.cpp:452-987 | the same for collections, whose elements are bound inside the bound member |
| `GatewayConverter.ConverterState.ProtobufToDds` | rticonnextdds-gateway/common/protobuf2dds/srcCxx/ProtobufToDds.cpp:675-773 | computes the specified value; on success and on failure the bindings are those of the start |
| `GatewayConverter.ConverterState.SingularToMember` | rticonnextdds-gateway/common/protobuf2dds/srcCxx/ProtobufToDds.cpp:36-320 | the same for singular fields |
| `GatewayConverter.ConverterState.RepeatedToElements` | rticonnextdds-gateway/common/protobuf2dds/srcCxx/ProtobufToDds.cpp:391-669 | the same for the elements of repeated fields |
| `GatewayConverter.ThereAndBack` | rticonnextdds-gateway/common/protobuf2dds/srcCxx/ProtobufDynamicDataConverter.cxx:62-110 | both conversions on one shared state: the value returns exactly when it is faithful, unless a scratch object could not be made |

## Left out

* LZ4: external dictionaries and dictionary contexts, `byPtr` tables, 32-bit and big-endian targets, partial decoding,
  `LZ4_saveDict`, decoding in place, decoding to another buffer in mid-stream, and the obsolete wrappers: more cases of the same kind.
* LZ4: lz4.h is not part of this model; its constants (input limit 0x7E000000, bound n + n/255 + 16, distance 65535,
  acceleration 65537) are declared with their published values. Table entries are natural numbers whose 16- and 32-bit ranges are
  proved. Pointer overflow near the end of the address space does not arise with positions.
- Lz4Count.NbCommonBytesOfPack: models the portable multiplication, because the trailing-zero builtins are calls into the compiler.
- Lz4RoundTrip.DecodersAgree: the reference decoder does not check its input, so inputs on which it would read past the end
  (`RanOut`) are excluded.
- Lz4RoundTrip.StreamDecode.DecompressSafeContinue: prefix mode only; a block that goes to another buffer in mid-stream takes the
  external dictionary, which is left out.
- Lz4Stream.Stream.CompressFastContinue: the input follows the history in memory; an external or overlapping dictionary is left out.
- Lz4RoundTrip.StreamRoundTrip: the decoder state is not reset and output stays contiguous, as prefix mode requires.
* CRC: the cpuid test and the inline assembly. The two instructions are their definition, and the upper halves of the 64-bit
  registers are zero.
* cJSON: numbers, raw items and null strings; a text with a number is one that the parser model rejects. Allocation failures of
  the parser, allocation hooks, the global error position, `cJSON_Minify`, `cJSON_PrintBuffered` and the creation helpers.
- CjsonParse.ParseBuffer.ReadString: fails at the end of the buffer, where the source reads one byte on; texts that end in a NUL
  never get there. Text with an embedded NUL keeps all its bytes, of which a C string shows those before the first NUL.
- CjsonParse.ParseBuffer.ReadValue: numbers are rejected and item allocations are not refused; the list of an array or object
  holds its elements as trees, whose own lists the contract does not restate.
- CjsonParse.ParseWithLengthOpts: after a failure, which position inside the text is reported.
- CjsonParse.ParseBuffer.ReadArray: item allocations are not refused.
- CjsonParse.ParseBuffer.ReadObject: item allocations are not refused.
- CjsonPrint.PrintBuffer.PrintValue: numbers, raw items and null strings are left out of the tree.
- CjsonList.ReplaceItemViaPointer: freeing the item that was replaced.
- CjsonList.ReplaceItemInArray: freeing the item that was replaced.
* Converters: the wire format, descriptor loading and logging. A reflection setter on a field of another kind ends the process
  in the source and counts as failure here. DDS setters and getters are exact about types. Floating-point values are real numbers
  that are only copied. Valuetypes are structures, maps are repeated messages, and unions and wide characters are one unsupported kind.
* Converters: values are passed and returned instead of being shared through bound objects, so aliasing between a bound object and
  its parent is not captured; which objects are bound is. Types are finite trees, so recursive types do not occur, and scratch
  objects are told apart by type rather than by address, which only merges objects that the source keeps apart.
- GatewayRoundTrip.StructRoundTrip: optional members and cleared objects only with zero defaults, and a negative floating-point zero
  is the zero.
- GatewayConverter.ConverterState.GetCached: scratch objects are a set keyed by type, which holds at most one each.
- GatewayConverter.ThereAndBack: serialising the message to bytes and parsing them in between.
- GatewayConverter.ConverterState.Bind: the library's other reasons to refuse a binding are part of the conversion functions.
