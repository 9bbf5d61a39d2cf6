# dendrite columnar encodings in Dafny

This project models the columnar encoding layer of dendrite, a Java/Clojure
columnar storage format: the byte primitives every encoder builds on, the
value encoders and decoders, and the page and metadata serialisers. Each
Java encoder is an immutable Dafny record plus pure functions, one per Java
method. Each decoder is a record plus a one-step `Decode` function, and
`Encoding.DecodeN` runs `n` successive `decode()` calls. A `ByteBuffer` read
is a function from the unread bytes to the value and the bytes after it, or
to the exception Java would throw (`Wrappers.Outcome`).

Java `int`/`long` arithmetic is written out. `Words.ToUnsigned` and
`Words.ToSigned` give the two's-complement readings, so wrap-around,
`>>>`, and the 5-byte varint of a negative `int` are explicit. Counters
(`numValues`) are unbounded naturals. The round-trip lemmas assume fewer
than 2^31 values, because only then is the `int` count written correctly.

Modules, following the Java files:

- `Words`, `BitStreams`, `Seqs`, `Wrappers`: Java integer widths,
  little-endian and LSB-first bit streams, sequence helpers and the
  outcome type.
- `Bytes` (`Bytes.java`): fixed-width ints, UInt/ULong and ZigZag
  varints, the BigInteger VLQ, packed ints and booleans, and byte arrays.
- `MemoryOutputStreams` (`MemoryOutputStream.java`): the growable buffer.
- `Encoding` (`AEncoder.java`, `ADecoder.java`): the count prefix and
  body framing, and the generic `DecodeN`.
- `BooleanPacked`, `ByteArrayPlain`, `FixedLengthByteArrayPlain`: the
  simple encoders.
- `IntFixedBitWidthPackedRunLength` (the hybrid run-length / bit-packed
  encoding), with `RleRuns` (the run structure of its output),
  `RleEncoderInvariant` (what an encoder state holds), `RleDecoding` (the
  round trip) and `RleProperties` (run-breaking, finish and estimates).
- `IntPackedRunLength`: ints of unknown width, buffered as UInts and
  replayed through the hybrid encoder at the largest bit width.
- `PackedDelta` (`IntPackedDelta.java`, `LongPackedDelta.java`): the
  delta encoder and decoder, one definition for both word sizes. The
  encoder keeps the reference frame across blocks and resets, as the Java
  array does, and `WriteTo` packs every block from it. `Body` is the
  corrected writer, which clears the frame past each block's entries.
  `PackedDeltaDecoding` proves that one block decodes, and
  `PackedDeltaProperties` proves the stream round trips and the effect of
  the stale frame.
- `ByteArrayDeltaLength`, `ByteArrayIncremental`: byte arrays as a
  packed-delta block of lengths (or of shared prefix lengths) followed by
  the bytes.
- `Dictionaries` (`Dictionary.java`): the dictionary encoder over the
  run-length encoding of indices, the frequency order, and the decoder.
- `DataPages`, `DictionaryPages`, `Pages`: page headers, the required,
  non-repeated and repeated page writers and readers, and the page
  sequence reader with its partitioning.
- `Metadata`: the column chunk, record group, list and file metadata
  serialisers.
- `Stats`, `Estimators`: page, chunk, column and file statistics, and the
  length estimator.
- `ChunkedLists` (`ChunkedPersistentList.java`), `PersistentRecords`
  (`PersistentRecord.java`), `Bundles` (`Bundle.java`): the collections
  the readers build.
- `Mangle`: the map, keep and filter wrappers and their composition.
- `Types` (`Types.java`, `Functions.java`): type, encoding and
  compression symbols, custom type ids, and the flattening of logical
  type chains. `CompAsWritten` is `Functions.comp` as written, which
  flattening uses; `Comp` is the corrected comp, whose loop runs from the
  last function to the first.
- `Options`: the reader, read and writer option parsers.

## Model

| member | source | states |
|---|---|---|
| Bytes.FixedRoundTrip | dendrite/java-src/dendrite/java/Bytes.java:22-35 | a fixed int or long is exactly 4 or 8 little-endian bytes, and reading them back gives the value and leaves the rest unread |
| Bytes.ReadFixed | dendrite/java-src/dendrite/java/Bytes.java:29-35 | reading a fixed int fails with a buffer underflow exactly when fewer than 4 (or 8) bytes remain |
| Bytes.VarintRoundTrip | dendrite/java-src/dendrite/java/Bytes.java:37-72 | a UInt/ULong takes 1 to 5 (or 10) bytes, a negative one takes the maximum, every byte but the last has bit 0x80 set, and reading it back gives the value |
| Bytes.GetNumUIntBytes | dendrite/java-src/dendrite/java/Bytes.java:37-45 | the shifting loop counts exactly the bytes writeUInt writes |
| Bytes.VarintTooLongFails | dendrite/java-src/dendrite/java/Bytes.java:60-72 | a varint whose first 5 (or 10) bytes all carry the continuation bit is rejected with "Failed to parse UInt" (or ULong) |
| Bytes.ReadGroupsOfGroups | dendrite/java-src/dendrite/java/Bytes.java:47-72 | the base-128 groups of a number read back as the number, with the bytes after them untouched |
| Bytes.EncodeZigZag | dendrite/java-src/dendrite/java/Bytes.java:74-76 | `(i << 1) ^ (i >> 31)` is, read unsigned, 2i for i ≥ 0 and −2i−1 for i < 0 |
| Bytes.ZigZagRoundTrip | dendrite/java-src/dendrite/java/Bytes.java:74-80 | decodeZigZag inverts encodeZigZag, both ways round, for ints and longs |
| Bytes.UIntRoundTrip | dendrite/java-src/dendrite/java/Bytes.java:47-72 | readUInt(writeUInt(i)) = i for every int, including negatives |
| Bytes.ULongRoundTrip | dendrite/java-src/dendrite/java/Bytes.java:123-148 | readULong(writeULong(l)) = l for every long |
| Bytes.SIntRoundTrip | dendrite/java-src/dendrite/java/Bytes.java:82-88 | readSInt(writeSInt(i)) = i |
| Bytes.SLongRoundTrip | dendrite/java-src/dendrite/java/Bytes.java:158-164 | readSLong(writeSLong(l)) = l |
| Bytes.WriteUIntVLQ | dendrite/java-src/dendrite/java/Bytes.java:179-196 | an unbounded natural is written in bitLength/7 + 1 groups of 7 bits |
| Bytes.EncodeZigZagBig | dendrite/java-src/dendrite/java/Bytes.java:224-230 | the unbounded ZigZag value is odd exactly for negative numbers |
| Bytes.SIntVLQRoundTrip | dendrite/java-src/dendrite/java/Bytes.java:198-244 | any integer, however large, reads back from its ZigZag VLQ |
| Bytes.GetBitWidth | dendrite/java-src/dendrite/java/Bytes.java:283-289 | the bit width is the least w with i < 2^w for i ≥ 0, and the full word width for i < 0 |
| Bytes.FitsBitWidth | dendrite/java-src/dendrite/java/Bytes.java:283-289 | every value fits in the width getBitWidth reports |
| Bytes.PackedIntRoundTrip | dendrite/java-src/dendrite/java/Bytes.java:291-311 | readPackedInt(writePackedInt(i, w)) is i masked to w bits, which is i itself when i fits |
| Bytes.WritePackedInts | dendrite/java-src/dendrite/java/Bytes.java:322-331 | n values of width w take ceil(n·w/8) bytes, and width 0 writes nothing |
| Bytes.ReadPackedInts | dendrite/java-src/dendrite/java/Bytes.java:333-346 | reading n values of width w consumes ceil(n·w/8) bytes, fails only on a short buffer, and gives zeros for width 0 |
| Bytes.PackedIntsRoundTrip | dendrite/java-src/dendrite/java/Bytes.java:322-416 | reading packed ints gives each value masked to the width |
| Bytes.PackedIntsRoundTripFitting | dendrite/java-src/dendrite/java/Bytes.java:322-529 | ints or longs that fit the width read back unchanged |
| Bytes.WritePackedBooleans | dendrite/java-src/dendrite/java/Bytes.java:246-253 | the byte holds the octuplet with the first boolean in the most significant bit |
| Bytes.PackedBooleanBits | dendrite/java-src/dendrite/java/Bytes.java:255-265 | boolean k of a read octuplet is bit 7−k of the byte |
| Bytes.PackedBooleansRoundTrip | dendrite/java-src/dendrite/java/Bytes.java:246-265 | readPackedBooleans inverts writePackedBooleans |
| Bytes.ByteArrayRoundTrip | dendrite/java-src/dendrite/java/Bytes.java:531-548 | a byte array, or null written as SInt −1, reads back unchanged |
| MemoryOutputStreams.New | dendrite/java-src/dendrite/java/MemoryOutputStream.java:25-31 | a new stream holds nothing in a buffer of the requested length |
| MemoryOutputStreams.Reset | dendrite/java-src/dendrite/java/MemoryOutputStream.java:33-36 | reset empties the contents and keeps the buffer |
| MemoryOutputStreams.GetLength | dendrite/java-src/dendrite/java/MemoryOutputStream.java:41-49 | the length is the number of bytes written |
| MemoryOutputStreams.WriteTo | dendrite/java-src/dendrite/java/MemoryOutputStream.java:51-54 | the target receives exactly the written bytes after its own |
| MemoryOutputStreams.Grow | dendrite/java-src/dendrite/java/MemoryOutputStream.java:56-60 | growing doubles the buffer and keeps its bytes and contents |
| MemoryOutputStreams.EnsureRemainingCapacity | dendrite/java-src/dendrite/java/MemoryOutputStream.java:62-66 | afterwards at least the requested capacity is free and the existing bytes are unchanged |
| MemoryOutputStreams.Write | dendrite/java-src/dendrite/java/MemoryOutputStream.java:68-77 | one byte (the int's low 8 bits) is appended, and a full buffer is doubled first |
| MemoryOutputStreams.WriteBytes | dendrite/java-src/dendrite/java/MemoryOutputStream.java:79-89 | write(bytes, off, len) appends exactly bytes[off..off+len) and advances the position by len |
| MemoryOutputStreams.WriteBuffer | dendrite/java-src/dendrite/java/MemoryOutputStream.java:91-98 | writing a ByteBuffer appends its remaining bytes |
| Encoding.WriteFrame | dendrite/java-src/dendrite/java/AEncoder.java:43-48 | writeTo writes the count then the body: the decoder reads back the count, wrapped to an int, and is left at the body |
| Encoding.FrameLength | dendrite/java-src/dendrite/java/AEncoder.java:33-41 | getLength is the size of what writeTo writes |
| Encoding.ResetFrame | dendrite/java-src/dendrite/java/AEncoder.java:24-28 | a reset encoder writes only a zero count, one byte |
| Encoding.CountRoundTrip | dendrite/java-src/dendrite/java/ADecoder.java:22-25 | the decoder reads back the count the encoder wrote |
| Encoding.DecodeNSplit | dendrite/java-src/dendrite/java/ADecoder.java:17-31 | m + n decode calls are m calls followed by n more |
| BooleanPacked.Encode | dendrite/java-src/dendrite/java/BooleanPacked.java:45-55 | encode counts the value and writes one byte exactly when it completes an octuplet |
| BooleanPacked.Finish | dendrite/java-src/dendrite/java/BooleanPacked.java:63-69 | finish writes one extra byte exactly when a partial octuplet is pending |
| BooleanPacked.Reset | dendrite/java-src/dendrite/java/BooleanPacked.java:57-61 | reset clears the octuplet position, the count and the body |
| BooleanPacked.EstimatedLength | dendrite/java-src/dendrite/java/BooleanPacked.java:71-74 | the estimate, which adds 1 exactly when a partial octuplet is pending, is the size writeTo writes |
| BooleanPacked.EncodeAllRepresents | dendrite/java-src/dendrite/java/BooleanPacked.java:45-55 | after encoding a sequence, the body bytes followed by the pending octuplet are the sequence |
| BooleanPacked.FinishRepresents | dendrite/java-src/dendrite/java/BooleanPacked.java:63-69 | after finish the body has ceil(n/8) bytes and its first n booleans are the values |
| BooleanPacked.DecodePending | dendrite/java-src/dendrite/java/BooleanPacked.java:28-37 | successive decodes return the unread booleans in order, reading a new byte every 8 calls |
| BooleanPacked.RoundTrip | dendrite/java-src/dendrite/java/BooleanPacked.java:28-74 | decoding what was encoded gives the count and the booleans in order |
| ByteArrayPlain.Encode | dendrite/java-src/dendrite/java/ByteArrayPlain.java:37-43 | encode counts the value and appends 4 + length bytes, keeping the body before them |
| ByteArrayPlain.Decode | dendrite/java-src/dendrite/java/ByteArrayPlain.java:25-31 | decode consumes a 4-byte length and exactly that many bytes, or fails |
| ByteArrayPlain.DecodeValue | dendrite/java-src/dendrite/java/ByteArrayPlain.java:25-43 | one encoded array decodes to itself and the reader stops right after it |
| ByteArrayPlain.RoundTrip | dendrite/java-src/dendrite/java/ByteArrayPlain.java:25-43 | decoding an encoded sequence gives the count and the arrays in order, with nothing left over |
| FixedLengthByteArrayPlain.Encode | dendrite/java-src/dendrite/java/FixedLengthByteArrayPlain.java:43-56 | the first array fixes the length; an array of another length fails with IllegalStateException |
| FixedLengthByteArrayPlain.Reset | dendrite/java-src/dendrite/java/FixedLengthByteArrayPlain.java:58-62 | reset restores the length to −1 and empties the frame |
| FixedLengthByteArrayPlain.EncodeAllRepresents | dendrite/java-src/dendrite/java/FixedLengthByteArrayPlain.java:43-56 | encoding succeeds exactly when all arrays have one length; the body is then the length as a UInt followed by the arrays |
| FixedLengthByteArrayPlain.Decode | dendrite/java-src/dendrite/java/FixedLengthByteArrayPlain.java:30-35 | decode returns the next length bytes, and fails on a short buffer |
| FixedLengthByteArrayPlain.NewDecoder | dendrite/java-src/dendrite/java/FixedLengthByteArrayPlain.java:25-28 | the corrected constructor reads the count, and the length only when the count is positive |
| FixedLengthByteArrayPlain.RoundTrip | dendrite/java-src/dendrite/java/FixedLengthByteArrayPlain.java:25-56 | for arrays of one length, the corrected decoder returns the count and the arrays in order |
| FixedLengthByteArrayPlain.EmptyReadable | dendrite/java-src/dendrite/java/FixedLengthByteArrayPlain.java:25-28 | the corrected constructor accepts the output of an encoder with no values |
| FixedLengthByteArrayPlain.EmptyUnreadable | dendrite/java-src/dendrite/java/FixedLengthByteArrayPlain.java:25-28 | an encoder with no values writes [0], over which the constructor as written fails |
| IntFixedBitWidthPackedRunLength.RleThreshold | dendrite/java-src/dendrite/java/IntFixedBitWidthPackedRunLength.java:107-111 | the threshold is the least run length whose width·count exceeds the bytes of an RLE run, and Integer.MIN_VALUE for width 0 |
| IntFixedBitWidthPackedRunLength.RunHeader | dendrite/java-src/dendrite/java/IntFixedBitWidthPackedRunLength.java:203-223 | a run header is count << 1, with the low bit set for a bit-packed run |
| IntFixedBitWidthPackedRunLength.BufferPackedInt | dendrite/java-src/dendrite/java/IntFixedBitWidthPackedRunLength.java:187-195 | buffering one value adds one slot to the octuplets, and a full octuplet is packed into the buffer |
| IntFixedBitWidthPackedRunLength.PackRleRun | dendrite/java-src/dendrite/java/IntFixedBitWidthPackedRunLength.java:175-180 | a short run is re-buffered as numOccurrences packed values |
| IntFixedBitWidthPackedRunLength.FlushBitPacked | dendrite/java-src/dendrite/java/IntFixedBitWidthPackedRunLength.java:197-210 | a bit-packed run is the header count << 1 \| 1, then the buffered octuplets |
| IntFixedBitWidthPackedRunLength.FlushRle | dendrite/java-src/dendrite/java/IntFixedBitWidthPackedRunLength.java:212-227 | an RLE run flushes any buffered octuplets first, then writes count << 1 and the value in width bits |
| IntFixedBitWidthPackedRunLength.PadOctuplet | dendrite/java-src/dendrite/java/IntFixedBitWidthPackedRunLength.java:148-156 | finish zero-pads the pending partial octuplet and buffers it |
| IntFixedBitWidthPackedRunLength.Finish | dendrite/java-src/dendrite/java/IntFixedBitWidthPackedRunLength.java:147-162 | finish leaves nothing pending, buffered or in a run |
| IntFixedBitWidthPackedRunLength.Reset | dendrite/java-src/dendrite/java/IntFixedBitWidthPackedRunLength.java:137-145 | reset clears the run state, the octuplet buffer and the counters and keeps the width |
| IntFixedBitWidthPackedRunLength.ReadOctuplet | dendrite/java-src/dendrite/java/IntFixedBitWidthPackedRunLength.java:59-63 | an octuplet read consumes width bytes, and fails when fewer remain |
| IntFixedBitWidthPackedRunLength.BufferNextOctuplet | dendrite/java-src/dendrite/java/IntFixedBitWidthPackedRunLength.java:59-63 | buffering an octuplet consumes width bytes, resets the position and counts one octuplet off |
| IntFixedBitWidthPackedRunLength.DecodeFromOctuplet | dendrite/java-src/dendrite/java/IntFixedBitWidthPackedRunLength.java:45-52 | the value is the next octuplet slot, and only a finished octuplet with more to read triggers a read |
| IntFixedBitWidthPackedRunLength.Decode | dendrite/java-src/dendrite/java/IntFixedBitWidthPackedRunLength.java:33-57 | a pending RLE run yields its value and counts down; otherwise the octuplet slot is returned |
| RleDecoding.RunHeaderRead | dendrite/java-src/dendrite/java/IntFixedBitWidthPackedRunLength.java:75-82 | a header with low bit 1 starts a bit-packed run of n >>> 1 octuplets, low bit 0 an RLE run of n >>> 1 repeats |
| RleDecoding.RleRunDecodes | dendrite/java-src/dendrite/java/IntFixedBitWidthPackedRunLength.java:54-68 | an RLE run decodes to its value repeated count times |
| RleDecoding.PackedRunDecodes | dendrite/java-src/dendrite/java/IntFixedBitWidthPackedRunLength.java:45-73 | a bit-packed run decodes to its octuplets' values in order |
| RleDecoding.RunsDecode | dendrite/java-src/dendrite/java/IntFixedBitWidthPackedRunLength.java:33-82 | a sequence of well-formed runs decodes to their values in order |
| RleEncoderInvariant.EncodeIntHolds | dendrite/java-src/dendrite/java/IntFixedBitWidthPackedRunLength.java:113-129 | encoding one value keeps the invariant: written runs, buffered octuplets, pending values and the open run hold the values so far |
| RleEncoderInvariant.EncodeAllHolds | dendrite/java-src/dendrite/java/IntFixedBitWidthPackedRunLength.java:113-135 | after encoding a sequence whose values fit the width, the encoder state holds exactly that sequence |
| RleEncoderInvariant.FinishHolds | dendrite/java-src/dendrite/java/IntFixedBitWidthPackedRunLength.java:147-162 | after finish the body is well-formed runs whose values are the encoded values followed by the zero padding |
| RleDecoding.RoundTrip | dendrite/java-src/dendrite/java/IntFixedBitWidthPackedRunLength.java:28-162 | the first numValues decodes of a written stream are the encoded ints, when every int fits the width |
| RleProperties.BreakLongRun | dendrite/java-src/dendrite/java/IntFixedBitWidthPackedRunLength.java:113-129 | a run of at least rleThreshold repeats is flushed as an RLE run when a different value arrives |
| RleProperties.BreakShortRun | dendrite/java-src/dendrite/java/IntFixedBitWidthPackedRunLength.java:113-129 | a shorter run is re-buffered as packed values; the new value opens a run only at an octuplet boundary |
| RleProperties.ZeroWidthAlwaysRle | dendrite/java-src/dendrite/java/IntFixedBitWidthPackedRunLength.java:107-129 | at width 0 the threshold is Integer.MIN_VALUE, so every run break writes an RLE run |
| RleProperties.FinishIdempotent | dendrite/java-src/dendrite/java/IntFixedBitWidthPackedRunLength.java:147-162 | finishing twice is finishing once, and writeTo finishes first |
| RleProperties.ResetWritesNothing | dendrite/java-src/dendrite/java/IntFixedBitWidthPackedRunLength.java:137-145 | a reset encoder writes only a zero count |
| RleProperties.EstimateAsWrittenTooSmall | dendrite/java-src/dendrite/java/IntFixedBitWidthPackedRunLength.java:164-173 | the estimate as written can be smaller than the encoder's current length |
| RleProperties.EstimateCovers | dendrite/java-src/dendrite/java/IntFixedBitWidthPackedRunLength.java:164-173 | the corrected estimate exceeds the current length and, with no open run, also covers the buffered and pending bytes |
| IntPackedRunLength.ReadUIntsOfUInts | dendrite/java-src/dendrite/java/IntPackedRunLength.java:68-70 | reading n UInts back from the buffer of n written UInts yields the values in order and leaves the bytes after them |
| IntPackedRunLength.MaxBitWidth | dendrite/java-src/dendrite/java/IntPackedRunLength.java:62-67 | the tracked width bounds every value's bit width, is 0 for no values and is attained by some value |
| IntPackedRunLength.FitsMaxBitWidth | dendrite/java-src/dendrite/java/IntPackedRunLength.java:62-67 | every buffered value fits the tracked width |
| IntPackedRunLength.Encode | dendrite/java-src/dendrite/java/IntPackedRunLength.java:62-71 | encode appends to the UInt buffer, counts one more value and never lowers the width below the value's bit width |
| IntPackedRunLength.EncodeTracksWidth | dendrite/java-src/dendrite/java/IntPackedRunLength.java:62-71 | encode keeps the buffer, the count and the width equal to the UInts, number and largest bit width of the values seen |
| IntPackedRunLength.Reset | dendrite/java-src/dendrite/java/IntPackedRunLength.java:73-80 | reset empties the buffer and zeroes the count, the width and the finished flag |
| IntPackedRunLength.Finish | dendrite/java-src/dendrite/java/IntPackedRunLength.java:82-93 | finish keeps the count and width, marks the encoder finished, and a finished encoder is returned unchanged |
| IntPackedRunLength.FinishEncodes | dendrite/java-src/dendrite/java/IntPackedRunLength.java:82-93 | finish replays the buffered values through a hybrid encoder set to the largest bit width and finishes it |
| IntPackedRunLength.FinishIdempotent | dendrite/java-src/dendrite/java/IntPackedRunLength.java:82-93 | finishing twice is finishing once |
| IntPackedRunLength.LengthAfterFinish | dendrite/java-src/dendrite/java/IntPackedRunLength.java:95-98 | after finish, getLength is the number of bytes writeTo writes |
| IntPackedRunLength.WrittenStream | dendrite/java-src/dendrite/java/IntPackedRunLength.java:107-112 | writeTo writes the largest bit width as one byte, then the hybrid stream of the values at that width |
| IntPackedRunLength.ResetWritesNothing | dendrite/java-src/dendrite/java/IntPackedRunLength.java:73-80 | a reset encoder writes width 0 and a zero count, two bytes |
| IntPackedRunLength.EstimateCoversValues | dendrite/java-src/dendrite/java/IntPackedRunLength.java:100-105 | below 2^26 values the estimate covers the width byte, the count, a run header and the values packed at the tracked width |
| IntPackedRunLength.EstimateValue | dendrite/java-src/dendrite/java/IntPackedRunLength.java:100-105 | below 2^26 values no `int` in the estimate overflows, so it is the width byte plus the header, packed-value and count sizes |
| IntPackedRunLength.NewDecoder | dendrite/java-src/dendrite/java/IntPackedRunLength.java:23-27 | the decoder reads the width byte and starts a hybrid decoder at that width over the rest, and underflows on an empty buffer |
| IntPackedRunLength.DecoderOverStream | dendrite/java-src/dendrite/java/IntPackedRunLength.java:23-27 | the decoder over a written stream is the hybrid decoder over its hybrid part at the largest bit width |
| IntPackedRunLength.RoundTrip | dendrite/java-src/dendrite/java/IntPackedRunLength.java:23-112 | decoding a written stream yields the count and then the encoded ints in order |
| PackedDelta.BlockLength | dendrite/java-src/dendrite/java/IntPackedDelta.java:204-215 | one value gives block length 0; otherwise the block length is the least of 8, 16, ..., 128 that holds the n − 1 differences |
| PackedDelta.Deltas | dendrite/java-src/dendrite/java/IntPackedDelta.java:185-194 | there is one difference per neighbouring pair, and difference k is value k+1 less value k |
| PackedDelta.MinDelta | dendrite/java-src/dendrite/java/IntPackedDelta.java:185-194 | the running minimum is at most every difference and is one of them, or the starting `Long.MAX_VALUE` when there are none |
| PackedDelta.Excess | dendrite/java-src/dendrite/java/IntPackedDelta.java:196-202 | each frame entry is its difference less the smallest one, narrowed to the word as the `(int)` cast does |
| PackedDelta.ReferenceFrame | dendrite/java-src/dendrite/java/IntPackedDelta.java:196-202 | the corrected frame holds the block's entries and zeros in every later slot |
| PackedDelta.ReferenceFrameAsWritten | dendrite/java-src/dendrite/java/IntPackedDelta.java:196-202 | the frame as written holds the block's entries, and every later slot keeps what the previous block left there |
| PackedDelta.MiniblockWidth | dendrite/java-src/dendrite/java/IntPackedDelta.java:174-183 | the miniblock width bounds the bit width of every slot it covers, is 0 for no slots and is attained by one of them |
| PackedDelta.MiniblockCount | dendrite/java-src/dendrite/java/IntPackedDelta.java:165-170 | miniblock j packs min(m − j·ml, ml) differences, none past the last difference, and at least one before it |
| PackedDelta.Widths | dendrite/java-src/dendrite/java/IntPackedDelta.java:150-155 | there is one width per miniblock, the width of its ml frame slots |
| PackedDelta.BestIsShortest | dendrite/java-src/dendrite/java/IntPackedDelta.java:119-146 | the chosen miniblock length gives a block no longer than any other tried, and strictly shorter than any smaller one, so ties keep the first |
| PackedDelta.FlushBlock | dendrite/java-src/dendrite/java/IntPackedDelta.java:217-224 | flushing writes the buffered values as one more block, packed from the frame the encoder carries, and adds their number to numEncodedValues; an empty buffer writes nothing |
| PackedDelta.Encode | dendrite/java-src/dendrite/java/IntPackedDelta.java:109-117 | encode counts the value and buffers it, first flushing a full buffer of 129 values as a group |
| PackedDelta.Finish | dendrite/java-src/dendrite/java/IntPackedDelta.java:233-238 | finish flushes the buffered values as a group when there are any, and otherwise changes nothing |
| PackedDelta.Reset | dendrite/java-src/dendrite/java/IntPackedDelta.java:226-231 | reset empties the buffer and the output and zeroes both counters, but keeps the reference frame the last block left behind |
| PackedDelta.NewDecoder | dendrite/java-src/dendrite/java/IntPackedDelta.java:33-35 | the decoder reads the count and starts with no values left in a block |
| PackedDelta.TruncDiv | dendrite/java-src/dendrite/java/IntPackedDelta.java:77 | `blockLength / numMiniblocks` agrees with Euclidean division when the block length is not negative |
| PackedDelta.ReadWidths | dendrite/java-src/dendrite/java/IntPackedDelta.java:82-87 | reading n widths takes the next n bytes into the front of the width array, and succeeds whenever n ≤ 16 bytes are there |
| PackedDelta.InitNextBlock | dendrite/java-src/dendrite/java/IntPackedDelta.java:74-88 | reading a block header always consumes bytes |
| PackedDelta.Accumulate | dendrite/java-src/dendrite/java/IntPackedDelta.java:59-64 | the `long` accumulator's sum agrees with the exact sum modulo 2^64 (exactly, for the BigInteger of the long decoder) |
| PackedDelta.SetCurrent | dendrite/java-src/dendrite/java/IntPackedDelta.java:59-64 | reading a slot changes only the current value and advances the position by one |
| PackedDelta.NextMiniblock | dendrite/java-src/dendrite/java/IntPackedDelta.java:66-72 | loading a miniblock moves to the next width and resets the position, never reading past the buffer |
| PackedDelta.DecodeStep | dendrite/java-src/dendrite/java/IntPackedDelta.java:37-57 | every decoded value fits the word, as the final `(int)` cast makes it |
| PackedDeltaDecoding.StartRoundTrip | dendrite/java-src/dendrite/java/LongPackedDelta.java:90-168 | the first value reads back from its SInt (int) or SLong (long), leaving what follows |
| PackedDeltaDecoding.MinDeltaRoundTrip | dendrite/java-src/dendrite/java/LongPackedDelta.java:92-170 | the smallest difference reads back from its SLong (int) or ZigZag VLQ (long), leaving what follows |
| PackedDeltaDecoding.WidthsRoundTrip | dendrite/java-src/dendrite/java/IntPackedDelta.java:84-164 | the width bytes the encoder writes fill the front of the decoder's width array |
| PackedDeltaDecoding.FullHeader | dendrite/java-src/dendrite/java/IntPackedDelta.java:74-164 | the decoder reads back the block length, miniblock count, value count, first value, smallest difference and widths the encoder wrote |
| PackedDeltaDecoding.LayoutRepresents | dendrite/java-src/dendrite/java/IntPackedDelta.java:148-202 | for every miniblock length tried, the block's start, smallest difference and packed entries reproduce each value from the one before, and each entry fits its miniblock's width |
| PackedDeltaDecoding.DecodeNext | dendrite/java-src/dendrite/java/IntPackedDelta.java:37-72 | one decode midway through a block returns the next value, loading a miniblock when the loaded one is used up |
| PackedDeltaDecoding.BlockRoundTrip | dendrite/java-src/dendrite/java/IntPackedDelta.java:37-172 | a block holding some values decodes to exactly those values and leaves the decoder between blocks at the bytes after it |
| PackedDeltaDecoding.BlockDecodes | dendrite/java-src/dendrite/java/IntPackedDelta.java:37-172 | the block the corrected writer produces for a group decodes to the group |
| PackedDeltaDecoding.StreamRoundTrip | dendrite/java-src/dendrite/java/IntPackedDelta.java:37-224 | the corrected blocks, one after another, decode to all their groups' values in order |
| PackedDeltaProperties.EncodeAllHolds | dendrite/java-src/dendrite/java/IntPackedDelta.java:109-224 | after encoding a sequence, the flushed groups are full 129-value groups and, followed by the buffer, are the sequence; numEncodedValues counts the flushed values |
| PackedDeltaProperties.FlushedAreChunks | dendrite/java-src/dendrite/java/IntPackedDelta.java:109-238 | after finish the groups are the sequence cut every 129 values |
| PackedDeltaProperties.FinishFlushesAll | dendrite/java-src/dendrite/java/IntPackedDelta.java:233-238 | after finish nothing is buffered and the groups hold every encoded value |
| PackedDeltaProperties.RoundTrip | dendrite/java-src/dendrite/java/IntPackedDelta.java:37-238 | the bytes writeTo writes, each block packed from the stale frame as flushBlock does, decode to the count and then the encoded values in order, from any encoder holding nothing, whatever frame earlier blocks left |
| PackedDeltaProperties.IntRoundTrip | dendrite/java-src/dendrite/java/IntPackedDelta.java:37-238 | the as-written round trip for Java ints, both from a new encoder and from one reset after earlier blocks |
| PackedDeltaProperties.LongRoundTrip | dendrite/java-src/dendrite/java/LongPackedDelta.java:38-249 | the as-written round trip for Java longs, both from a new encoder and from one reset after earlier blocks |
| PackedDeltaProperties.PackedWidth | dendrite/java-src/dendrite/java/IntPackedDelta.java:165-183 | the least width that fits the entries a miniblock actually packs bounds each of them and is attained by one |
| PackedDeltaProperties.ReferenceWidthTight | dendrite/java-src/dendrite/java/IntPackedDelta.java:174-202 | from the corrected frame, every miniblock's width is the least width that fits the entries it packs |
| PackedDeltaProperties.ShortBlockLeavesSlot | dendrite/java-src/dendrite/java/IntPackedDelta.java:196-202 | flushing 0, 0, 1 from a fresh frame leaves 1 in slot 1 |
| PackedDeltaProperties.StaleFrameWidensMiniblock | dendrite/java-src/dendrite/java/IntPackedDelta.java:174-231 | when a previous block left a nonzero slot 1, the as-written block for a, a packs its single entry 0 at a width above the least one and is longer than the corrected block |
| PackedDeltaProperties.AsWrittenDecodes | dendrite/java-src/dendrite/java/IntPackedDelta.java:37-202 | the as-written block, stale slots and all, still decodes to its values |
| PackedDeltaProperties.ResetHoldsNothing | dendrite/java-src/dendrite/java/IntPackedDelta.java:226-231 | a reset encoder holds no values and starts from the frame the last flushed block left |
| PackedDeltaProperties.FinishIdempotent | dendrite/java-src/dendrite/java/IntPackedDelta.java:233-238 | finishing twice is finishing once |
| PackedDeltaProperties.BlocksAsWrittenDecode | dendrite/java-src/dendrite/java/IntPackedDelta.java:37-224 | the blocks flushBlock writes, each packed from the frame the one before left, decode one after another to all their groups' values |
| PackedDeltaProperties.WrittenDecodes | dendrite/java-src/dendrite/java/IntPackedDelta.java:37-238 | for an encoder holding a sequence, the bytes writeTo writes read back as the count and then the sequence |
| PackedDeltaProperties.CorrectedRoundTrip | dendrite/java-src/dendrite/java/IntPackedDelta.java:37-238 | with the frame cleared past each block's entries, the written stream still decodes to the count and the values |
| PackedDeltaProperties.HoldsShort | dendrite/java-src/dendrite/java/IntPackedDelta.java:109-117 | an encoder holding at most 129 values has flushed nothing and buffers exactly them |
| PackedDeltaProperties.ShortBlockEncoder | dendrite/java-src/dendrite/java/IntPackedDelta.java:196-238 | encoding 0, 0, 1 and finishing flushes one block and leaves 1 in slot 1 of the frame |
| PackedDeltaProperties.PairBuffered | dendrite/java-src/dendrite/java/IntPackedDelta.java:109-117 | encoding a, a onto an empty encoder buffers both values, flushes nothing and keeps the frame |
| PackedDeltaProperties.OneBlockWritten | dendrite/java-src/dendrite/java/IntPackedDelta.java:217-238 | with nothing flushed yet, writeTo writes the count and one block packed from the encoder's frame |
| PackedDeltaProperties.StaleFrameLongerStream | dendrite/java-src/dendrite/java/IntPackedDelta.java:103-231 | an encoder reset after a block that left slot 1 nonzero writes a, a as a longer stream than the corrected writer |
| Estimators.LongDiv | dendrite/java-src/dendrite/java/Estimator.java:20-25 | Java long division truncates toward zero, except for Long.MIN_VALUE / −1 |
| Estimators.Correct | dendrite/java-src/dendrite/java/Estimator.java:20-25 | with nothing estimated yet the estimate is returned; otherwise it is scaled by observed/estimated, rounded toward zero |
| Estimators.Update | dendrite/java-src/dendrite/java/Estimator.java:27-30 | update adds the observed and estimated sizes to the totals, modulo 2^64 |
| Estimators.TotalsAreSums | dendrite/java-src/dendrite/java/Estimator.java:27-30 | after a series of updates the totals are the sums of what was passed, wrapped to a long |
| Estimators.TotalsExact | dendrite/java-src/dendrite/java/Estimator.java:27-30 | when the sums fit a long the totals are exactly the sums |
| Estimators.NextCheckThreshold | dendrite/java-src/dendrite/java/Estimator.java:32-41 | value 0 gives idx + 1; for Long.MIN_VALUE, 2·value wraps to 0 and the division throws ArithmeticException; otherwise the next threshold differs from idx |
| Estimators.ThresholdExact | dendrite/java-src/dendrite/java/Estimator.java:32-41 | without overflow the threshold is idx plus the extrapolated step, or idx + 1 when the step is 0 |
| Estimators.ThresholdBelowTarget | dendrite/java-src/dendrite/java/Estimator.java:32-41 | below the target the next threshold lies strictly after idx |
| Estimators.ThresholdAtTarget | dendrite/java-src/dendrite/java/Estimator.java:32-41 | at or past the target the next threshold is at most idx + 1 |
| Mangle.MapFn | dendrite/java-src/dendrite/java/Mangle.java:32-38 | a map function keeps every record, replaced by the user function's result |
| Mangle.MapIndexedFn | dendrite/java-src/dendrite/java/Mangle.java:40-46 | the indexed map function keeps every record, replaced by f(i, o) |
| Mangle.DropNil | dendrite/java-src/dendrite/java/Mangle.java:48-59 | nil becomes REMOVED and every other value passes unchanged |
| Mangle.KeepFn | dendrite/java-src/dendrite/java/Mangle.java:48-59 | a record is removed exactly when f returns nil, and otherwise replaced by f's result |
| Mangle.KeepIndexedFn | dendrite/java-src/dendrite/java/Mangle.java:61-72 | a record is removed exactly when f(i, o) is nil |
| Mangle.FilterFn | dendrite/java-src/dendrite/java/Mangle.java:74-84 | a record is kept, unchanged, exactly when f's result is truthy (not nil or false) |
| Mangle.FilterIndexedFn | dendrite/java-src/dendrite/java/Mangle.java:86-96 | a record is kept, unchanged, exactly when f(i, o) is truthy |
| Mangle.Compose | dendrite/java-src/dendrite/java/Mangle.java:98-106 | no functions compose to null and one function to itself |
| Mangle.RunFromPipeline | dendrite/java-src/dendrite/java/Mangle.java:108-148 | the loop of the list composition, started after k functions, finishes the left-to-right pipeline |
| Mangle.RemovedStays | dendrite/java-src/dendrite/java/Mangle.java:108-148 | once a function removes the record, the whole pipeline removes it |
| Mangle.ComposeIsPipeline | dendrite/java-src/dendrite/java/Mangle.java:98-148 | every composition, specialised or looped, applies the functions left to right and stops at REMOVED |
| Mangle.ComposeShortCircuits | dendrite/java-src/dendrite/java/Mangle.java:98-148 | when the first k functions remove the record, the composition filters it out |
| Stats.DataPageStats | dendrite/java-src/dendrite/java/Stats.java:51-56 | data page stats carry the page's counts and lengths and zero dictionary fields |
| Stats.DictionaryPageStats | dendrite/java-src/dendrite/java/Stats.java:58-61 | dictionary page stats carry the dictionary counts and lengths and zero data fields |
| Stats.CreateColumnChunkStats | dendrite/java-src/dendrite/java/Stats.java:94-124 | the accumulating loop gives the page count and, field by field, the sums over the pages |
| Stats.DataPagesOnly | dendrite/java-src/dendrite/java/Stats.java:94-124 | a chunk of data pages only has zero dictionary values and lengths |
| Stats.SumConcat | dendrite/java-src/dendrite/java/Stats.java:94-124 | the sum over two runs of pages is the sum of their sums |
| Stats.CreateColumnStats | dendrite/java-src/dendrite/java/Stats.java:176-212 | the accumulating loop gives the chunk count and, field by field, the sums over the chunks |
| Stats.SumOfSums | dendrite/java-src/dendrite/java/Stats.java:176-212 | summing per-chunk sums is summing over all the chunks' pages |
| Stats.ColumnOfPages | dendrite/java-src/dendrite/java/Stats.java:176-212 | a column's page count, value count and length are the totals over every page of its chunks |
| Stats.CreateRecordGroupStats | dendrite/java-src/dendrite/java/Stats.java:241-265 | the accumulating loop gives the chunk count and the field sums over the chunks |
| Stats.CreateGlobalStats | dendrite/java-src/dendrite/java/Stats.java:298-323 | the accumulating loop gives the group count and the field sums over the record groups |
| ChunkedLists.NewTransient | dendrite/java-src/dendrite/java/ChunkedPersistentList.java:127-129 | a new transient list holds nothing |
| ChunkedLists.Conj | dendrite/java-src/dendrite/java/ChunkedPersistentList.java:137-152 | conj appends the value, opening a new node of 32 only when the last one is full |
| ChunkedLists.ConjAll | dendrite/java-src/dendrite/java/ChunkedPersistentList.java:137-152 | conj of each value appends them in order and keeps the nodes well-formed |
| ChunkedLists.Persistent | dendrite/java-src/dendrite/java/ChunkedPersistentList.java:154-157 | persistent gives null exactly for an empty list, and otherwise a list of the same elements |
| ChunkedLists.Count | dendrite/java-src/dendrite/java/ChunkedPersistentList.java:60-63 | the count is the number of elements, and positive |
| ChunkedLists.First | dendrite/java-src/dendrite/java/ChunkedPersistentList.java:93-96 | first is element 0 |
| ChunkedLists.ChunkedFirst | dendrite/java-src/dendrite/java/ChunkedPersistentList.java:66-69 | the first chunk is a non-empty prefix of the elements |
| ChunkedLists.ChunkedNext | dendrite/java-src/dendrite/java/ChunkedPersistentList.java:71-77 | the next chunked list holds the elements after the first chunk, and is null only on the last node |
| ChunkedLists.Next | dendrite/java-src/dendrite/java/ChunkedPersistentList.java:98-103 | next drops the first element, and is null only for a one-element list |
| ChunkedLists.WalkIsElements | dendrite/java-src/dendrite/java/ChunkedPersistentList.java:93-103 | walking first/next visits the elements in order |
| ChunkedLists.CollectRoundTrip | dendrite/java-src/dendrite/java/ChunkedPersistentList.java:137-157 | collecting values and walking the result gives them back in order, with count equal to their number; nothing collected gives null |
| ChunkedLists.NodesOfThirtyThree | dendrite/java-src/dendrite/java/ChunkedPersistentList.java:137-152 | 33 values fill one node of 32 and start a second |
| Bundles.Size | dendrite/java-src/dendrite/java/Bundle.java:38-40 | the size is the length of the first column, and fails for a bundle without columns |
| Bundles.Equals | dendrite/java-src/dendrite/java/Bundle.java:47-68 | two bundles are equal exactly when their column values are |
| Bundles.Take | dendrite/java-src/dendrite/java/Bundle.java:101-107 | take keeps the first n values of every column, and fails when some column is shorter |
| Bundles.Drop | dendrite/java-src/dendrite/java/Bundle.java:109-116 | drop keeps every column after its first n values and lowers maxBundleSize by n, wrapped to an int |
| Bundles.TakeDropSplit | dendrite/java-src/dendrite/java/Bundle.java:101-116 | take and drop split every column, and the size limit, into two parts that concatenate back |
| Bundles.TakeDropSize | dendrite/java-src/dendrite/java/Bundle.java:101-116 | take n has size n and drop n has the rest |
| Bundles.RepeatedFlags | dendrite/java-src/dendrite/java/Bundle.java:136-154 | a column is marked repeated exactly when its repetition level is positive |
| Bundles.Stripe | dendrite/java-src/dendrite/java/Bundle.java:136-154 | striping puts value i of every accepted record at row k of column i, skipping records the stripe function rejects |
| Bundles.NewRepeatedIter | dendrite/java-src/dendrite/java/Bundle.java:164-169 | the iterator fails on an empty list of lists |
| Bundles.StepList | dendrite/java-src/dendrite/java/Bundle.java:176-182 | moving past an empty list changes no remaining value and makes progress |
| Bundles.HasNext | dendrite/java-src/dendrite/java/Bundle.java:184-196 | hasNext is true exactly when values remain, and keeps them |
| Bundles.Next | dendrite/java-src/dendrite/java/Bundle.java:203-217 | next returns the first remaining value, remembers it as previous, and fails when none remain |
| Bundles.Previous | dendrite/java-src/dendrite/java/Bundle.java:219-223 | previous returns the last value again and puts it back in front of the remaining ones |
| Bundles.PreviousThenNext | dendrite/java-src/dendrite/java/Bundle.java:203-223 | next after previous returns the value previous returned |
| Bundles.NextNRemaining | dendrite/java-src/dendrite/java/Bundle.java:176-217 | n calls of next return the first n remaining values |
| Bundles.IterYieldsFlatten | dendrite/java-src/dendrite/java/Bundle.java:164-217 | the iterator yields every value of every list, in order |
| DataPages.HeaderRoundTrip | dendrite/java-src/dendrite/java/DataPage.java:92-105 | reading a written data page header gives it back and leaves the bytes after it |
| DataPages.HeaderLength | dendrite/java-src/dendrite/java/DataPage.java:46-51 | the header length is the size written, 5 to 25 bytes |
| DataPages.BodyLength | dendrite/java-src/dendrite/java/DataPage.java:53-56 | without overflow the body length is the sum of the three section lengths |
| DataPages.ByteOffsetData | dendrite/java-src/dendrite/java/DataPage.java:58-60 | the data starts after the repetition and definition levels |
| DataPages.BodySections | dendrite/java-src/dendrite/java/DataPage.java:53-76 | in a body the header describes, each section offset lands on its section, and the body length on what follows |
| DataPages.PageSections | dendrite/java-src/dendrite/java/DataPage.java:223-238 | a written page reads back its header, and the buffer after it starts at the repetition levels |
| DataPages.KindOf | dendrite/java-src/dendrite/java/DataPage.java:127-139 | a column is required when its max definition level is 0, non-repeated when only its max repetition level is 0, and repeated otherwise |
| DataPages.WriteRequired | dendrite/java-src/dendrite/java/DataPage.java:247-253 | the required writer writes no levels and counts every value |
| DataPages.NullLevels | dendrite/java-src/dendrite/java/DataPage.java:261-273 | the non-repeated writer writes definition level 0 exactly for null and 1 otherwise |
| DataPages.WriteNonRepeated | dendrite/java-src/dendrite/java/DataPage.java:261-273 | the non-repeated writer writes one definition level per value and data only for the non-null ones |
| DataPages.WriteRepeated | dendrite/java-src/dendrite/java/DataPage.java:282-293 | the repeated writer writes one repetition and one definition level per leveled value, and data only for the non-null ones |
| DataPages.WrittenStreams | dendrite/java-src/dendrite/java/DataPage.java:282-293 | the written streams are the leveled values' repetition levels, definition levels and non-null values |
| DataPages.ReadRequired | dendrite/java-src/dendrite/java/DataPage.java:378-389 | the required reader returns the data in order |
| DataPages.RequiredRoundTrip | dendrite/java-src/dendrite/java/DataPage.java:378-389 | a required page reads back the values written |
| DataPages.NonRepeatedValues | dendrite/java-src/dendrite/java/DataPage.java:413-429 | one value per definition level, and the null value wherever the level is 0 |
| DataPages.ReadNonRepeated | dendrite/java-src/dendrite/java/DataPage.java:413-429 | the non-repeated reader returns one value per definition level |
| DataPages.NonRepeatedRoundTrip | dendrite/java-src/dendrite/java/DataPage.java:413-429 | a non-repeated page reads back the values written, nulls included |
| DataPages.ReadRepeatedAsWritten | dendrite/java-src/dendrite/java/DataPage.java:459-488 | the reader as written always returns a list, even for an empty page |
| DataPages.ReadRepeated | dendrite/java-src/dendrite/java/DataPage.java:459-488 | the corrected reader returns null for an empty page |
| DataPages.LoopGroups | dendrite/java-src/dendrite/java/DataPage.java:469-483 | on the streams the writer produces, the loop groups the leveled values, starting a record at each repetition level 0 |
| DataPages.GroupedRecords | dendrite/java-src/dendrite/java/DataPage.java:459-488 | grouping the flattened records, with the last open record appended, gives back the records |
| DataPages.RepeatedRoundTrip | dendrite/java-src/dendrite/java/DataPage.java:459-488 | a repeated page reads back the records written, each with its leveled values in order |
| DataPages.RepeatedAsWrittenAgrees | dendrite/java-src/dendrite/java/DataPage.java:459-488 | on a page with values the repeated reader as written returns what the corrected one does, so it has the repeated round trip |
| DataPages.EmptyRepeatedPageAsWritten | dendrite/java-src/dendrite/java/DataPage.java:484-486 | an empty repeated page reads as one empty record, a list holding one null |
| Pages.PageType | dendrite/java-src/dendrite/java/Pages.java:47-50 | the type byte is 0 exactly for a data page and 1 exactly for a dictionary page |
| Pages.WritePage | dendrite/java-src/dendrite/java/Pages.java:47-50 | a written page starts with its type byte |
| Pages.SignedByte | dendrite/java-src/dendrite/java/Pages.java:39 | the type byte is read signed, and only bytes 0 and 1 read as 0 and 1 |
| Pages.ReadHeader | dendrite/java-src/dendrite/java/Pages.java:38-45 | an empty buffer underflows, an unknown type byte fails with IllegalState, and a read header consumes bytes |
| Pages.ReadWrittenHeader | dendrite/java-src/dendrite/java/Pages.java:38-50 | reading a written page gives back its header and leaves the body |
| Pages.ReadHeaders | dendrite/java-src/dendrite/java/Pages.java:52-64 | reading n headers gives n headers |
| Pages.ReadHeadersOfPages | dendrite/java-src/dendrite/java/Pages.java:52-64 | reading consecutive written pages gives back their headers in order |
| Pages.CheckPageType | dendrite/java-src/dendrite/java/Pages.java:77-81 | the check passes exactly when the first byte is the expected type, and consumes it |
| Pages.CutPartitions | dendrite/java-src/dendrite/java/Pages.java:149-153 | the loop cuts partitions whose concatenation, followed by what is left, is the list; the count drops by the partition length per partition and ends below it; when the count is the list's length every partition is full and the count is what is left |
| Pages.ReadAndPartition | dendrite/java-src/dendrite/java/Pages.java:131-156 | the full partitions then the unfinished one are the old unfinished partition then the page's values; the reported length is the values taken in less those in full partitions, and, for an unfinished partition shorter than a full one, it is the number left, every full partition has the partition length and fewer values are left; it fails exactly when the page has no values and the unfinished partition is already full |
| DictionaryPages.HeaderRoundTrip | dendrite/java-src/dendrite/java/DictionaryPage.java:69-78 | reading a written dictionary header gives it back and leaves the bytes after it |
| DictionaryPages.HeaderLength | dendrite/java-src/dendrite/java/DictionaryPage.java:40-44 | the header length is the size written, 3 to 15 bytes |
| DictionaryPages.PageRoundTrip | dendrite/java-src/dendrite/java/DictionaryPage.java:174-184 | a written page reads back its header, and the body length skips exactly its data |
| DictionaryPages.WriterHeader | dendrite/java-src/dendrite/java/DictionaryPage.java:109-113 | the header records the value count and length, and the compressed length equals the length when there is no compressor |
| DictionaryPages.Reset | dendrite/java-src/dendrite/java/DictionaryPage.java:115-122 | reset resets the encoder, clears the finished flag and keeps the compressor |
| DictionaryPages.Finish | dendrite/java-src/dendrite/java/DictionaryPage.java:124-133 | finish finishes the encoder once and marks the writer finished; a finished writer is unchanged |
| DictionaryPages.FinishIdempotent | dendrite/java-src/dendrite/java/DictionaryPage.java:115-133 | finishing twice is finishing once, and after a reset finish runs again |
| DictionaryPages.Read | dendrite/java-src/dendrite/java/DictionaryPage.java:202-211 | reading the page decodes exactly numEncodedValues values, and succeeds exactly when those decodes do |
| ByteArrayDeltaLength.Encode | dendrite/java-src/dendrite/java/ByteArrayDeltaLength.java:57-63 | encode passes the length to the packed-delta encoder and appends the bytes |
| ByteArrayDeltaLength.EncodeAll | dendrite/java-src/dendrite/java/ByteArrayDeltaLength.java:57-69 | after encoding arrays, the lengths encoder holds their lengths and the byte buffer holds their concatenation |
| ByteArrayDeltaLength.Reset | dendrite/java-src/dendrite/java/ByteArrayDeltaLength.java:71-76 | reset empties the bytes and resets the lengths encoder |
| ByteArrayDeltaLength.Finish | dendrite/java-src/dendrite/java/ByteArrayDeltaLength.java:78-81 | finish finishes the lengths encoder and keeps the bytes |
| ByteArrayDeltaLength.LengthIsWritten | dendrite/java-src/dendrite/java/ByteArrayDeltaLength.java:83-103 | after finish the length is the size writeTo writes, and writeTo finishes first |
| ByteArrayDeltaLength.Opened | dendrite/java-src/dendrite/java/ByteArrayDeltaLength.java:23-28 | the decoder reads the count and the lengths block and sits at the concatenated bytes |
| ByteArrayDeltaLength.Decode | dendrite/java-src/dendrite/java/ByteArrayDeltaLength.java:30-36 | a decoded array is the front of the remaining bytes |
| ByteArrayDeltaLength.DecodeValues | dendrite/java-src/dendrite/java/ByteArrayDeltaLength.java:30-36 | when the lengths decode to the arrays' lengths, successive decodes return the arrays |
| ByteArrayDeltaLength.DecodeInto | dendrite/java-src/dendrite/java/ByteArrayDeltaLength.java:38-43 | decodeInto copies the next array into the buffer at the position, growing the buffer and keeping what is before the position |
| ByteArrayDeltaLength.DecodeIntoOne | dendrite/java-src/dendrite/java/ByteArrayDeltaLength.java:38-43 | decodeInto places exactly the next array after the position and advances by its length |
| ByteArrayDeltaLength.RoundTrip | dendrite/java-src/dendrite/java/ByteArrayDeltaLength.java:20-103 | decoding the written stream gives the count and the arrays in order, leaving what follows |
| ByteArrayIncremental.CommonPrefix | dendrite/java-src/dendrite/java/ByteArrayIncremental.java:63-73 | the prefix length is the longest common prefix of the two arrays |
| ByteArrayIncremental.Encode | dendrite/java-src/dendrite/java/ByteArrayIncremental.java:59-77 | encode writes the common prefix length with the previous array and the suffix after it, and remembers the array |
| ByteArrayIncremental.EncodeAll | dendrite/java-src/dendrite/java/ByteArrayIncremental.java:59-77 | after encoding arrays, the prefix encoder holds each array's prefix with the one before and the suffix encoder the suffixes |
| ByteArrayIncremental.Reset | dendrite/java-src/dendrite/java/ByteArrayIncremental.java:79-85 | reset forgets the previous array and resets both inner encoders |
| ByteArrayIncremental.Finish | dendrite/java-src/dendrite/java/ByteArrayIncremental.java:87-91 | finish finishes both inner encoders |
| ByteArrayIncremental.LengthIsWritten | dendrite/java-src/dendrite/java/ByteArrayIncremental.java:93-115 | after finish the length is the size writeTo writes, and writeTo finishes first |
| ByteArrayIncremental.Opened | dendrite/java-src/dendrite/java/ByteArrayIncremental.java:25-33 | the decoder reads the count and the prefix block and is ready to read the prefixes and the suffixes |
| ByteArrayIncremental.Decode | dendrite/java-src/dendrite/java/ByteArrayIncremental.java:35-43 | the decoded array is the front of the decoder's buffer |
| ByteArrayIncremental.DecodeOne | dendrite/java-src/dendrite/java/ByteArrayIncremental.java:35-43 | one decode joins the previous array's prefix with the next suffix, giving the array back |
| ByteArrayIncremental.DecodeValues | dendrite/java-src/dendrite/java/ByteArrayIncremental.java:35-43 | successive decodes give back the arrays whose prefixes and suffixes were read |
| ByteArrayIncremental.RoundTrip | dendrite/java-src/dendrite/java/ByteArrayIncremental.java:25-115 | decoding the written stream gives the count and the arrays in order |
| Dictionaries.GetIndex | dendrite/java-src/dendrite/java/Dictionary.java:146-161 | a known value gets its first index and one more count; a new one gets the next index, and fails past MAX_DISTINCT_VALUES |
| Dictionaries.SameValueSameIndex | dendrite/java-src/dendrite/java/Dictionary.java:146-161 | a value gets the same index again and adds no entry |
| Dictionaries.ByteArraysByContent | dendrite/java-src/dendrite/java/Dictionary.java:192-224 | byte arrays with the same content share one index |
| Dictionaries.Encode | dendrite/java-src/dendrite/java/Dictionary.java:70-74 | encode looks up the index and buffers it in the indices encoder |
| Dictionaries.EncodeAllRepresents | dendrite/java-src/dendrite/java/Dictionary.java:146-161 | after encoding values, the dictionary holds each distinct value once and the indices point at the values encoded |
| Dictionaries.EncodeAllSucceeds | dendrite/java-src/dendrite/java/Dictionary.java:146-156 | encoding succeeds exactly when there are at most Integer.MAX_VALUE distinct values |
| Dictionaries.CountsAreOccurrences | dendrite/java-src/dendrite/java/Dictionary.java:146-161 | the count kept for each dictionary value is its number of occurrences |
| Dictionaries.NumDictionaryValuesDistinct | dendrite/java-src/dendrite/java/Dictionary.java:110-112 | the dictionary holds exactly the distinct values encoded |
| Dictionaries.DictionaryAtIndex | dendrite/java-src/dendrite/java/Dictionary.java:114-120 | the dictionary holds each value at the index it was given |
| Dictionaries.WithFnEncodesResults | dendrite/java-src/dendrite/java/Dictionary.java:178-190 | encoding through a function is encoding the function's results |
| Dictionaries.Reset | dendrite/java-src/dendrite/java/Dictionary.java:86-89 | reset clears the encoded indices |
| Dictionaries.ResetDictionary | dendrite/java-src/dendrite/java/Dictionary.java:106-108 | resetDictionary empties the dictionary and keeps the count of encoded indices |
| Dictionaries.ResetKeepsIndices | dendrite/java-src/dendrite/java/Dictionary.java:86-108 | after reset a known value keeps its index; after resetDictionary any value gets index 0 |
| Dictionaries.Finish | dendrite/java-src/dendrite/java/Dictionary.java:81-84 | finish keeps the dictionary and finishes the indices encoder |
| Dictionaries.InsertDescending | dendrite/java-src/dendrite/java/Dictionary.java:122-140 | inserting an index keeps the list ordered by descending count |
| Dictionaries.SortByCountDescending | dendrite/java-src/dendrite/java/Dictionary.java:122-140 | the sorted indices are in descending order of count |
| Dictionaries.IndicesByFrequency | dendrite/java-src/dendrite/java/Dictionary.java:122-140 | the indices by frequency are a permutation of all indices, most frequent value first |
| Dictionaries.NewDecoder | dendrite/java-src/dendrite/java/Dictionary.java:251-264 | the decoder keeps the dictionary and opens exactly when the indices stream opens |
| Dictionaries.Decode | dendrite/java-src/dendrite/java/Dictionary.java:38-41 | decode returns the dictionary value at the next index, and fails on an index out of range |
| Dictionaries.DecodeLookups | dendrite/java-src/dendrite/java/Dictionary.java:38-41 | n decodes look up the n decoded indices in the dictionary |
| Dictionaries.RoundTrip | dendrite/java-src/dendrite/java/Dictionary.java:28-104 | decoding the written indices with the dictionary gives the count and the values in order |
| Metadata.ReadList | dendrite/java-src/dendrite/java/Metadata.java:84-91 | a list reads as many elements as its count, and a negative count fails with NegativeArraySizeException |
| Metadata.ListRoundTrip | dendrite/java-src/dendrite/java/Metadata.java:77-91 | a written list reads back when each element does |
| Metadata.WriteColumnChunk | dendrite/java-src/dendrite/java/Metadata.java:36-42 | a column chunk takes 4 to 20 bytes |
| Metadata.ColumnChunkRoundTrip | dendrite/java-src/dendrite/java/Metadata.java:36-61 | a written column chunk reads back and leaves the bytes after it |
| Metadata.ColumnChunkEquals | dendrite/java-src/dendrite/java/Metadata.java:44-54 | equals holds exactly for a column chunk with the same fields |
| Metadata.RecordGroupRoundTrip | dendrite/java-src/dendrite/java/Metadata.java:93-115 | a written record group reads back and leaves the bytes after it |
| Metadata.RecordGroupEqualsIff | dendrite/java-src/dendrite/java/Metadata.java:100-109 | equals holds exactly for a record group with the same fields |
| Metadata.RecordGroupListRoundTrip | dendrite/java-src/dendrite/java/Metadata.java:133-147 | a written list of record groups reads back |
| Metadata.FileRoundTrip | dendrite/java-src/dendrite/java/Metadata.java:165-190 | written file metadata reads back, given schema and custom-type readers that invert their writers |
| Metadata.FileEqualsIff | dendrite/java-src/dendrite/java/Metadata.java:173-183 | equals holds exactly for equal metadata, and throws a NullPointerException when only the null metadata buffer is left to compare |
| Types.Slot | dendrite/java-src/dendrite/java/Types.java:50-56 | a type has a slot exactly when it is negative, and a slot in the tables exactly for the seven primitives |
| Types.GetEncodingSymbol | dendrite/java-src/dendrite/java/Types.java:937-939 | an encoding has a symbol exactly when it is a valid index, and fails with an index error otherwise |
| Types.GetEncoding | dendrite/java-src/dendrite/java/Types.java:941-947 | a symbol is an encoding exactly when it is listed, and fails with IllegalArgument otherwise |
| Types.EncodingSymbolRoundTrip | dendrite/java-src/dendrite/java/Types.java:937-947 | an encoding read back from its symbol is itself |
| Types.EncodingRoundTrip | dendrite/java-src/dendrite/java/Types.java:937-947 | the symbol of a parsed encoding is the symbol parsed |
| Types.GetEncodingForType | dendrite/java-src/dendrite/java/Types.java:949-959 | an encoding symbol is accepted exactly when it names an encoding valid for the type |
| Types.GetCompressionSymbol | dendrite/java-src/dendrite/java/Types.java:961-967 | "none" exactly for no compression, "deflate" otherwise |
| Types.GetCompression | dendrite/java-src/dendrite/java/Types.java:969-976 | only "none" and "deflate" are accepted |
| Types.CompressionSymbolRoundTrip | dendrite/java-src/dendrite/java/Types.java:961-976 | a compression read back from its symbol is itself, any other code reading back as deflate |
| Types.CompressionRoundTrip | dendrite/java-src/dendrite/java/Types.java:961-976 | the symbol of a parsed compression is the symbol parsed |
| Types.ListEncodingsForType | dendrite/java-src/dendrite/java/Types.java:978-984 | every valid type allows plain, dictionary and frequency, and a logical type needs a primitive base |
| Types.LogicalTypeEncodings | dendrite/java-src/dendrite/java/Types.java:978-984 | a logical type allows the encodings of its base type |
| Types.EncodingsByType | dendrite/java-src/dendrite/java/Types.java:459-470 | the run-length, delta, VLQ and ZigZag encodings are for ints and longs, and incremental and delta-length for byte arrays |
| Types.GetTypeSymbol | dendrite/java-src/dendrite/java/Types.java:922-927 | a primitive has a symbol exactly when it is one of the seven, and a logical type exactly when it is defined |
| Types.GetType | dendrite/java-src/dendrite/java/Types.java:929-935 | a symbol is a type exactly when it is a primitive or defined logical type |
| Types.PrimitiveTypeRoundTrip | dendrite/java-src/dendrite/java/Types.java:922-935 | a primitive type read back from its symbol is itself |
| Types.LogicalTypeRoundTrip | dendrite/java-src/dendrite/java/Types.java:922-935 | a logical type read back from its symbol is itself |
| Types.FlattenLogicalType | dendrite/java-src/dendrite/java/Types.java:850-890 | flattening changes only the type's own entry, gives it a primitive base and keeps its name and coercion; an entry that is missing or already primitive stays |
| Types.ChainConverts | dendrite/java-src/dendrite/java/Types.java:862-884 | the chain the loop follows ends on the base the chain of bases ends on, and the gathered functions, composed (or passed to the corrected comp), convert as going one level at a time does |
| Types.FlattenLogicalTypeConverts | dendrite/java-src/dendrite/java/Types.java:850-890 | the flattened type has the chain's primitive base, and its conversions, built with comp as written, convert as going one level at a time does whenever at most three functions were gathered |
| Types.LongChainGathers | dendrite/java-src/dendrite/java/Types.java:862-884 | over a custom type with three custom bases the loop gathers the four to-base-type functions deepest first, as `addFirst` leaves them |
| Types.FlattenLongChainAsWritten | dendrite/java-src/dendrite/java/Types.java:885-889 | for that chain the flattened to-base-type function, comp as written over four functions, maps 0 to 1, where converting one level at a time gives 2 |
| Types.FlattenRejectsLoop | dendrite/java-src/dendrite/java/Types.java:870-874 | a chain of bases that comes back to the type fails with "Loop detected for custom-type" |
| Types.FlattenLogicalTypes | dendrite/java-src/dendrite/java/Types.java:892-897 | every defined type gets a primitive base and keeps its symbol and coercion |
| Types.FlattenIdempotent | dendrite/java-src/dendrite/java/Types.java:892-897 | flattening a flattened table changes nothing |
| Types.MaxCustomType | dendrite/java-src/dendrite/java/Types.java:704-713 | the largest id, or Integer.MIN_VALUE for none |
| Types.AssignIdsFresh | dendrite/java-src/dendrite/java/Types.java:715-732 | new names get distinct ids counted up from the start |
| Types.FillCustomTypesConfSymbols | dendrite/java-src/dendrite/java/Types.java:715-732 | known names keep their ids and new ones get ids above every existing custom type; a key that is not a symbol fails |
| Types.CustomTypeIdsUnique | dendrite/java-src/dendrite/java/Types.java:715-732 | no new name shares an id with any other name |
| Types.ApplyFromLastIsPrefix | dendrite/java-src/dendrite/java/Functions.java:46-54 | the corrected loop, run from the last of the first i functions down to the first, is their composition |
| Types.CompApplies | dendrite/java-src/dendrite/java/Functions.java:20-56 | the corrected comp (the overloads as written, and the loop run last to first) is, for every number of functions, their composition with the last applied first |
| Types.CompAsWrittenShort | dendrite/java-src/dendrite/java/Functions.java:36-44 | for up to three functions comp as written applies them last first, as composition does |
| Types.CompAsWrittenReversesLong | dendrite/java-src/dendrite/java/Functions.java:45-55 | for four functions comp as written applies them first to last, giving another result than the composition |
| Options.GetCustomTypeDefinition | dendrite/java-src/dendrite/java/Options.java:87-101 | a definition parses exactly when its keys are valid, its base type is a symbol and its functions are functions, and fails with "Error parsing custom-type" otherwise |
| Options.GetBaseTypeSymbol | dendrite/java-src/dendrite/java/Options.java:103-112 | the base type is accepted exactly when it is a symbol |
| Options.GetCustomTypeDefinitions | dendrite/java-src/dendrite/java/Options.java:125-150 | no custom types give none, and otherwise one definition per map entry |
| Options.DefinitionsOf | dendrite/java-src/dendrite/java/Options.java:129-145 | each entry of the custom-types map is parsed into its definition |
| Options.CheckValidKeys | dendrite/java-src/dendrite/java/Options.java:160-174 | the check passes exactly when every key is valid, and fails with IllegalArgument otherwise |
| Options.CheckedKeysOnly | dendrite/java-src/dendrite/java/Options.java:160-174 | after the check, an invalid key is not among the options |
| Options.GetReaderOptions | dendrite/java-src/dendrite/java/Options.java:178-181 | reader options accept only the custom-types key, and carry its definitions |
| Options.WithSampleFn | dendrite/java-src/dendrite/java/Options.java:205-214 | sample is accepted only before indexed-by and transduce |
| Options.WithIndexedByFn | dendrite/java-src/dendrite/java/Options.java:216-222 | indexed-by is accepted only before transduce |
| Options.WithTransduceFn | dendrite/java-src/dendrite/java/Options.java:224-227 | transduce sets its function and changes nothing else |
| Options.ApplyCallsAllowed | dendrite/java-src/dendrite/java/Options.java:205-227 | a series of builder calls succeeds exactly when each is allowed after the ones before |
| Options.BuilderOrder | dendrite/java-src/dendrite/java/Options.java:205-227 | from fresh read options, builder calls succeed exactly when they come in the order sample, indexed-by, transduce |
| Options.GetSubSchemaPath | dendrite/java-src/dendrite/java/Options.java:238-258 | nil is the empty path, and a vector is accepted exactly when it holds only keywords |
| Options.GetBoolean | dendrite/java-src/dendrite/java/Options.java:260-270 | a missing key gives the default, and a present one must be a boolean |
| Options.GetTagReaders | dendrite/java-src/dendrite/java/Options.java:282-296 | no readers give null, and otherwise the readers must be a map |
| Options.GetFn | dendrite/java-src/dendrite/java/Options.java:298-307 | a missing key gives null, and a present one must be a function |
| Options.GetReadOptions | dendrite/java-src/dendrite/java/Options.java:309-318 | read options accept only the read keys and carry the query, the sub-schema path and the missing-fields flag |
| Options.ReadDefaults | dendrite/java-src/dendrite/java/Options.java:309-318 | no options give the default read options |
| Options.ReadAndWriteKeysDisjoint | dendrite/java-src/dendrite/java/Options.java:347-349 | options with both a read key and a writer key are refused by both parsers |
| Options.IntCast | dendrite/java-src/dendrite/java/Options.java:356-361 | an integer is accepted exactly when it fits an int, a decimal is truncated, anything else fails |
| Options.GetPositiveInt | dendrite/java-src/dendrite/java/Options.java:351-367 | a missing key gives the default, and a present one must be an int of at least 0 |
| Options.PositiveIntRoundTrip | dendrite/java-src/dendrite/java/Options.java:351-367 | an int from 0 up reads back, and a negative one fails |
| Options.GetWriterLengths | dendrite/java-src/dendrite/java/Options.java:369-375 | the record-group and data-page lengths are read with their defaults |
| Options.GetOptimizationStrategy | dendrite/java-src/dendrite/java/Options.java:377-393 | a missing key gives the default strategy, and only :none, :default and :all are accepted |
| Options.StrategyRoundTrip | dendrite/java-src/dendrite/java/Options.java:377-393 | each strategy reads back from its keyword |
| Options.GetCompressionThresholds | dendrite/java-src/dendrite/java/Options.java:395-426 | no thresholds give the defaults, and accepted thresholds are not negative |
| Options.GetWriterFns | dendrite/java-src/dendrite/java/Options.java:458-461 | the handler, custom types, map function and ignore-extra-fields flag are each read and checked |
| Options.GetWriterOptions | dendrite/java-src/dendrite/java/Options.java:452-462 | writer options are accepted exactly when their keys are valid and every field parses, and then carry those fields |
| Options.WriterOptionsInRange | dendrite/java-src/dendrite/java/Options.java:452-462 | accepted writer options have lengths of at least 0, a known strategy and thresholds of at least 0 |
| Options.WriterDefaults | dendrite/java-src/dendrite/java/Options.java:452-462 | no options give the default writer options |
| PersistentRecords.PackUnpack | dendrite/java-src/dendrite/java/PersistentRecord.java:216 | the packed long is negative and gives back the hash and the index |
| PersistentRecords.BitsInjective | dendrite/java-src/dendrite/java/PersistentRecord.java:211 | the unsigned hash bits of two hashes agree exactly when the hashes do |
| PersistentRecords.HashArraySize | dendrite/java-src/dendrite/java/PersistentRecord.java:238-244 | the table size is twice the least power of two that holds the keys |
| PersistentRecords.ReachEvery | dendrite/java-src/dendrite/java/PersistentRecord.java:214 | linear probing from any slot reaches every slot |
| PersistentRecords.Insert | dendrite/java-src/dendrite/java/PersistentRecord.java:207-218 | an insert fills one empty slot and keeps the others, and fails only on a hash already present |
| PersistentRecords.InsertFailsOnDuplicate | dendrite/java-src/dendrite/java/PersistentRecord.java:207-218 | inserting a hash already inserted fails with IllegalArgument |
| PersistentRecords.InsertNew | dendrite/java-src/dendrite/java/PersistentRecord.java:207-218 | inserting a new hash succeeds, and every inserted key is then found by probing |
| PersistentRecords.BuildFrom | dendrite/java-src/dendrite/java/PersistentRecord.java:197-205 | building from index i succeeds exactly when the remaining hashes are new |
| PersistentRecords.Build | dendrite/java-src/dendrite/java/PersistentRecord.java:197-205 | building succeeds exactly when all hashes differ, with every key inserted |
| PersistentRecords.Get | dendrite/java-src/dendrite/java/PersistentRecord.java:220-236 | get returns −1 or an index stored in the table |
| PersistentRecords.GetBuilt | dendrite/java-src/dendrite/java/PersistentRecord.java:220-236 | get returns each key's index, and −1 for a hash no key has |
| PersistentRecords.LookupFinds | dendrite/java-src/dendrite/java/PersistentRecord.java:220-236 | a lookup finds an index exactly when some key has the hash, and that key has it |
| PersistentRecords.RecordLookup | dendrite/java-src/dendrite/java/PersistentRecord.java:82-138 | for a key of the record, containsKey, valAt and entryAt report its value, or its absence |
| PersistentRecords.RecordLookupAbsent | dendrite/java-src/dendrite/java/PersistentRecord.java:82-138 | for a key not in the record, containsKey is false, valAt gives notFound and entryAt null |
| PersistentRecords.LookupsAgree | dendrite/java-src/dendrite/java/PersistentRecord.java:82-138 | containsKey, valAt and entryAt agree |
| PersistentRecords.CountIsEntries | dendrite/java-src/dendrite/java/PersistentRecord.java:40-52 | the count is the number of defined entries |
| PersistentRecords.EntriesAreLookups | dendrite/java-src/dendrite/java/PersistentRecord.java:82-138 | every entry is found by looking up its keyword |
| PersistentRecords.IterateValues | dendrite/java-src/dendrite/java/PersistentRecord.java:146-172 | the loop yields the defined values with their keywords, in slot order |
| PersistentRecords.Iterate | dendrite/java-src/dendrite/java/PersistentRecord.java:146-172 | the iterator yields exactly the record's entries |
| PersistentRecords.RecordSeq | dendrite/java-src/dendrite/java/PersistentRecord.java:116-122 | seq is null exactly for a record without entries |
| PersistentRecords.Next | dendrite/java-src/dendrite/java/PersistentRecord.java:286-291 | next moves to a later defined entry and counts one more |
| PersistentRecords.SeqIsEntries | dendrite/java-src/dendrite/java/PersistentRecord.java:247-296 | walking the seq yields the record's entries, and its count is the record's count |

## Left out

- File readers and writers, thread pools, blocking queues, futures and compressors (Deflate, LZ4): I/O, concurrency and foreign libraries. Page compression is a parameter (`DictionaryPages.Writer` carries an abstract compressor) and page bodies are byte sequences.
- Float and double readers and writers: floating point.
- Counts are naturals: a Java `int` count past 2^31 − 1 wraps, and the round-trip lemmas assume fewer values.
- `super.estimatedLength()` in BooleanPacked and IntFixedBitWidthPackedRunLength: AEncoder defines `getEstimatedLength`, which returns `getLength`; both calls are modelled as `getLength`.
- Bytes.WriteUIntVLQ: modelled from the groups the shifting loop emits rather than from `BigInteger.toByteArray`; the Java reader also calls `mos.byteBuffer()` and `mos.length()`, which MemoryOutputStream does not define.
- MemoryOutputStreams.New: requires a positive length, because a zero-length buffer would make `grow` loop forever; every constructor call passes a positive capacity.
- MemoryOutputStreams.Grow: doubling is unbounded here; in Java `buffer.length << 1` turns negative once the buffer reaches 2^30 bytes and the allocation throws NegativeArraySizeException. That error path is not modelled, because every encoder would then carry it for buffers no page reaches.
- IntPackedRunLength.NewDecoder: a width byte above 32 is refused with an IllegalArgument, where the Java decoder would go on reading with it; the encoder never writes one.
- IntPackedRunLength.Encode: a value encoded after `finish` is buffered but never reaches the hybrid encoder, as in the Java; the round trip is stated only for encoders that were not finished early.
- IntPackedRunLength.EstimateCoversValues: states only that the estimate covers the count, a header and the packed values, not how it compares to the final length after RLE runs.
- PackedDelta.NextMiniblock: a miniblock width above the word size is refused with an IllegalArgument, where the Java reader would unpack with it; the encoder never writes one.
- PackedDelta.Encoder: the encoder keeps the groups it has flushed and the reference frame it started from, rather than the bytes; `Written` and `WriteTo` give the bytes `flushBlock` writes to `mos`, each block packed from the frame the block before it left. `Body` and `CorrectedWriteTo` are the corrected writer.
- PackedDelta.EstimatedLength: `(int)(1 + (double)position / (double)numEncodedValues)` is read as the integer quotient, which it equals for a buffer of at most 129 values and a positive count; no property beyond its definition is stated.
- PackedDeltaProperties.RoundTrip: stated for fewer than 2^31 values, as the other round trips are.
- The reuse of the `bestEncoding` and `currentEncoding` buffers across candidates in `getBestMiniblockEncodingForBlock`: the model compares the candidates' byte lengths directly, which is what the buffer swap computes.
- ByteArrayDeltaLength.RoundTrip: stated for a new encoder only; `estimatedLength` is not modelled, since it only sums the inner estimates.
- ByteArrayIncremental.RoundTrip: stated for a new encoder only; `getEstimatedLength` is not modelled, for the same reason.
- Dictionaries.IndicesByFrequency: states that the result is a permutation of the indices in descending order of count, not how ties are ordered; in Java the stable sort leaves tied indices in `HashMap` iteration order, which is not modelled.
- DataPages: the provisional header and compression-ratio estimates used while a page is being filled, and the decoder and encoder factories, are left out; the level and data encoders are abstracted to the value sequences they carry.
- Pages.ReadAndPartition: `take` and `drop` with a count of 0 or less are taken to give nothing and the whole list; that case arises only when the unfinished partition is already full, which no caller passes, and `ChunkedPersistentList`'s `take` and `drop` are not part of this model.
- Pages: the lazy sequences, `getPagesStats` and the asynchronous page readers are left out.
- Stats: the `long` sums are unbounded integers; a file whose totals pass 2^63 would wrap in Java.
- Types.FlattenLogicalTypeConverts: the flattened conversions are stated to match going one level at a time only when at most three functions were gathered, because with four or more `comp` as written applies them in the other order (`Types.FlattenLongChainAsWritten`, see Findings).
- Types: parsing and filling of the type configuration from Clojure data, the encoder and decoder factories, and the Clojure coercion functions are left out; functions are Dafny functions.
- Options: the `readers` map values are kept opaque, the query default marker is not modelled, and map entries are read in list order.
- PersistentRecords: `assoc`, `without` and `meta`, the `int` overflow of `hashArraySize` for more than 2^29 keys, and keyword comparison by anything but its hash are left out.
- Bundles: `assemble`, `reduce` and `iterator()` call into the assembly functions and are left out.
- ChunkedLists: `pop`, `peek`, `withMeta` and `int` overflow of the count are left out.
- Mangle: Clojure's `IFn` is a Dafny function on an abstract object type.

## Findings

| source | as written | input that shows it | evidently intended | confidence | as-written member | corrected member |
|---|---|---|---|---|---|---|
| dendrite/java-src/dendrite/java/IntFixedBitWidthPackedRunLength.java:164-173 | `a + b + c + position > 0 ? 8 * width : 0` parses as `(a + b + c + position > 0) ? 8 * width : 0`, so without an open run the estimate is 8·width or 0 | width 1, 16 values already written, no open run: estimate 8 but length 17 | the length, plus the header and buffered octuplets, plus 8·width bytes when values are pending | high, not executed | RleProperties.EstimateAsWrittenTooSmall | RleProperties.EstimateCovers |
| dendrite/java-src/dendrite/java/FixedLengthByteArrayPlain.java:25-56 | the decoder constructor reads the length even when there are no values, but an encoder writes the length only with its first value | an encoder with no values writes [0]; the decoder then underflows | read the length only when the count is positive | medium, not executed | FixedLengthByteArrayPlain.EmptyUnreadable | FixedLengthByteArrayPlain.NewDecoder |
| dendrite/java-src/dendrite/java/IntPackedDelta.java:103-231 | `Arrays.fill(referenceFrame, 0, position-1, 0)` clears only the slots the loop then overwrites, and `reset` keeps the array, so a miniblock's width also covers slots an earlier block left behind | encode 0, 0, 1 and finish (slot 1 becomes 1), reset, then encode a, a: the one entry 0 is packed at width 1 instead of 0 and the stream is longer; it still decodes | clear the slots past the block's entries, so each width is the least that fits the entries the miniblock packs | medium, not executed | PackedDeltaProperties.StaleFrameLongerStream | PackedDeltaProperties.ReferenceWidthTight |
| dendrite/java-src/dendrite/java/DataPage.java:484-486 | `rv` is never null, so after the loop it is always added, and a page with no values reads as a list holding one null record | a repeated column page with no values: the reader returns a list of one null record instead of null | add the open record only when some value was read | medium, not executed | DataPages.EmptyRepeatedPageAsWritten | DataPages.ReadRepeated |
| dendrite/java-src/dendrite/java/Functions.java:45-55 | `comp(fs...)` for four or more functions applies `fs[0]` first, while the two- and three-argument versions, like Clojure's `comp`, apply the last first | comp(x+1, 2x, id, id) applied to 0 gives 2, where the composition gives 1; flattening a custom type over three custom bases passes four functions, so its conversion of 0 gives 1 instead of 2 | apply the functions last first for every length | medium, not executed | Types.CompAsWrittenReversesLong | Types.CompApplies |
