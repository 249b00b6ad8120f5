# quark zero-copy streams and TLV codec, in Dafny

This project models two parts of the quark serialization library:

- The zero-copy stream layer of `include/quark/io/zero_copy_stream.h`:
  - the input streams `BufferInputStream` and `MultiBufferInputStream`, together with the
    interface's default `Skip`;
  - the output streams `BufferOutputStream` and `VectorOutputStream`, together with the
    interface's default `WriteRaw`;
  - the varint helpers `WriteVarint32/64` and `ReadVarint32/64`, which work on top of
    those streams.
- The tag-length-value codec of `include/tlv.hpp`: `encode_varint`, `decode_varint`, and
  the serializers and deserializers for int32, float32 and string fields.

The model has these modules:

- `Bytes` (bytes.dfy): byte and word types, plus the little-endian layout that a
  `memcpy` of a 32-bit value produces.
- `Varint` (varint.dfy): the base-128 varint format as a pure specification.
  - `VarintBytes` gives the canonical encoding.
  - `ParseVarint` is the reader with a byte limit. Its result is `Decoded(value, length)`,
    `Truncated` or `TooLong`.
  - The round-trip lemmas cover 32- and 64-bit values.
- `Tlv` (tlv.dfy): the TLV codec.
  - Serializers are methods that write into an `array` (the caller's `uint8_t*` buffer).
  - Deserializers return a `Result` whose error is a type mismatch or an over-long varint.
- `ZeroCopyInput` (zero_copy_input.dfy): the two input streams, as classes whose methods
  update their fields in place.
  - A block that `Next` hands out is an `InBlock` (the memory, an offset and a size), in
    place of the C++ pointer/size pair.
  - The abstract base class is the closed sum `InputStream`. Its `Next`, `BackUp` and
    `Skip` dispatch to whichever stream it wraps.
  - Every stream is specified against `Data()`, the whole byte sequence it delivers.
- `ZeroCopyOutput` (zero_copy_output.dfy): the two output streams and the closed sum
  `OutputStream`.
  - `WriteRaw` copies bytes into the blocks that `Next` hands out, and gives back what is
    unused.
  - Its contract is stated against `Contents()`, the bytes committed so far.
- `StreamVarint` (stream_varint.dfy): the varint writers and readers over these streams.
  Each is proved against `Varint.VarintBytes` and `Varint.ParseVarint`.
- `Scenarios` (scenarios.dfy): the repository's tests, written as methods whose
  postconditions are what each test expects. It also has whole-sequence varint round
  trips through the streams.
- `AsWritten` (findings.dfy): the code as written, wherever it differs from what it
  evidently intends (see "## Findings"). The rest of the model uses the corrected
  definitions.

The two varint formats agree. The stream writers produce `VarintBytes`. The TLV
`encode_varint` produces the same bytes for a 32-bit value. Both readers accept the same
group layout: seven bits per byte, least significant group first, and a set top bit means
"more follows".

## Model

| member | source | states |
|---|---|---|
| Bytes.LittleEndian32RoundTrip | include/tlv.hpp:57-61 | copying a 32-bit value out as four little-endian bytes and reading them back gives the value |
| Bytes.FromLittleEndian32RoundTrip | include/tlv.hpp:102-110 | reading four bytes as a little-endian word and writing it back reproduces the bytes |
| Varint.ParseFromShape | include/quark/io/zero_copy_stream.h:563-580 | the byte-by-byte reader stops at the first byte below 0x80 (Decoded, value = groups so far), at the limit (TooLong) or at the end of input (Truncated) |
| Varint.ParseVarint | include/quark/io/zero_copy_stream.h:555-581 | Decoded means every earlier byte has the continuation bit, the last does not, and the value is the 7-bit groups little-endian; Truncated and TooLong mean no terminator within the input or within the limit |
| Varint.ParseVarintPrefix | include/quark/io/zero_copy_stream.h:555-581 | a decoded varint does not depend on the bytes after it |
| Varint.GroupsValueSnoc | include/quark/io/zero_copy_stream.h:571-572 | appending a byte adds its low 7 bits shifted by 7 per earlier byte |
| Varint.GroupsValueStep | include/quark/io/zero_copy_stream.h:571-572 | the value of the first i+1 bytes is that of the first i plus byte i's group |
| Varint.VarintBytesShape | include/quark/io/zero_copy_stream.h:497-506 | the encoding is non-empty, only its last byte is below 0x80, and its groups add up to the value |
| Varint.VarintBytesLength | include/quark/io/zero_copy_stream.h:476-477 | the encoding fits in k bytes exactly when the value is below 128^k |
| Varint.VarintRoundTrip | include/quark/io/zero_copy_stream.h:497-581 | parsing an encoding followed by anything decodes the value with the encoding's length whenever the value fits the limit |
| Varint.Pow128Values | include/quark/io/zero_copy_stream.h:476-477 | 128^5 exceeds 2^32, 128^9 is 2^63 and 128^10 exceeds 2^64, so 5 and 10 bytes are enough for 32 and 64 bits |
| Varint.Varint32RoundTrip | include/quark/io/zero_copy_stream.h:497-581 | every uint32 encodes in 1..5 bytes and decodes back under the 5-byte limit |
| Varint.Varint64RoundTrip | include/quark/io/zero_copy_stream.h:527-626 | every uint64 encodes in 1..10 bytes and decodes back under the 10-byte limit |
| Tlv.SizeRoundTrip | include/tlv.hpp:64-72 | the size_t that deserialize_int32 returns holds the int32 sign-extended and converts back to it; negatives land at or above 2^63 |
| Tlv.EncodeVarint | include/tlv.hpp:26-36 | writes exactly the canonical encoding (1..5 bytes) at the given offset, returns its length and leaves the rest of the buffer untouched |
| Tlv.DecodeVarint | include/tlv.hpp:40-52 | returns the value and length of the varint at the buffer's head, or an error when no terminator appears within 5 bytes |
| Tlv.SerializeInt32 | include/tlv.hpp:57-61 | writes the INT32 tag and the four little-endian bytes, returns 5, changes nothing after them |
| Tlv.DeserializeInt32 | include/tlv.hpp:64-72 | errors with TypeMismatch(INT32) exactly when the tag differs. Otherwise the value is a sign-extended int32, and that int32 re-encodes to the first 5 bytes |
| Tlv.Int32RoundTrip | include/tlv.hpp:57-72 | deserializing what serialize_int32 wrote gives back the int32, for every value and any trailing bytes |
| Tlv.SerializeFloat32 | include/tlv.hpp:96-100 | writes the FLOAT32 tag and the four bytes of the float's bit pattern, returns 5 |
| Tlv.DeserializeFloat32 | include/tlv.hpp:102-110 | errors with TypeMismatch(FLOAT32) exactly when the tag differs; otherwise the bits re-encode to the first 5 bytes |
| Tlv.Float32RoundTrip | include/tlv.hpp:96-110 | deserializing what serialize_float32 wrote gives back the same bit pattern |
| Tlv.SerializeString | include/tlv.hpp:76-81 | writes the STRING tag, the varint length and the bytes, returns the total length, changes nothing after it |
| Tlv.DeserializeString | include/tlv.hpp:84-93 | TypeMismatch(STRING) exactly when the tag differs; with the right tag it succeeds exactly when the length varint decodes, and gives VarintTooLong otherwise. On success it gives the bytes consumed, and the string, which is the bytes right after the length varint and as long as that varint's value mod 2^32. This holds also for a varint that is not in its shortest form |
| Tlv.StringRoundTrip | include/tlv.hpp:76-93 | deserializing what serialize_string wrote gives back the string and its encoded length |
| Tlv.LongFormLength | include/tlv.hpp:84-93 | a length written in more bytes than needed (0x82 0x00 for 2) is accepted: "ab" comes back with all 5 bytes consumed |
| ZeroCopyInput.FlattenSnoc | include/quark/io/zero_copy_stream.h:216-227 | the stream's data is the chunks concatenated in order |
| ZeroCopyInput.FlattenPrefix | include/quark/io/zero_copy_stream.h:216-227 | the chunks read so far form a prefix of the stream's data |
| ZeroCopyInput.ChunkIsNextStretch | include/quark/io/zero_copy_stream.h:245-251 | chunk i is the stretch of the data right after the first i chunks |
| ZeroCopyInput.TailIsStretch | include/quark/io/zero_copy_stream.h:236-242 | the last b bytes of chunk i-1 are the stretch just before the end of the first i chunks |
| ZeroCopyInput.BufferInputStream.constructor | include/quark/io/zero_copy_stream.h:159-160 | a new stream is at position 0 with nothing handed out |
| ZeroCopyInput.BufferInputStream.Next | include/quark/io/zero_copy_stream.h:168-176 | fails, changing nothing, at the end; otherwise hands out all remaining bytes and moves to the end |
| ZeroCopyInput.BufferInputStream.BackUp | include/quark/io/zero_copy_stream.h:183-187 | for 0 <= count <= last block, moves the position and the last block's size back by count |
| ZeroCopyInput.MultiBufferInputStream.constructor | include/quark/io/zero_copy_stream.h:226-227 | a new stream starts at chunk 0 with nothing handed out or backed up |
| ZeroCopyInput.MultiBufferInputStream.Next | include/quark/io/zero_copy_stream.h:234-252 | re-serves the backed-up tail of the last block if any, else the next chunk; fails only when every chunk is consumed; ByteCount grows by the block size |
| ZeroCopyInput.MultiBufferInputStream.BackUp | include/quark/io/zero_copy_stream.h:256-265 | gives back count more bytes of the last block: ByteCount and the last size drop by count, the pending backup grows by count, the chunk index stays |
| ZeroCopyInput.BufferInputStream.ByteCountBounds | include/quark/io/zero_copy_stream.h:194 | the bytes handed out and not backed up: never past the end of the data, and at least the last block's size |
| ZeroCopyInput.MultiBufferInputStream.ByteCountBounds | include/quark/io/zero_copy_stream.h:269 | the bytes of the chunks served so far, minus the backed-up tail still pending; never past the end of the data |
| ZeroCopyInput.InputStream.CountInRange | include/quark/io/zero_copy_stream.h:76-81 | ByteCount stays between 0 and the length of the data |
| ZeroCopyInput.InputStream.Next | include/quark/io/zero_copy_stream.h:48 | a block handed out is the data right after ByteCount, which grows by its size; failure means everything was read |
| ZeroCopyInput.InputStream.BackUp | include/quark/io/zero_copy_stream.h:54 | ByteCount and the backable size both drop by count |
| ZeroCopyInput.InputStream.Skip | include/quark/io/zero_copy_stream.h:61-74 | succeeds exactly when count bytes remain, advancing ByteCount by count; on failure ByteCount is at the end; a count <= 0 changes nothing |
| ZeroCopyOutput.BufferOutputStream.constructor | include/quark/io/zero_copy_stream.h:313-314 | a new stream writes from position 0 of the caller's array |
| ZeroCopyOutput.BufferOutputStream.Next | include/quark/io/zero_copy_stream.h:327-336 | fails, changing nothing, when full; otherwise hands out the whole rest of the array and moves to its end |
| ZeroCopyOutput.BufferOutputStream.BackUp | include/quark/io/zero_copy_stream.h:347-352 | the position and the last block's size drop by count |
| ZeroCopyOutput.VectorOutputStream.constructor | include/quark/io/zero_copy_stream.h:389-394 | the block size is the requested one raised to at least 64; the buffer is empty |
| ZeroCopyOutput.VectorOutputStream.Next | include/quark/io/zero_copy_stream.h:403-415 | always succeeds: grows the buffer by one zero-filled block of the block size, keeps the earlier bytes, and hands out the new block |
| ZeroCopyOutput.VectorOutputStream.BackUp | include/quark/io/zero_copy_stream.h:423-429 | shrinks the buffer, the byte count and the last block's size by count, keeping the bytes before |
| ZeroCopyOutput.BufferOutputStream.ByteCountBounds | include/quark/io/zero_copy_stream.h:361-363 | the bytes claimed so far: within the declared size, and at least the last block's size |
| ZeroCopyOutput.VectorOutputStream.ByteCountBounds | include/quark/io/zero_copy_stream.h:446-448 | `size_` is always the vector's own size, and at least the last block's size |
| ZeroCopyOutput.VectorOutputStream.Buffer | include/quark/io/zero_copy_stream.h:455 | the vector's contents are exactly ByteCount() bytes long |
| ZeroCopyOutput.CopyInto | include/quark/io/zero_copy_stream.h:124 | the memcpy: src lands at start and the rest of the array is unchanged |
| ZeroCopyOutput.OutputStream.InRepr | include/quark/io/zero_copy_stream.h:139 | ByteCount stays within the backing array, and the committed bytes are its prefix |
| ZeroCopyOutput.OutputStream.Next | include/quark/io/zero_copy_stream.h:97 | a block handed out starts at the old ByteCount in the backing array; only a full fixed buffer fails |
| ZeroCopyOutput.OutputStream.BackUp | include/quark/io/zero_copy_stream.h:103 | ByteCount and the backable size both drop by count |
| ZeroCopyOutput.OutputStream.Commit | include/quark/io/zero_copy_stream.h:123-130 | copies min(block, remaining) bytes of src into the block and backs up the unused rest |
| ZeroCopyOutput.OutputStream.FillNext | include/quark/io/zero_copy_stream.h:120-130 | one loop round: gets a block and commits the next bytes of src to it, or fails only when a fixed buffer is full |
| ZeroCopyOutput.OutputStream.WriteRound | include/quark/io/zero_copy_stream.h:119-131 | one pass of the loop: on success at least one more byte of src is appended and nothing past it changes; on failure the fixed buffer is full and nothing changed; a write that fits one vector block finishes in one pass |
| ZeroCopyOutput.OutputStream.WriteRaw | include/quark/io/zero_copy_stream.h:117-132 | appends a prefix of src to the contents; succeeds exactly when it appends all of src, which a vector always does and a fixed buffer does when src fits; a failed write leaves the fixed buffer full |
| StreamVarint.EncodeScratch | include/quark/io/zero_copy_stream.h:498-504 | the scratch bytes are the canonical encoding |
| StreamVarint.WriteVarint | include/quark/io/zero_copy_stream.h:497-506 | appends a prefix of the encoding, all of it exactly when ok; a failed write leaves the fixed buffer full |
| StreamVarint.WriteVarint32 | include/quark/io/zero_copy_stream.h:497-506 | on success the stream contents grow by exactly the value's 1..5-byte encoding; a vector always succeeds, a fixed buffer when the encoding fits, and a failure leaves it full |
| StreamVarint.WriteVarint64 | include/quark/io/zero_copy_stream.h:527-536 | as WriteVarint32, with 1..10 bytes (corrected loop test, see Findings) |
| StreamVarint.ReadVarint | include/quark/io/zero_copy_stream.h:555-581 | the value and the bytes consumed are those ParseVarint gives for the rest of the stream; on success, unread bytes of the last block are backed up; after maxBytes continuation bytes the rest of the current block stays consumed |
| StreamVarint.NextByte | include/quark/io/zero_copy_stream.h:564-570 | yields the next byte of the data, refilling past empty blocks, or reports the end of the data |
| StreamVarint.Refill | include/quark/io/zero_copy_stream.h:564-567 | fetches a new block, which starts exactly where the read has reached |
| StreamVarint.GiveBack | include/quark/io/zero_copy_stream.h:574-576 | after BackUp of the unread rest, ByteCount is exactly after the bytes consumed |
| StreamVarint.WindowStep | include/quark/io/zero_copy_stream.h:570 | the byte under the cursor is the next byte of the data |
| StreamVarint.ScanStep | include/quark/io/zero_copy_stream.h:570-577 | one byte of the loop: a terminator ends the read with the parsed value, a continuation byte extends the accumulated groups |
| StreamVarint.ScanEnd | include/quark/io/zero_copy_stream.h:563-580 | leaving the loop at the limit or the end of data is a failed read |
| StreamVarint.ReadVarint32 | include/quark/io/zero_copy_stream.h:555-581 | succeeds exactly when a terminator comes within 5 bytes, with the value mod 2^32, consuming exactly the varint |
| StreamVarint.ReadVarint64 | include/quark/io/zero_copy_stream.h:600-626 | succeeds exactly when a terminator comes within 10 bytes, with the value mod 2^64 (corrected limit, see Findings) |
| Scenarios.EncodingsAppend | tests/test_zero_copy.cpp:20-32 | encodings of two value lists concatenate |
| Scenarios.EncodingsAt | tests/test_zero_copy.cpp:20-32 | the encoding of value i starts right after those of the values before it |
| Scenarios.ReadDecoded | include/quark/io/zero_copy_stream.h:555-581 | a read over bytes that parse as a varint succeeds with that value and consumes its length |
| Scenarios.WriteVarints32 | tests/test_zero_copy.cpp:20-32 | writing a list of uint32 to a vector stream succeeds and yields their encodings back to back |
| Scenarios.ReadVarints32 | tests/test_zero_copy.cpp:20-32 | reading those bytes back gives every value in order |
| Scenarios.Varint32Sequence | tests/test_zero_copy.cpp:20-32 | write-then-read of any uint32 list gives the list back |
| Scenarios.WriteVarints64 | tests/test_zero_copy.cpp:35-47 | as WriteVarints32, for uint64 |
| Scenarios.ReadVarints64 | tests/test_zero_copy.cpp:35-47 | as ReadVarints32, for uint64 |
| Scenarios.Varint64Sequence | tests/test_zero_copy.cpp:35-47 | write-then-read of any uint64 list gives the list back |
| Scenarios.ReadAll | tests/test_zero_copy.cpp:84-98 | draining a stream with Next yields exactly its remaining data |
| Scenarios.MultiBufferChunks | tests/test_zero_copy.cpp:84-98 | three chunks read back as "abcdefghij" |
| Scenarios.BackUpAndSkip | tests/test_zero_copy.cpp:103-121 | the counts 10, 7, 9, the last byte 9 and a failing final skip |
| Scenarios.SkipTooManyBytes | tests/test_zero_copy.cpp:205-212 | Skip(10) with 2 bytes left fails and leaves ByteCount at 5 |
| Scenarios.VectorGrowth | tests/test_zero_copy.cpp:126-134 | writing 10 bytes gives ByteCount 10 and a buffer of exactly those bytes |
| Scenarios.WriteAndBackUp | tests/test_zero_copy.cpp:186-196 | after 5 bytes and BackUp(2), ByteCount is 3 and the buffer is [1,2,3] |
| Scenarios.BackUpLimit | tests/test_zero_copy.cpp:198-203 | after writing 5 bytes at any block size only 5 can be backed up, so BackUp(10) is out of range |
| Scenarios.MultiBufferFullBackUp | include/quark/io/zero_copy_stream.h:256-265 | backing up a whole second chunk re-serves that chunk, not the first |
| Scenarios.MultiBufferRepeatedBackUp | include/quark/io/zero_copy_stream.h:256-265 | two BackUp(1) calls in a row re-serve both bytes |
| AsWritten.WrittenVarint64Bytes | include/quark/io/zero_copy_stream.h:527-536 | the bytes as written: every byte but the last carries the continuation bit, and the last is at most 0x80, so it may carry it too |
| AsWritten.WrittenVarint64Differs | include/quark/io/zero_copy_stream.h:527-536 | the loop as written differs from the canonical encoding exactly when some shifted value equals 0x80, and then emits no terminator |
| AsWritten.WrittenVarint64Of128 | include/quark/io/zero_copy_stream.h:530 | 128 is written as [0x80], which reads as Truncated or merges with the next varint |
| AsWritten.ReadVarint64AsWritten | include/quark/io/zero_copy_stream.h:600-626 | the reader as written is ParseVarint with a 9-byte limit |
| AsWritten.NineByteReaderRejectsTopBit | include/quark/io/zero_copy_stream.h:608 | with 9 bytes, an encoded uint64 decodes exactly when it is below 2^63; the others are TooLong |
| AsWritten.WrittenMultiNext | include/quark/io/zero_copy_stream.h:234-252 | Next as written: it re-serves the last backed_up_ bytes of chunk idx_-1, or else serves chunk idx_ and advances, and it is exhausted only with nothing backed up and no chunk left; total_ grows by the block |
| AsWritten.WrittenMultiBackUp | include/quark/io/zero_copy_stream.h:256-265 | BackUp as written: total_ and last_size_ drop by count, but backed_up_ becomes count whatever was pending, and idx_ steps back exactly when the whole last block is returned |
| AsWritten.WrittenFullBackUpRewinds | include/quark/io/zero_copy_stream.h:256-265 | after a full backup of chunk i the code as written serves chunk i-1 again |
| AsWritten.WrittenFullBackUpExample | include/quark/io/zero_copy_stream.h:256-265 | chunks "ab","cd": after backing up "cd", Next serves "ab" |
| AsWritten.WrittenRepeatedBackUp | include/quark/io/zero_copy_stream.h:258 | chunk "abcd": after BackUp(1) twice, Next serves only "d" while byte 2 is "c" |
| AsWritten.WrittenVectorNext | include/quark/io/zero_copy_stream.h:403-415 | Next as written: the vector grows by a block, but the block starts at size_, and size_ does not move |
| AsWritten.WrittenVectorBackUp | include/quark/io/zero_copy_stream.h:423-429 | BackUp as written: size_ and last_provided_ drop by count, and the vector is resized to the new size_ |
| AsWritten.WrittenVectorNextStays | include/quark/io/zero_copy_stream.h:403-415 | Next as written leaves size_ unchanged, keeps handing out the same offset, and a later BackUp drives size_ below its old value |
| AsWritten.WrittenVectorWriteTen | include/quark/io/zero_copy_stream.h:403-429 | one Next then BackUp(54), which is what WriteRaw of 10 bytes does, leaves size_ at -54 and resizes the vector to that negative size |

## Left out

- I/O, timing and benchmarks: the memory-mapped file stream and the benchmark code are not
  part of this model.
- `Flush`: both streams return true and do nothing, so it is left out.
- The mutable `buffer()` accessor of `VectorOutputStream` is left out. `Buffer()` models the
  const accessor.
- The tests call `ReadRaw`, `WriteFixed32/64` and `ReadFixed32/64`, which the header does
  not declare. They are not part of this model. Where a test consumes bytes with
  `ReadRaw`, the scenario uses `Next`, `BackUp` or `Skip` to consume the same bytes. The
  `InterleavedNextReadRaw` and `ReadRawPartial` tests have no counterpart.
- Pointers are modelled as (memory, offset, size) triples. Aliasing between a caller's
  buffer and another object is not modelled.
- `BackUp` with a count outside 0..last block throws in the source. Here that is a
  precondition, so the exception path is not modelled.
- int counters and int64 totals are unbounded, so overflow is not modelled. `encode_varint`
  receives `str.size()` as a uint32, so the string round trip requires a length below 2^32.
- The abstract base classes are closed sums of the two concrete streams each. A
  user-defined subclass is not modelled.
- `VectorOutputStream` inherits privately from the output interface (line 381), so the
  interface's `WriteRaw` is private in it, and neither `vos.WriteRaw(...)` nor
  `WriteVarint32(&vos, ...)` compiles as written. The tests at tests/test_zero_copy.cpp:23,
  129, 189, 201 and 232 assume public inheritance, and the model assumes it too: it wraps
  the stream in `OutputStream`.
- `BufferOutputStream`'s `total_` is never initialised by its constructor (line 313-314)
  and never read. The model starts it at 0, as `VectorOutputStream` does with its
  initialiser at line 469, so in both streams it stays equal to the byte count.
- `StreamVarint.NextByte`: an empty chunk makes `Next` return a zero-size block, and the
  varint readers then `continue` without setting `ptr` (lines 566 and 611). At the start
  of a varint `ptr` is null, so the next pass fetches another block, which is what the
  model does. In the middle of a varint, `ptr` still points past the end of the previous
  block. The next pass then compares it with the end of the new, empty block, and those
  two pointers are into different objects, so the result is unspecified. When that test
  comes out false, the code reads past the previous block. The model always takes the
  intended path here: it fetches the next block.
- `ZeroCopyOutput.OutputStream.WriteRaw`: the source has no return statement after its
  loop, which is undefined behaviour. The model returns true, the value every caller expects.
- `StreamVarint.ReadVarint32` and `StreamVarint.ReadVarint64`: on failure the source's
  comment says the value is 0, but the code leaves whatever it has accumulated. The model
  follows the code and returns the partial value mod 2^width.
- `Tlv.DecodeVarint`: the source shifts `byte & 0x7F`, an `int`, left by `shift`. At shift
  28 a group of 8 or more overflows the signed int, which is undefined before C++20. The
  model takes the result mod 2^32, as the two's-complement wrap of C++20 gives.
- `Tlv.DeserializeInt32`: the source returns an int32 through a `size_t`. The model
  returns that sign-extended uint64, and `Tlv.SizeRoundTrip` converts it back.
- `Tlv.DeserializeInt32`, `Tlv.DeserializeFloat32` and `Tlv.DeserializeString`: the
  source reads without bounds checks. The model requires the bytes it reads to exist, and
  `Tlv.DecodeVarint` requires a terminator or 5 bytes.
- `Tlv.SerializeFloat32` and `Tlv.DeserializeFloat32`: a float is modelled by its 32-bit
  pattern. Floating-point arithmetic is not modelled.
- `Bytes.LittleEndian32RoundTrip`: `memcpy` of an int32 or a float assumes a little-endian
  host.

## Findings

| source | as written | input that shows it | evidently intended | confidence | as-written member | corrected member |
|---|---|---|---|---|---|---|
| include/quark/io/zero_copy_stream.h:530 | `WriteVarint64` loops while the value is `> 0x80` | 128 is written as the single byte 0x80, which has no terminator and swallows the next varint | loop while `>= 0x80`, as `WriteVarint32` does | high (not executed) | AsWritten.WrittenVarint64Differs | StreamVarint.WriteVarint64 |
| include/quark/io/zero_copy_stream.h:608 | `ReadVarint64` loops while `shift < 63`, reading at most 9 bytes | 2^63, or any uint64 at or above it, needs 10 bytes and is rejected | read up to kMaxVarint64Bytes = 10 bytes | high (not executed) | AsWritten.NineByteReaderRejectsTopBit | StreamVarint.ReadVarint64 |
| include/quark/io/zero_copy_stream.h:256-265 | `BackUp` of the whole last block decrements the chunk index | chunks "ab","cd": Next, Next, BackUp(2), Next serves "ab" again | the backed-up bytes of the last block are served again | high (not executed) | AsWritten.WrittenFullBackUpExample | ZeroCopyInput.MultiBufferInputStream.BackUp |
| include/quark/io/zero_copy_stream.h:258 | `backed_up_ = count` overwrites an earlier backup | chunk "abcd": Next, BackUp(1), BackUp(1), Next serves "d", not "cd" | add to the pending backup | medium (not executed) | AsWritten.WrittenRepeatedBackUp | ZeroCopyInput.MultiBufferInputStream.BackUp |
| include/quark/io/zero_copy_stream.h:403-415 | `VectorOutputStream::Next` resizes the buffer but never advances `size_` | VectorOutputStream(4), whose block is clamped to 64, WriteRaw of 10 bytes: BackUp(54) makes size_ -54, while the test at tests/test_zero_copy.cpp:126-134 expects 10 | advance `size_` by the block handed out | high (not executed) | AsWritten.WrittenVectorWriteTen | ZeroCopyOutput.VectorOutputStream.Next |
