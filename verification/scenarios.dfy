/**
  What the repository's zero-copy tests expect, stated for the model: each
  method builds the streams a test builds, makes the same calls, and promises
  in its postcondition what the test checks. ReadRaw, WriteFixed32/64 and
  ReadFixed32/64, which some tests call, are not declared in
  zero_copy_stream.h and are not part of this model; where a test uses
  ReadRaw to consume bytes, Next, BackUp or Skip consume the same bytes here.
*/
module Scenarios {
  import opened Bytes
  import opened Varint
  import opened ZeroCopyInput
  import opened ZeroCopyOutput
  import opened StreamVarint

  /** The canonical encodings of vs, one after the other. */
  function Encodings(vs: seq<nat>): (r: seq<uint8>)
  {
    if vs == [] then [] else Encodings(vs[..|vs| - 1]) + VarintBytes(vs[|vs| - 1])
  }

  lemma {:induction false} EncodingsAppend(a: seq<nat>, b: seq<nat>)
    ensures Encodings(a + b) == Encodings(a) + Encodings(b)
    decreases |b|
  {
    if b == [] {
      assert a + b == a;
    } else {
      var front := b[..|b| - 1];
      var ab := a + b;
      assert ab[..|ab| - 1] == a + front && ab[|ab| - 1] == b[|b| - 1];
      assert Encodings(ab) == Encodings(a + front) + VarintBytes(b[|b| - 1]);
      EncodingsAppend(a, front);
    }
  }

  lemma EncodingsSnoc(vs: seq<nat>, i: nat)
    requires i < |vs|
    ensures Encodings(vs[..i + 1]) == Encodings(vs[..i]) + VarintBytes(vs[i])
  {
    assert vs[..i + 1][..i] == vs[..i];
  }

  /** The encodings of a list split around its i-th value. */
  lemma EncodingsSplit(vs: seq<nat>, i: nat)
    requires i < |vs|
    ensures Encodings(vs) == Encodings(vs[..i]) + VarintBytes(vs[i]) + Encodings(vs[i + 1..])
  {
    assert vs == vs[..i + 1] + vs[i + 1..];
    EncodingsAppend(vs[..i + 1], vs[i + 1..]);
    EncodingsSnoc(vs, i);
  }

  /** Where the i-th encoding lies in the encodings of vs. */
  lemma EncodingsAt(vs: seq<nat>, i: nat)
    requires i < |vs|
    ensures |Encodings(vs[..i + 1])| == |Encodings(vs[..i])| + |VarintBytes(vs[i])| <= |Encodings(vs)|
    ensures Encodings(vs)[|Encodings(vs[..i])|..] == VarintBytes(vs[i]) + Encodings(vs[i + 1..])
  {
    EncodingsSplit(vs, i);
    EncodingsSnoc(vs, i);
  }

  /** A read of bytes that hold a complete varint succeeds with its value and
      consumes exactly its bytes. */
  lemma ReadDecoded(rest: seq<uint8>, maxBytes: nat, modulus: nat, ok: bool, value: nat, consumed: int)
    requires modulus >= 1 && ParseVarint(rest, maxBytes).Decoded?
    requires ReadEnds(rest, maxBytes, modulus, ok, value, consumed)
    ensures ok && value == ParseVarint(rest, maxBytes).value % modulus
    ensures consumed == ParseVarint(rest, maxBytes).length
  {
  }

  /** The writing half of Varint32ReadWrite: every WriteVarint32 into a
      VectorOutputStream succeeds, and the buffer ends up holding the
      encodings of the values in order. */
  method WriteVarints32(values: seq<uint32>) returns (written: bool, buffer: seq<uint8>)
    ensures written && buffer == Encodings(values)
  {
    var vos := new VectorOutputStream(DefaultBlockSize);
    var out := ToVector(vos);
    written := true;
    var i := 0;
    while i < |values|
      invariant i <= |values|
      invariant out.Valid() && fresh(out.Repr())
      invariant out.Contents() == Encodings(values[..i])
      invariant written
    {
      var ok := WriteVarint32(out, values[i]);
      written := written && ok;
      EncodingsSnoc(values, i);
      i := i + 1;
    }
    assert values[..i] == values;
    buffer := vos.Buffer();
  }

  /** The reading half of Varint32ReadWrite: reading a buffer that holds the
      encodings of the values with ReadVarint32 succeeds every time and yields
      the values in order. */
  method ReadVarints32(buffer: seq<uint8>, values: seq<uint32>) returns (read: bool, decoded: seq<uint32>)
    requires buffer == Encodings(values)
    ensures read && decoded == values
  {
    var bis := new BufferInputStream(buffer);
    var input := FromBuffer(bis);
    read := true;
    decoded := [];
    var i := 0;
    while i < |values|
      invariant i <= |values|
      invariant input.Valid() && fresh(input.Obj()) && input.Data() == Encodings(values)
      invariant input.ByteCount() == |Encodings(values[..i])|
      invariant read && decoded == values[..i]
    {
      EncodingsAt(values, i);
      Varint32RoundTrip(values[i], Encodings(values[i + 1..]));
      ghost var count := input.ByteCount();
      var ok, v := ReadVarint32(input);
      ReadDecoded(input.Data()[count..], MaxVarint32Bytes, TwoTo32, ok, v, input.ByteCount() - count);
      read := read && ok;
      decoded := decoded + [v];
      i := i + 1;
    }
  }

  /** Varint32ReadWrite, for any list of values (the test writes 0 to 99):
      the values written with WriteVarint32 read back with ReadVarint32,
      every call succeeding. */
  method Varint32Sequence(values: seq<uint32>) returns (written: bool, read: bool, decoded: seq<uint32>)
    ensures written && read && decoded == values
  {
    var buffer;
    written, buffer := WriteVarints32(values);
    read, decoded := ReadVarints32(buffer, values);
  }

  /** The writing half of Varint64ReadWrite. */
  method WriteVarints64(values: seq<uint64>) returns (written: bool, buffer: seq<uint8>)
    ensures written && buffer == Encodings(values)
  {
    var vos := new VectorOutputStream(DefaultBlockSize);
    var out := ToVector(vos);
    written := true;
    var i := 0;
    while i < |values|
      invariant i <= |values|
      invariant out.Valid() && fresh(out.Repr())
      invariant out.Contents() == Encodings(values[..i])
      invariant written
    {
      var ok := WriteVarint64(out, values[i]);
      written := written && ok;
      EncodingsSnoc(values, i);
      i := i + 1;
    }
    assert values[..i] == values;
    buffer := vos.Buffer();
  }

  /** The reading half of Varint64ReadWrite. */
  method ReadVarints64(buffer: seq<uint8>, values: seq<uint64>) returns (read: bool, decoded: seq<uint64>)
    requires buffer == Encodings(values)
    ensures read && decoded == values
  {
    var bis := new BufferInputStream(buffer);
    var input := FromBuffer(bis);
    read := true;
    decoded := [];
    var i := 0;
    while i < |values|
      invariant i <= |values|
      invariant input.Valid() && fresh(input.Obj()) && input.Data() == Encodings(values)
      invariant input.ByteCount() == |Encodings(values[..i])|
      invariant read && decoded == values[..i]
    {
      EncodingsAt(values, i);
      Varint64RoundTrip(values[i], Encodings(values[i + 1..]));
      ghost var count := input.ByteCount();
      var ok, v := ReadVarint64(input);
      ReadDecoded(input.Data()[count..], MaxVarint64Bytes, TwoTo64, ok, v, input.ByteCount() - count);
      read := read && ok;
      decoded := decoded + [v];
      i := i + 1;
    }
  }

  /** Varint64ReadWrite, for any list of values: the values written with
      WriteVarint64 read back with ReadVarint64, every call succeeding. */
  method Varint64Sequence(values: seq<uint64>) returns (written: bool, read: bool, decoded: seq<uint64>)
    ensures written && read && decoded == values
  {
    var buffer;
    written, buffer := WriteVarints64(values);
    read, decoded := ReadVarints64(buffer, values);
  }

  /** Drains a stream with Next, appending every block, as the
      MultiBufferInputStream test does: the result is everything that had not
      been handed out yet. */
  method ReadAll(input: InputStream) returns (result: seq<uint8>)
    requires input.Valid()
    modifies input.Obj()
    ensures input.Valid() && input.ByteCount() == |input.Data()|
    ensures result == input.Data()[old(input.ByteCount())..]
  {
    input.CountInRange();
    ghost var start := input.ByteCount();
    result := [];
    while true
      invariant input.Valid() && 0 <= start <= input.ByteCount() <= |input.Data()|
      invariant result == input.Data()[start..input.ByteCount()]
      decreases input.Fuel()
    {
      ghost var count := input.ByteCount();
      var ok, block := input.Next();
      if !ok {
        break;
      }
      input.CountInRange();
      SliceJoin(input.Data(), start, count, input.ByteCount());
      result := result + block.Bytes();
    }
  }

  lemma SliceJoin(data: seq<uint8>, a: nat, b: nat, c: nat)
    requires a <= b <= c <= |data|
    ensures data[a..c] == data[a..b] + data[b..c]
  {
  }

  /** MultiBufferInputStream: the chunks "abc", "defg", "hij" read back as
      "abcdefghij". */
  method MultiBufferChunks() returns (result: seq<uint8>)
    ensures result == [0x61, 0x62, 0x63, 0x64, 0x65, 0x66, 0x67, 0x68, 0x69, 0x6A]
  {
    var chunks: seq<Chunk> := [[0x61, 0x62, 0x63], [0x64, 0x65, 0x66, 0x67], [0x68, 0x69, 0x6A]];
    assert Flatten(chunks) == [0x61, 0x62, 0x63, 0x64, 0x65, 0x66, 0x67, 0x68, 0x69, 0x6A] by {
      FlattenSnoc(chunks, 0);
      FlattenSnoc(chunks, 1);
      FlattenSnoc(chunks, 2);
      assert chunks[..0] == [] && chunks[..3] == chunks;
    }
    var mb := new MultiBufferInputStream(chunks);
    result := ReadAll(FromChunks(mb));
  }

  /** BackUpAndSkip: Next hands out all 10 bytes; BackUp(3) leaves ByteCount
      at 7; Skip(2) succeeds and moves it to 9; the remaining byte is 9; a
      further Skip(1) fails. */
  method BackUpAndSkip() returns (size: nat, afterBackUp: int, skipped: bool, afterSkip: int,
                                  last: seq<uint8>, pastEnd: bool)
    ensures size == 10 && afterBackUp == 7 && skipped && afterSkip == 9
    ensures last == [9] && !pastEnd
  {
    var bis := new BufferInputStream([0, 1, 2, 3, 4, 5, 6, 7, 8, 9]);
    var input := FromBuffer(bis);
    var ok, block := input.Next();
    size := block.size;
    input.BackUp(3);
    afterBackUp := input.ByteCount();
    skipped := input.Skip(2);
    afterSkip := input.ByteCount();
    var more, tail := input.Next();
    assert more && tail.Bytes() == input.Data()[9..10] == [9];
    last := if more then tail.Bytes() else [];
    pastEnd := input.Skip(1);
  }

  /** SkipTooManyBytes: after 3 of 5 bytes are consumed, Skip(10) fails and
      leaves ByteCount at the end, 5. */
  method SkipTooManyBytes() returns (skipped: bool, count: int)
    ensures !skipped && count == 5
  {
    var bis := new BufferInputStream([1, 2, 3, 4, 5]);
    var input := FromBuffer(bis);
    var consumed := input.Skip(3);
    skipped := input.Skip(10);
    count := input.ByteCount();
  }

  /** VectorOutputStreamGrowth: with a requested block size of 4 (clamped to
      64), WriteRaw of 10 bytes succeeds, ByteCount is 10 and the buffer holds
      exactly those 10 bytes. */
  method VectorGrowth() returns (ok: bool, count: int, buffer: seq<uint8>)
    ensures ok && count == 10 && buffer == [0, 1, 2, 3, 4, 5, 6, 7, 8, 9]
  {
    var vos := new VectorOutputStream(4);
    var out := ToVector(vos);
    ok := out.WriteRaw([0, 1, 2, 3, 4, 5, 6, 7, 8, 9]);
    count := out.ByteCount();
    buffer := vos.Buffer();
  }

  /** WriteAndBackUpMultipleBlocks: WriteRaw of 5 bytes with block size 2
      (clamped to 64) succeeds; BackUp(2) leaves ByteCount 3 and a buffer of
      the first 3 bytes. */
  method WriteAndBackUp() returns (ok: bool, written: int, afterBackUp: int, buffer: seq<uint8>)
    ensures ok && written == 5 && afterBackUp == 3 && buffer == [1, 2, 3]
  {
    var vos := new VectorOutputStream(2);
    var out := ToVector(vos);
    ok := out.WriteRaw([1, 2, 3, 4, 5]);
    written := out.ByteCount();
    out.InRepr();
    ghost var committed := out.Backing()[..];
    assert committed[..5] == [1, 2, 3, 4, 5];
    out.BackUp(2);
    afterBackUp := out.ByteCount();
    out.InRepr();
    assert out.Backing()[..] == committed;
    buffer := vos.Buffer();
    assert buffer == committed[..5][..3];
  }

  /** BackUpTooManyBytes and MultiBlockBackUp: after WriteRaw of 5 bytes only
      those 5 may be backed up, so BackUp(10) lies outside BackUp's
      precondition (the source throws). */
  method BackUpLimit(requestedBlockSize: nat) returns (ok: bool, limit: nat)
    ensures ok && limit == 5
  {
    var vos := new VectorOutputStream(requestedBlockSize);
    var out := ToVector(vos);
    ok := out.WriteRaw([1, 2, 3, 4, 5]);
    limit := vos.lastProvided;
  }

  /** The chunks "ab", "cd": Next, Next, BackUp(2), Next hands out "cd" again
      and ByteCount is back at 4. */
  method MultiBufferFullBackUp() returns (again: seq<uint8>, count: int)
    ensures again == [0x63, 0x64] && count == 4
  {
    var mb := new MultiBufferInputStream([[0x61, 0x62], [0x63, 0x64]]);
    var ok, block := mb.Next();
    ok, block := mb.Next();
    mb.BackUp(2);
    ok, block := mb.Next();
    again := block.Bytes();
    count := mb.ByteCount();
  }

  /** The chunk "abcd": Next, BackUp(1), BackUp(1), Next hands out "cd", the
      two bytes given back, and ByteCount is back at 4. */
  method MultiBufferRepeatedBackUp() returns (again: seq<uint8>, count: int)
    ensures again == [0x63, 0x64] && count == 4
  {
    var mb := new MultiBufferInputStream([[0x61, 0x62, 0x63, 0x64]]);
    var ok, block := mb.Next();
    mb.BackUp(1);
    mb.BackUp(1);
    ok, block := mb.Next();
    again := block.Bytes();
    count := mb.ByteCount();
  }
}
