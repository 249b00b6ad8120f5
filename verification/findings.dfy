/**
  Behaviours of zero_copy_stream.h as written that differ from what its
  documentation, its constants and its tests evidently intend. Each is
  modelled here as written, next to a lemma that exhibits the difference;
  the rest of the model (ZeroCopyInput, ZeroCopyOutput, StreamVarint) follows
  the intended behaviour.
*/
module AsWritten {
  import opened Bytes
  import opened Varint
  import opened ZeroCopyInput
  import opened ZeroCopyOutput
  import opened StreamVarint

  // ---------------------------------------------------------------------
  // WriteVarint64 loops while `varint > 0x80` (WriteVarint32 uses `>= 0x80`).

  /** The bytes WriteVarint64 produces as written: a remaining value of
      exactly 0x80 leaves the loop and is stored as the single byte 0x80,
      which still carries the continuation bit. */
  function WrittenVarint64Bytes(v: nat): (r: seq<uint8>)
    ensures 1 <= |r| && r[|r| - 1] <= 0x80
    ensures forall k :: 0 <= k < |r| - 1 ==> r[k] >= 0x80
    decreases v
  {
    if v <= 0x80 then [v] else [v % 0x80 + 0x80] + WrittenVarint64Bytes(v / 0x80)
  }

  /** Whether the loop of WriteVarint64 meets a remaining value of exactly 0x80. */
  predicate MeetsExactly0x80(v: nat)
    decreases v
  {
    v == 0x80 || (v > 0x80 && MeetsExactly0x80(v / 0x80))
  }

  /** The written bytes are the canonical encoding exactly when the loop never
      meets 0x80; when it does, every written byte carries the continuation
      bit, so no reader can decode them as one varint. */
  lemma {:induction false} WrittenVarint64Differs(v: nat)
    ensures WrittenVarint64Bytes(v) == VarintBytes(v) <==> !MeetsExactly0x80(v)
    ensures MeetsExactly0x80(v) ==>
      (forall k :: 0 <= k < |WrittenVarint64Bytes(v)| ==> WrittenVarint64Bytes(v)[k] >= 0x80) &&
      !ParseVarint(WrittenVarint64Bytes(v), MaxVarint64Bytes).Decoded?
    decreases v
  {
    if v > 0x80 {
      WrittenVarint64Differs(v / 0x80);
      assert WrittenVarint64Bytes(v)[1..] == WrittenVarint64Bytes(v / 0x80);
      assert VarintBytes(v)[1..] == VarintBytes(v / 0x80);
      if MeetsExactly0x80(v) {
        var w := WrittenVarint64Bytes(v);
        assert forall k :: 1 <= k < |w| ==> w[k] == WrittenVarint64Bytes(v / 0x80)[k - 1];
      }
    } else if v == 0x80 {
      assert VarintBytes(v) == [0x80, 0x01];
    }
  }

  /** The shortest case: 128 is written as the lone byte 0x80. On its own it
      reads as truncated; followed by the next varint (here 5) the reader
      swallows that byte as a second group and decodes 640. */
  lemma WrittenVarint64Of128()
    ensures WrittenVarint64Bytes(0x80) == [0x80] && VarintBytes(0x80) == [0x80, 0x01]
    ensures ParseVarint(WrittenVarint64Bytes(0x80), MaxVarint64Bytes) == Truncated
    ensures ParseVarint(WrittenVarint64Bytes(0x80) + VarintBytes(5), MaxVarint64Bytes) == Decoded(640, 2)
  {
    var b := WrittenVarint64Bytes(0x80) + VarintBytes(5);
    assert b == [0x80, 0x05];
    assert b[..2] == b;
    assert GroupsValue(b[1..]) == 5 by {
      assert b[1..][1..] == [];
    }
  }

  // ---------------------------------------------------------------------
  // ReadVarint64 loops while `shift < 63`, that is for at most nine bytes.

  /** The byte limit ReadVarint64's loop implements as written. */
  const WrittenVarint64Limit: nat := 9

  /** ReadVarint64 as written: the shared reader with a nine-byte limit. */
  method ReadVarint64AsWritten(input: InputStream) returns (ok: bool, value: uint64)
    requires input.Valid()
    modifies input.Obj()
    ensures input.Valid()
    ensures 0 <= old(input.ByteCount()) <= input.ByteCount() <= |input.Data()|
    ensures ReadEnds(input.Data()[old(input.ByteCount())..], WrittenVarint64Limit, TwoTo64,
                     ok, value, input.ByteCount() - old(input.ByteCount()))
  {
    var v;
    ok, v := ReadVarint(input, WrittenVarint64Limit, TwoTo64);
    value := v;
  }

  /** A nine-byte reader decodes the canonical encoding of a 64-bit value
      exactly when the value is below 2^63: every value with the top bit set
      needs ten bytes and is rejected as too long. */
  lemma NineByteReaderRejectsTopBit(v: uint64, rest: seq<uint8>)
    ensures ParseVarint(VarintBytes(v) + rest, WrittenVarint64Limit).Decoded? <==> v < 0x8000_0000_0000_0000
    ensures v >= 0x8000_0000_0000_0000 ==>
      |VarintBytes(v)| == MaxVarint64Bytes &&
      ParseVarint(VarintBytes(v) + rest, WrittenVarint64Limit) == TooLong &&
      ParseVarint(VarintBytes(v) + rest, MaxVarint64Bytes) == Decoded(v, MaxVarint64Bytes)
  {
    Pow128Values();
    Varint64RoundTrip(v, rest);
    if v < 0x8000_0000_0000_0000 {
      VarintRoundTrip(v, rest, WrittenVarint64Limit);
    } else {
      var e := VarintBytes(v);
      var b := e + rest;
      VarintBytesLength(v, WrittenVarint64Limit);
      VarintBytesShape(v);
      var r := ParseVarint(b, WrittenVarint64Limit);
      if r.Decoded? {
        assert false;
      }
    }
  }

  // ---------------------------------------------------------------------
  // MultiBufferInputStream::BackUp overwrites backed_up_ and steps idx_ back
  // when the whole last block is returned.

  /** The fields of a MultiBufferInputStream: idx_, backed_up_, last_size_,
      total_. */
  datatype MultiState = MultiState(idx: int, backedUp: int, lastSize: int, total: int)

  /** The outcome of Next: a block and the new state, no more data, or a
      read outside chunks_ (undefined behaviour in the source). */
  datatype MultiStep = Served(block: seq<uint8>, after: MultiState) | Exhausted | OutOfRange

  /** MultiBufferInputStream::Next as written (its logic is the intended one). */
  function WrittenMultiNext(chunks: seq<Chunk>, s: MultiState): (r: MultiStep)
    ensures r.Exhausted? <==> s.backedUp <= 0 && s.idx >= |chunks|
    ensures r.Served? ==> r.after.lastSize == |r.block| && r.after.total == s.total + |r.block|
    ensures r.Served? && s.backedUp > 0 ==>
      0 < s.idx <= |chunks| && s.backedUp <= |chunks[s.idx - 1]| && r.after.idx == s.idx &&
      r.after.backedUp == 0 && r.block == chunks[s.idx - 1][|chunks[s.idx - 1]| - s.backedUp..]
    ensures r.Served? && s.backedUp <= 0 ==>
      0 <= s.idx < |chunks| && r.after.idx == s.idx + 1 && r.block == chunks[s.idx]
  {
    if s.backedUp > 0 then
      if 0 < s.idx <= |chunks| && s.backedUp <= |chunks[s.idx - 1]| then
        var c := chunks[s.idx - 1];
        Served(c[|c| - s.backedUp..], s.(backedUp := 0, lastSize := s.backedUp, total := s.total + s.backedUp))
      else OutOfRange
    else if s.idx >= |chunks| then Exhausted
    else if s.idx < 0 then OutOfRange
    else Served(chunks[s.idx], s.(idx := s.idx + 1, lastSize := |chunks[s.idx]|, total := s.total + |chunks[s.idx]|))
  }

  /** MultiBufferInputStream::BackUp as written: `backed_up_ = count`, and the
      chunk index steps back when the whole last block is returned. */
  function WrittenMultiBackUp(s: MultiState, count: int): (r: MultiState)
    requires 0 <= count <= s.lastSize
    ensures r.total == s.total - count && r.lastSize == s.lastSize - count
    ensures r.backedUp == count
    ensures r.idx == s.idx - 1 <==> count == s.lastSize && s.idx > 0
  {
    var idx := if count == s.lastSize && s.idx > 0 then s.idx - 1 else s.idx;
    s.(idx := idx, backedUp := count, lastSize := s.lastSize - count, total := s.total - count)
  }

  /** Backing up the whole block of a fresh chunk and reading again does not
      re-serve that chunk: from the first chunk it reads before chunks_, and
      from a later one it serves the end of the chunk before. */
  lemma WrittenFullBackUpRewinds(chunks: seq<Chunk>, s: MultiState)
    requires s.backedUp == 0 && 0 <= s.idx < |chunks| && |chunks[s.idx]| > 0
    ensures WrittenMultiNext(chunks, s).Served?
    ensures var r := WrittenMultiNext(chunks, s);
            var b := WrittenMultiBackUp(r.after, |chunks[s.idx]|);
            r.block == chunks[s.idx] && b.idx == s.idx && b.backedUp == |chunks[s.idx]| &&
            (s.idx == 0 ==> WrittenMultiNext(chunks, b) == OutOfRange) &&
            (s.idx > 0 && |chunks[s.idx]| <= |chunks[s.idx - 1]| ==>
               WrittenMultiNext(chunks, b).Served? &&
               WrittenMultiNext(chunks, b).block ==
                 chunks[s.idx - 1][|chunks[s.idx - 1]| - |chunks[s.idx]|..])
  {
  }

  /** The chunks "ab", "cd": Next, Next, BackUp(2), Next hands out "ab" again,
      although the bytes after the first two are "cd". */
  lemma WrittenFullBackUpExample()
    ensures var chunks: seq<Chunk> := [[0x61, 0x62], [0x63, 0x64]];
            var s1 := WrittenMultiNext(chunks, MultiState(0, 0, 0, 0));
            s1.Served? &&
            var s2 := WrittenMultiNext(chunks, s1.after);
            s2.Served? &&
            var s3 := WrittenMultiNext(chunks, WrittenMultiBackUp(s2.after, 2));
            s3.Served? && s3.block == [0x61, 0x62] && Flatten(chunks)[2..4] == [0x63, 0x64]
  {
    var chunks: seq<Chunk> := [[0x61, 0x62], [0x63, 0x64]];
    assert Flatten(chunks) == [0x61, 0x62, 0x63, 0x64] by {
      assert chunks[..1] == [[0x61, 0x62]];
      assert chunks[..1][..0] == [];
    }
  }

  /** Two partial backups in a row are not added up: after "abcd" is served,
      BackUp(1) twice leaves ByteCount at 2 but only one byte pending, so the
      next Next serves "d" and ByteCount becomes 3, while byte 2 is "c". */
  lemma WrittenRepeatedBackUp()
    ensures var chunks: seq<Chunk> := [[0x61, 0x62, 0x63, 0x64]];
            var s1 := WrittenMultiNext(chunks, MultiState(0, 0, 0, 0));
            s1.Served? && s1.after == MultiState(1, 0, 4, 4) &&
            var b := WrittenMultiBackUp(WrittenMultiBackUp(s1.after, 1), 1);
            b == MultiState(1, 1, 2, 2) &&
            var s2 := WrittenMultiNext(chunks, b);
            s2 == Served([0x64], MultiState(1, 0, 1, 3)) &&
            Flatten(chunks)[2..3] == [0x63]
  {
    var chunks: seq<Chunk> := [[0x61, 0x62, 0x63, 0x64]];
    assert chunks[..0] == [];
  }

  // ---------------------------------------------------------------------
  // VectorOutputStream::Next grows the vector but never advances size_.

  /** The fields of a VectorOutputStream: buf_.size(), size_,
      last_provided_, total_. */
  datatype VectorState = VectorState(bufSize: int, size: int, lastProvided: int, total: int)

  /** VectorOutputStream::Next as written: the offset of the block handed out
      (`size_`) and the new state. */
  function WrittenVectorNext(s: VectorState, blockSize: nat): (r: (int, VectorState))
    ensures r.0 == s.size && r.1.size == s.size
    ensures r.1.bufSize == s.bufSize + blockSize && r.1.lastProvided == blockSize
  {
    (s.size, s.(bufSize := s.bufSize + blockSize, lastProvided := blockSize, total := s.total + blockSize))
  }

  /** VectorOutputStream::BackUp as written; `buf_.resize(size_)` with a
      negative size_ asks for an impossible size (it converts to a huge
      size_t). */
  function WrittenVectorBackUp(s: VectorState, count: int): (r: VectorState)
    requires 0 <= count <= s.lastProvided
    ensures r.size == s.size - count && r.bufSize == r.size
    ensures r.lastProvided == s.lastProvided - count
  {
    s.(size := s.size - count, total := s.total - count, lastProvided := s.lastProvided - count, bufSize := s.size - count)
  }

  /** Next never changes ByteCount (`size_`), so consecutive blocks overlap,
      and a BackUp after a Next takes ByteCount below where it started. */
  lemma WrittenVectorNextStays(s: VectorState, blockSize: nat, count: int)
    requires 0 < count <= blockSize
    ensures WrittenVectorNext(s, blockSize).1.size == s.size
    ensures WrittenVectorNext(WrittenVectorNext(s, blockSize).1, blockSize).0 == WrittenVectorNext(s, blockSize).0
    ensures WrittenVectorBackUp(WrittenVectorNext(s, blockSize).1, count).size == s.size - count < s.size
  {
  }

  /** Writing 10 bytes into a fresh VectorOutputStream(4) (block 64) as WriteRaw
      does: one Next, then BackUp(54). ByteCount ends at -54 and the vector is
      resized to -54, where 10 is evidently intended. */
  lemma WrittenVectorWriteTen()
    ensures var n := WrittenVectorNext(VectorState(0, 0, 0, 0), MinBlockSize);
            n.0 == 0 && WrittenVectorBackUp(n.1, 54) == VectorState(-54, -54, 10, 10)
  {
  }
}
