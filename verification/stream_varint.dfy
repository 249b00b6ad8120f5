/**
  The varint helpers of zero_copy_stream.h that run on top of the streams:
  WriteVarint32/64 encode into a small scratch array and hand it to WriteRaw;
  ReadVarint32/64 decode straight out of the blocks Next returns and give the
  unread tail of the last block back with BackUp.

  Their meaning is given by the Varint module: the bytes written are
  VarintBytes(v), and a read succeeds exactly when ParseVarint of the unread
  bytes is Decoded.
*/
module StreamVarint {
  import opened Bytes
  import opened Varint
  import opened ZeroCopyInput
  import opened ZeroCopyOutput

  /** The scratch-array loop shared by WriteVarint32 and WriteVarint64: it
      fills `tmp` (of `capacity` bytes) with the 7-bit groups of v, lowest
      first, each but the last with the continuation bit (`varint | 0x80`
      truncated to a byte is `v % 0x80 + 0x80`). What it fills is exactly the
      canonical encoding. */
  method EncodeScratch(v: nat, capacity: nat) returns (encoded: seq<uint8>)
    requires |VarintBytes(v)| <= capacity
    ensures encoded == VarintBytes(v)
  {
    var tmp := new uint8[capacity];
    var n: nat := 0;
    var x: nat := v;
    while x >= 0x80
      invariant n + |VarintBytes(x)| == |VarintBytes(v)|
      invariant tmp[..n] + VarintBytes(x) == VarintBytes(v)
      decreases x
    {
      ghost var tail := VarintBytes(x);
      assert tail == [x % 0x80 + 0x80] + VarintBytes(x / 0x80);
      tmp[n] := x % 0x80 + 0x80;
      assert tmp[..n + 1] == tmp[..n] + [x % 0x80 + 0x80];
      n := n + 1;
      x := x / 0x80;
    }
    tmp[n] := x;
    assert tmp[..n + 1] == tmp[..n] + [x];
    n := n + 1;
    encoded := tmp[..n];
  }

  /** The shared body of WriteVarint32 and WriteVarint64: encodes v and
      writes the bytes with WriteRaw. The stream ends up holding the
      encoding, or, when the write fails, the part of it that fitted in a
      fixed buffer that is now full. */
  method WriteVarint(out: OutputStream, v: nat, capacity: nat) returns (ok: bool)
    requires out.Valid() && |VarintBytes(v)| <= capacity
    modifies out.Repr()
    ensures out.Valid() && fresh(out.Repr() - old(out.Repr()))
    ensures old(out.ByteCount()) <= out.ByteCount() <= old(out.ByteCount()) + |VarintBytes(v)|
    ensures out.Contents() == old(out.Contents()) + VarintBytes(v)[..out.ByteCount() - old(out.ByteCount())]
    ensures ok <==> out.ByteCount() == old(out.ByteCount()) + |VarintBytes(v)|
    ensures out.ToVector? ==> ok
    ensures out.ToBuffer? ==> (ok <==> |VarintBytes(v)| <= out.fixed.size - old(out.fixed.pos))
    ensures out.ToBuffer? && !ok ==> out.ByteCount() == out.fixed.size
  {
    var encoded := EncodeScratch(v, capacity);
    ok := out.WriteRaw(encoded);
  }

  /** `WriteVarint32`: writes the one to five bytes of VarintBytes(v). */
  method WriteVarint32(out: OutputStream, v: uint32) returns (ok: bool)
    requires out.Valid()
    modifies out.Repr()
    ensures out.Valid() && fresh(out.Repr() - old(out.Repr()))
    ensures ok <==> out.ByteCount() == old(out.ByteCount()) + |VarintBytes(v)|
    ensures ok ==> out.Contents() == old(out.Contents()) + VarintBytes(v)
    ensures 1 <= |VarintBytes(v)| <= MaxVarint32Bytes
    ensures out.ToVector? ==> ok
    ensures out.ToBuffer? ==> (ok <==> |VarintBytes(v)| <= out.fixed.size - old(out.fixed.pos))
    ensures out.ToBuffer? && !ok ==> out.ByteCount() == out.fixed.size
  {
    Varint32RoundTrip(v, []);
    ok := WriteVarint(out, v, MaxVarint32Bytes);
  }

  /** `WriteVarint64`, with the loop condition `varint >= 0x80` of
      WriteVarint32 (the source compares `> 0x80`; see the AsWritten module):
      writes the one to ten bytes of VarintBytes(v). */
  method WriteVarint64(out: OutputStream, v: uint64) returns (ok: bool)
    requires out.Valid()
    modifies out.Repr()
    ensures out.Valid() && fresh(out.Repr() - old(out.Repr()))
    ensures ok <==> out.ByteCount() == old(out.ByteCount()) + |VarintBytes(v)|
    ensures ok ==> out.Contents() == old(out.Contents()) + VarintBytes(v)
    ensures 1 <= |VarintBytes(v)| <= MaxVarint64Bytes
    ensures out.ToVector? ==> ok
    ensures out.ToBuffer? ==> (ok <==> |VarintBytes(v)| <= out.fixed.size - old(out.fixed.pos))
    ensures out.ToBuffer? && !ok ==> out.ByteCount() == out.fixed.size
  {
    Varint64RoundTrip(v, []);
    ok := WriteVarint(out, v, MaxVarint64Bytes);
  }

  /** The shared body of ReadVarint32 and ReadVarint64, reading at most
      maxBytes bytes (`shift < 7 * maxBytes`). The value is accumulated
      exactly and reduced modulo `modulus` (2^32 or 2^64) when it is returned,
      which is what OR-ing the shifted groups into a fixed-width integer
      computes, since the groups occupy disjoint bits.

      Let rest be the bytes not yet handed out. The read succeeds exactly when
      ParseVarint(rest, maxBytes) is Decoded; it then returns that value and
      leaves the stream just after the varint. When rest ends inside the
      varint the stream is left at its end; when maxBytes bytes all carry the
      continuation bit at least those bytes are consumed. On failure the
      value is what the groups read so far add up to. */
  method ReadVarint(input: InputStream, maxBytes: nat, modulus: nat) returns (ok: bool, value: nat)
    requires input.Valid() && modulus >= 1
    modifies input.Obj()
    ensures input.Valid()
    ensures 0 <= old(input.ByteCount()) <= input.ByteCount() <= |input.Data()|
    ensures ReadEnds(input.Data()[old(input.ByteCount())..], maxBytes, modulus,
                     ok, value, input.ByteCount() - old(input.ByteCount()))
  {
    input.CountInRange();
    ghost var start := input.ByteCount();
    ghost var rest := input.Data()[start..];
    var acc: nat := 0;
    var i: nat := 0;
    var block := InBlock([], 0, 0);
    var p: nat := 0;
    while i < maxBytes
      invariant Window(input, start, i, block, p)
      invariant Scanned(rest, i, maxBytes, acc)
      decreases maxBytes - i
    {
      var got, byte;
      got, byte, block, p := NextByte(input, start, i, block, p);
      if !got {
        ScanEnd(rest, i, maxBytes, acc, modulus, i);
        assert input.Data()[old(input.ByteCount())..] == rest;
        return false, acc % modulus;
      }
      assert byte == rest[i];
      ScanStep(rest, i, maxBytes, acc, byte, modulus);
      acc := acc + GroupAt(byte, i);
      i := i + 1;
      if byte < 0x80 {
        GiveBack(input, start, i, block, p);
        assert input.Data()[old(input.ByteCount())..] == rest;
        return true, acc % modulus;
      }
    }
    ScanEnd(rest, i, maxBytes, acc, modulus, input.ByteCount() - start);
    assert input.Data()[old(input.ByteCount())..] == rest;
    return false, acc % modulus;
  }

  /** The next byte for the reader: from the current block while it lasts,
      otherwise from the next non-empty block Next hands out (an empty block
      is skipped, as the source's `continue` does); fails once the stream has
      nothing left. */
  method NextByte(input: InputStream, ghost start: nat, ghost i: nat, block: InBlock, p: nat)
    returns (got: bool, byte: uint8, next: InBlock, q: nat)
    requires Window(input, start, i, block, p)
    modifies input.Obj()
    ensures got ==> start + i < |input.Data()| && byte == input.Data()[start + i] &&
                    Window(input, start, i + 1, next, q)
    ensures !got ==> input.Valid() && input.ByteCount() == start + i == |input.Data()|
  {
    next, q := block, p;
    while q >= next.size
      invariant Window(input, start, i, next, q)
      decreases input.Fuel()
    {
      var more;
      more, next := Refill(input, start, i, next);
      q := 0;
      if !more {
        return false, 0, next, q;
      }
    }
    byte := next.mem[next.start + q];
    WindowStep(input, start, i, next, q);
    q := q + 1;
    got := true;
  }

  /** The reader's position in the stream: ByteCount is the start, plus the i
      bytes read, plus the unread part of the current block from p on, which
      BackUp may still return and which lies in the data right after the
      bytes read. */
  ghost predicate Window(input: InputStream, start: nat, i: nat, block: InBlock, p: nat)
    reads input.Obj()
  {
    input.Valid() && block.Valid() && p <= block.size &&
    input.ByteCount() == start + i + (block.size - p) <= |input.Data()| &&
    block.size - p <= input.Last() &&
    block.Bytes()[p..] == input.Data()[start + i..input.ByteCount()]
  }

  /** The refill step of the reader: when the current block is used up, the
      next one comes from Next; when there is none, everything was read. */
  method Refill(input: InputStream, ghost start: nat, ghost i: nat, block: InBlock)
    returns (got: bool, next: InBlock)
    requires Window(input, start, i, block, block.size)
    modifies input.Obj()
    ensures got ==> Window(input, start, i, next, 0) && input.Fuel() < old(input.Fuel())
    ensures !got ==> input.Valid() && input.ByteCount() == start + i == |input.Data()|
  {
    got, next := input.Next();
    if got {
      assert next.Bytes()[0..] == next.Bytes();
    }
  }

  /** The end of a successful read: the unread part of the current block is
      given back, so that ByteCount stands just after the bytes read. */
  method GiveBack(input: InputStream, ghost start: nat, ghost i: nat, block: InBlock, p: nat)
    requires Window(input, start, i, block, p)
    modifies input.Obj()
    ensures input.Valid() && input.ByteCount() == start + i <= |input.Data()|
  {
    input.BackUp(block.size - p);
  }

  /** Reading one byte of the current block: it is the next byte of the data. */
  lemma WindowStep(input: InputStream, start: nat, i: nat, block: InBlock, p: nat)
    requires Window(input, start, i, block, p) && p < block.size
    ensures start + i < |input.Data()| && block.mem[block.start + p] == input.Data()[start + i]
    ensures Window(input, start, i + 1, block, p + 1)
  {
    var data := input.Data();
    var from := start + i;
    var to := input.ByteCount();
    assert block.Bytes()[p..][0] == data[from..to][0];
    assert block.Bytes()[p + 1..] == block.Bytes()[p..][1..];
    assert data[from + 1..to] == data[from..to][1..];
  }

  /** How a read of at most maxBytes bytes from `rest` ends, given whether
      it succeeded, the value it produced and how many bytes it consumed: it
      succeeds exactly when ParseVarint decodes, and then yields that value
      reduced modulo `modulus` and consumes exactly the varint; when rest
      ends inside the varint it consumes all of rest; when maxBytes bytes all
      carry the continuation bit it consumes at least those. On failure the
      value is what the groups read add up to. */
  ghost predicate ReadEnds(rest: seq<uint8>, maxBytes: nat, modulus: nat, ok: bool, value: nat, consumed: int)
    requires modulus >= 1
  {
    var r := ParseVarint(rest, maxBytes);
    (ok <==> r.Decoded?) &&
    (r.Decoded? ==> value == r.value % modulus && consumed == r.length) &&
    (r.Truncated? ==> value == GroupsValue(rest) % modulus && consumed == |rest|) &&
    (r.TooLong? ==> value == GroupsValue(rest[..maxBytes]) % modulus && consumed >= maxBytes)
  }

  /** The reader's progress through rest: the first i bytes all carry the
      continuation bit, acc holds their groups, and the rest of the parse
      from byte i on ends as the whole parse does. */
  ghost predicate Scanned(rest: seq<uint8>, i: nat, maxBytes: nat, acc: nat)
  {
    i <= maxBytes && i <= |rest| &&
    (forall k :: 0 <= k < i ==> rest[k] >= 0x80) &&
    ParseFrom(rest, i, maxBytes) == ParseFrom(rest, 0, maxBytes) &&
    acc == GroupsValue(rest[..i])
  }

  /** Reading byte i adds its group at weight 128^i; a byte without the
      continuation bit ends the read there, successfully, any other one
      keeps Scanned. */
  lemma ScanStep(rest: seq<uint8>, i: nat, maxBytes: nat, acc: nat, byte: uint8, modulus: nat)
    requires Scanned(rest, i, maxBytes, acc) && i < maxBytes && i < |rest| && byte == rest[i]
    requires modulus >= 1
    ensures byte < 0x80 ==>
      ReadEnds(rest, maxBytes, modulus, true, (acc + GroupAt(byte, i)) % modulus, i + 1)
    ensures byte >= 0x80 ==> Scanned(rest, i + 1, maxBytes, acc + GroupAt(byte, i))
  {
    GroupsValueStep(rest, i);
  }

  /** A reader that stops without a terminator, at the end of rest or after
      maxBytes bytes, ends as ReadEnds says. */
  lemma ScanEnd(rest: seq<uint8>, i: nat, maxBytes: nat, acc: nat, modulus: nat, consumed: int)
    requires Scanned(rest, i, maxBytes, acc) && modulus >= 1
    requires (i == maxBytes && consumed >= maxBytes) || (i == |rest| == consumed)
    ensures ReadEnds(rest, maxBytes, modulus, false, acc % modulus, consumed)
  {
    assert rest[..|rest|] == rest;
  }

  /** `ReadVarint32`: reads a varint of at most five bytes into 32 bits. */
  method ReadVarint32(input: InputStream) returns (ok: bool, value: uint32)
    requires input.Valid()
    modifies input.Obj()
    ensures input.Valid()
    ensures 0 <= old(input.ByteCount()) <= input.ByteCount() <= |input.Data()|
    ensures ReadEnds(input.Data()[old(input.ByteCount())..], MaxVarint32Bytes, TwoTo32,
                     ok, value, input.ByteCount() - old(input.ByteCount()))
  {
    var v;
    ok, v := ReadVarint(input, MaxVarint32Bytes, TwoTo32);
    value := v;
  }

  /** `ReadVarint64`, reading up to kMaxVarint64Bytes = 10 bytes (the source
      stops after nine; see the AsWritten module): reads a varint into 64
      bits. */
  method ReadVarint64(input: InputStream) returns (ok: bool, value: uint64)
    requires input.Valid()
    modifies input.Obj()
    ensures input.Valid()
    ensures 0 <= old(input.ByteCount()) <= input.ByteCount() <= |input.Data()|
    ensures ReadEnds(input.Data()[old(input.ByteCount())..], MaxVarint64Bytes, TwoTo64,
                     ok, value, input.ByteCount() - old(input.ByteCount()))
  {
    var v;
    ok, v := ReadVarint(input, MaxVarint64Bytes, TwoTo64);
    value := v;
  }
}
