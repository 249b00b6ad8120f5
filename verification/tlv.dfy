/**
  The TLV value layer of tlv.hpp: a one-byte type tag followed by the payload,
  written into and read from a raw caller buffer (it does not use the streams).

  Payloads: INT32 is the 4 bytes of the two's-complement value, FLOAT32 the 4
  bytes of the IEEE-754 bit pattern (kept opaque here), STRING a varint length
  followed by the raw bytes. The 4-byte payloads are `memcpy` copies of a host
  word; the model assumes a little-endian host.

  The serializers fill the caller's array in place and are methods; the
  deserializers only read and are functions over the buffer's contents.
  Nothing in tlv.hpp checks the buffer length: the bytes each operation touches
  must exist, which the model states as preconditions.
*/
module Tlv {
  import opened Bytes
  import opened Varint

  /** The wire tags: `enum class Type : uint8_t`. */
  datatype Type = INT32 | FLOAT32 | STRING
  {
    function Tag(): (t: uint8)
    {
      match this
      case INT32 => 1
      case FLOAT32 => 2
      case STRING => 3
    }
  }

  /** The two `std::runtime_error`s the decoders throw. */
  datatype Error = TypeMismatch(expected: Type) | VarintTooLong

  datatype Result<T> = Ok(value: T) | Err(error: Error)

  /** C++ `int32_t`. */
  type int32 = x: int | -0x8000_0000 <= x < 0x8000_0000

  /** The two's-complement bit pattern of an int32. */
  function Int32Bits(v: int32): (u: uint32)
  {
    if v < 0 then v + TwoTo32 else v
  }

  /** The int32 whose bit pattern is u. */
  function Int32FromBits(u: uint32): (v: int32)
  {
    if u >= 0x8000_0000 then u - TwoTo32 else u
  }

  /** `return value;` from a function declared to return size_t: the int32 is
      sign-extended to 64 bits. */
  function SizeFromInt32(v: int32): (x: uint64)
  {
    if v < 0 then v + TwoTo64 else v
  }

  /** `int32_t out = <size_t>;`: keep the low 32 bits. */
  function Int32FromSize(x: uint64): (v: int32)
  {
    Int32FromBits(x % TwoTo32)
  }

  /** Narrowing back what was widened on return gives the original value, so
      the size_t return type of deserialize_int32 is harmless to its callers. */
  lemma SizeRoundTrip(v: int32)
    ensures Int32FromSize(SizeFromInt32(v)) == v
    ensures v < 0 ==> SizeFromInt32(v) >= 0x8000_0000_0000_0000
  {
  }

  /** The bytes serialize_int32 writes. */
  function EncodedInt32(v: int32): (r: seq<uint8>)
  {
    [INT32.Tag()] + LittleEndian32(Int32Bits(v))
  }

  /** The bytes serialize_float32 writes for a float whose bit pattern is bits. */
  function EncodedFloat32(bits: uint32): (r: seq<uint8>)
  {
    [FLOAT32.Tag()] + LittleEndian32(bits)
  }

  /** The bytes serialize_string writes: `str.size()` is passed to
      encode_varint as a uint32_t, so the length is taken modulo 2^32. */
  function EncodedString(str: seq<uint8>): (r: seq<uint8>)
  {
    [STRING.Tag()] + VarintBytes(|str| % TwoTo32) + str
  }

  /** encode_varint: writes the canonical varint of value at buffer[at..] and
      returns how many bytes it wrote, touching nothing else. */
  method EncodeVarint(value: uint32, buffer: array<uint8>, at: nat) returns (n: nat)
    requires at + |VarintBytes(value)| <= buffer.Length
    modifies buffer
    ensures n == |VarintBytes(value)| && 1 <= n <= MaxVarint32Bytes
    ensures buffer[at..at + n] == VarintBytes(value)
    ensures buffer[..at] == old(buffer[..at])
    ensures buffer[at + n..] == old(buffer[at + n..])
  {
    Varint32RoundTrip(value, []);
    ghost var enc := VarintBytes(value);
    ghost var before := buffer[..];
    var v: nat := value;
    n := 0;
    while v > 127
      invariant n + |VarintBytes(v)| == |enc| && enc[n..] == VarintBytes(v)
      invariant forall k :: 0 <= k < n ==> buffer[at + k] == enc[k]
      invariant forall k :: 0 <= k < at ==> buffer[k] == before[k]
      invariant forall k :: at + n <= k < buffer.Length ==> buffer[k] == before[k]
      decreases v
    {
      buffer[at + n] := v % 0x80 + 0x80;
      assert enc[n + 1..] == VarintBytes(v)[1..];
      v := v / 0x80;
      n := n + 1;
    }
    buffer[at + n] := v;
    assert enc[n] == v by {
      assert enc[n..] == [v];
    }
    n := n + 1;
    OnlyWindowChanged(buffer[..], before, enc, at);
  }

  /** A sequence that agrees with `before` outside [at, at + |enc|) and with
      enc inside it is `before` with that window replaced by enc. */
  lemma OnlyWindowChanged(after: seq<uint8>, before: seq<uint8>, enc: seq<uint8>, at: nat)
    requires |after| == |before| && at + |enc| <= |after|
    requires forall k :: 0 <= k < |enc| ==> after[at + k] == enc[k]
    requires forall k :: 0 <= k < |after| && !(at <= k < at + |enc|) ==> after[k] == before[k]
    ensures after[at..at + |enc|] == enc
    ensures after[..at] == before[..at] && after[at + |enc|..] == before[at + |enc|..]
  {
  }

  /** decode_varint: reads a varint from the front of buffer; returns the value
      (reduced to 32 bits: the fifth group is shifted by 28, and only its low
      four bits fit) and the number of bytes read, or fails once a fifth byte
      still carries the continuation bit. Requires the bytes it reads to exist. */
  method DecodeVarint(buffer: seq<uint8>) returns (r: Result<(uint32, nat)>)
    requires !ParseVarint(buffer, MaxVarint32Bytes).Truncated?
    ensures ParseVarint(buffer, MaxVarint32Bytes).Decoded? ==>
      r == Ok((ParseVarint(buffer, MaxVarint32Bytes).value % TwoTo32,
               ParseVarint(buffer, MaxVarint32Bytes).length))
    ensures ParseVarint(buffer, MaxVarint32Bytes).TooLong? ==> r == Err(VarintTooLong)
  {
    var value: nat := 0;
    var weight: nat := 1;
    var shift: nat := 0;
    var i: nat := 0;
    while true
      invariant i < MaxVarint32Bytes && shift == 7 * i && i <= |buffer|
      invariant weight == Pow128(i)
      invariant value == GroupsValue(buffer[..i])
      invariant ParseFrom(buffer, i, MaxVarint32Bytes) == ParseVarint(buffer, MaxVarint32Bytes)
      decreases MaxVarint32Bytes - i
    {
      var byte := buffer[i];
      assert buffer[..i + 1] == buffer[..i] + [byte];
      GroupsValueSnoc(buffer[..i], byte);
      value := value + (byte % 0x80) * weight;
      weight := weight * 0x80;
      i := i + 1;
      if byte < 0x80 {
        return Ok((value % TwoTo32, i));
      }
      shift := shift + 7;
      if shift > 28 {
        return Err(VarintTooLong);
      }
    }
  }

  /** serialize_int32: writes the INT32 tag and the four value bytes, returns 5,
      and leaves the rest of the buffer as it was. */
  method SerializeInt32(buffer: array<uint8>, value: int32) returns (n: nat)
    requires buffer.Length >= 5
    modifies buffer
    ensures n == 5 && buffer[..n] == EncodedInt32(value)
    ensures buffer[n..] == old(buffer[n..])
  {
    buffer[0] := INT32.Tag();
    var payload := LittleEndian32(Int32Bits(value));
    forall j | 0 <= j < 4 {
      buffer[1 + j] := payload[j];
    }
    n := 5;
  }

  /** deserialize_int32: fails with a type mismatch exactly when the first byte
      is not the INT32 tag; otherwise returns the value whose INT32 encoding the
      first five bytes are (sign-extended to size_t, as the source returns it). */
  function DeserializeInt32(buffer: seq<uint8>): (r: Result<uint64>)
    requires |buffer| >= 1 && (buffer[0] == INT32.Tag() ==> |buffer| >= 5)
    ensures r.Err? <==> buffer[0] != INT32.Tag()
    ensures r.Err? ==> r.error == TypeMismatch(INT32)
    ensures r.Ok? ==> EncodedInt32(Int32FromSize(r.value)) == buffer[..5]
    ensures r.Ok? ==> r.value == SizeFromInt32(Int32FromSize(r.value))
  {
    if buffer[0] != INT32.Tag() then
      Err(TypeMismatch(INT32))
    else
      var bits := FromLittleEndian32(buffer[1..5]);
      FromLittleEndian32RoundTrip(buffer[1..5]);
      assert Int32Bits(Int32FromBits(bits)) == bits;
      SizeRoundTrip(Int32FromBits(bits));
      assert buffer[..5] == [buffer[0]] + buffer[1..5];
      Ok(SizeFromInt32(Int32FromBits(bits)))
  }

  /** Round trip: what serialize_int32 writes reads back as the same value,
      whatever follows it in the buffer (the test values 192, INT32_MIN and
      INT32_MAX among them). */
  lemma Int32RoundTrip(v: int32, rest: seq<uint8>)
    ensures |EncodedInt32(v) + rest| >= 5
    ensures DeserializeInt32(EncodedInt32(v) + rest) == Ok(SizeFromInt32(v))
    ensures Int32FromSize(SizeFromInt32(v)) == v
  {
    LittleEndian32RoundTrip(Int32Bits(v));
    SizeRoundTrip(v);
    var b := EncodedInt32(v) + rest;
    assert b[1..5] == LittleEndian32(Int32Bits(v));
  }

  /** serialize_float32: writes the FLOAT32 tag and the four bytes of the bit
      pattern, returns 5, and leaves the rest of the buffer as it was. */
  method SerializeFloat32(buffer: array<uint8>, bits: uint32) returns (n: nat)
    requires buffer.Length >= 5
    modifies buffer
    ensures n == 5 && buffer[..n] == EncodedFloat32(bits)
    ensures buffer[n..] == old(buffer[n..])
  {
    buffer[0] := FLOAT32.Tag();
    var payload := LittleEndian32(bits);
    forall j | 0 <= j < 4 {
      buffer[1 + j] := payload[j];
    }
    n := 5;
  }

  /** deserialize_float32: fails with a type mismatch exactly when the first
      byte is not the FLOAT32 tag; otherwise returns the bit pattern whose
      FLOAT32 encoding the first five bytes are. */
  function DeserializeFloat32(buffer: seq<uint8>): (r: Result<uint32>)
    requires |buffer| >= 1 && (buffer[0] == FLOAT32.Tag() ==> |buffer| >= 5)
    ensures r.Err? <==> buffer[0] != FLOAT32.Tag()
    ensures r.Err? ==> r.error == TypeMismatch(FLOAT32)
    ensures r.Ok? ==> EncodedFloat32(r.value) == buffer[..5]
  {
    if buffer[0] != FLOAT32.Tag() then
      Err(TypeMismatch(FLOAT32))
    else
      FromLittleEndian32RoundTrip(buffer[1..5]);
      assert buffer[..5] == [buffer[0]] + buffer[1..5];
      Ok(FromLittleEndian32(buffer[1..5]))
  }

  /** Round trip, bit for bit (so NaN and infinities come back unchanged). */
  lemma Float32RoundTrip(bits: uint32, rest: seq<uint8>)
    ensures |EncodedFloat32(bits) + rest| >= 5
    ensures DeserializeFloat32(EncodedFloat32(bits) + rest) == Ok(bits)
  {
    LittleEndian32RoundTrip(bits);
    var b := EncodedFloat32(bits) + rest;
    assert b[1..5] == LittleEndian32(bits);
  }

  /** serialize_string: writes the STRING tag, the varint length and the raw
      bytes, returns 1 + length-of-varint + |str|, and leaves the rest of the
      buffer as it was. */
  method SerializeString(buffer: array<uint8>, str: seq<uint8>) returns (n: nat)
    requires |EncodedString(str)| <= buffer.Length
    modifies buffer
    ensures n == |EncodedString(str)| && buffer[..n] == EncodedString(str)
    ensures buffer[n..] == old(buffer[n..])
  {
    buffer[0] := STRING.Tag();
    var lenBytes := EncodeVarint(|str| % TwoTo32, buffer, 1);
    forall j | 0 <= j < |str| {
      buffer[1 + lenBytes + j] := str[j];
    }
    n := 1 + lenBytes + |str|;
    assert buffer[..n] == [buffer[0]] + buffer[1..1 + lenBytes] + buffer[1 + lenBytes..n];
  }

  /** What deserialize_string reads must lie inside the buffer: the varint
      length (unless it is over-long) and then that many bytes. */
  predicate StringInBounds(buffer: seq<uint8>)
    requires |buffer| >= 1
  {
    var p := ParseVarint(buffer[1..], MaxVarint32Bytes);
    !p.Truncated? && (p.Decoded? ==> 1 + p.length + p.value % TwoTo32 <= |buffer|)
  }

  /** deserialize_string: fails with a type mismatch exactly when the first
      byte is not the STRING tag, and with "Varint too long" when the length
      does not end within five bytes; otherwise returns the string and, as
      out_size, the number of bytes consumed, the string being the last of
      them, right after the tag and the length, and as long as the length
      varint says (modulo 2^32, the width of `uint32_t len`), whether or not
      that varint is in its shortest form. */
  function DeserializeString(buffer: seq<uint8>): (r: Result<(seq<uint8>, nat)>)
    requires |buffer| >= 1
    requires buffer[0] == STRING.Tag() ==> StringInBounds(buffer)
    ensures r.Err? && r.error.TypeMismatch? <==> buffer[0] != STRING.Tag()
    ensures r.Err? ==> r.error == (if buffer[0] != STRING.Tag() then TypeMismatch(STRING) else VarintTooLong)
    ensures buffer[0] == STRING.Tag() ==> (r.Ok? <==> ParseVarint(buffer[1..], MaxVarint32Bytes).Decoded?)
    ensures r.Ok? ==>
      var (str, size) := r.value;
      2 + |str| <= size <= |buffer| && buffer[size - |str|..size] == str &&
      ParseVarint(buffer[1..], MaxVarint32Bytes).Decoded? &&
      ParseVarint(buffer[1..], MaxVarint32Bytes).length == size - 1 - |str| &&
      |str| == ParseVarint(buffer[1..], MaxVarint32Bytes).value % TwoTo32
  {
    if buffer[0] != STRING.Tag() then
      Err(TypeMismatch(STRING))
    else
      var length := ParseVarint(buffer[1..], MaxVarint32Bytes);
      if length.Decoded? then
        var size := 1 + length.length + length.value % TwoTo32;
        Ok((buffer[1 + length.length..size], size))
      else
        Err(VarintTooLong)
  }

  /** Round trip: what serialize_string writes reads back as the identical
      string, with out_size equal to the count serialize_string returned
      (the empty string and long strings alike, up to 2^32 - 1 bytes). */
  lemma StringRoundTrip(str: seq<uint8>, rest: seq<uint8>)
    requires |str| < TwoTo32
    ensures var b := EncodedString(str) + rest;
      StringInBounds(b) && DeserializeString(b) == Ok((str, |EncodedString(str)|))
  {
    var e := VarintBytes(|str|);
    var b := EncodedString(str) + rest;
    assert b[1..] == e + (str + rest);
    Varint32RoundTrip(|str|, str + rest);
    assert b[1 + |e|..1 + |e| + |str|] == str;
  }

  /** deserialize_string also accepts a length that is not in its shortest
      form: 0x82 0x00 is 2 written in two bytes, so "ab" comes back with all
      five bytes consumed. */
  lemma LongFormLength()
    ensures StringInBounds([0x03, 0x82, 0x00, 0x61, 0x62])
    ensures DeserializeString([0x03, 0x82, 0x00, 0x61, 0x62]) == Ok(([0x61, 0x62], 5))
  {
    var b: seq<uint8> := [0x03, 0x82, 0x00, 0x61, 0x62];
    var len := b[1..];
    assert len[..2] == [0x82, 0x00] && len[..2][1..] == [0x00] && len[..2][1..][1..] == [];
    assert GroupsValue([]) == 0;
    assert GroupsValue([0x00]) == 0;
    assert GroupsValue(len[..2]) == 2;
    assert ParseFrom(len, 1, MaxVarint32Bytes) == Decoded(2, 2);
    assert ParseVarint(len, MaxVarint32Bytes) == Decoded(2, 2);
    assert b[3..5] == [0x61, 0x62];
  }
}
