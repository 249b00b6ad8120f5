/**
  The base-128 varint of the Protocol Buffers wire encoding ("Base 128 Varints"):
  an unsigned integer is cut into 7-bit groups, least significant first; every
  byte but the last carries the continuation bit 0x80.

  This module is the specification shared by the stream codec (WriteVarint32/64,
  ReadVarint32/64 in zero_copy_stream.h) and the raw-buffer codec
  (encode_varint / decode_varint in tlv.hpp).
*/
module Varint {
  import opened Bytes

  /** kMaxVarint32Bytes and kMaxVarint64Bytes. */
  const MaxVarint32Bytes: nat := 5
  const MaxVarint64Bytes: nat := 10

  /** The canonical (shortest) encoding of v. A byte `(v & 0x7F) | 0x80` is
      `v % 0x80 + 0x80`; `v >>= 7` is `v / 0x80`. */
  function VarintBytes(v: nat): (r: seq<uint8>)
    decreases v
  {
    if v < 0x80 then [v] else [v % 0x80 + 0x80] + VarintBytes(v / 0x80)
  }

  /** The value the 7-bit groups of s carry, least significant group first;
      continuation bits are ignored (`byte & 0x7F`). */
  function GroupsValue(s: seq<uint8>): (n: nat)
  {
    if s == [] then 0 else s[0] % 0x80 + 0x80 * GroupsValue(s[1..])
  }

  /** How a reader that gives up after maxBytes bytes ends. */
  datatype Parsed = Decoded(value: nat, length: nat) | Truncated | TooLong

  /** The reading loop, from byte i on: give up once maxBytes bytes carried the
      continuation bit, fail when the input ends first, stop at the first byte
      without the continuation bit. */
  function ParseFrom(bytes: seq<uint8>, i: nat, maxBytes: nat): (r: Parsed)
    decreases maxBytes - i
  {
    if i >= maxBytes then TooLong
    else if i >= |bytes| then Truncated
    else if bytes[i] < 0x80 then Decoded(GroupsValue(bytes[..i + 1]), i + 1)
    else ParseFrom(bytes, i + 1, maxBytes)
  }

  /** Shape of every outcome of ParseFrom when the first i bytes all continue. */
  lemma {:induction false} ParseFromShape(bytes: seq<uint8>, i: nat, maxBytes: nat)
    requires forall k :: 0 <= k < i && k < |bytes| ==> bytes[k] >= 0x80
    requires i <= |bytes| || i >= maxBytes
    ensures var r := ParseFrom(bytes, i, maxBytes);
      (r.Decoded? ==>
         i < r.length <= maxBytes && r.length <= |bytes| && bytes[r.length - 1] < 0x80 &&
         r.value == GroupsValue(bytes[..r.length]) &&
         forall k :: 0 <= k < r.length - 1 ==> bytes[k] >= 0x80) &&
      (r.Truncated? ==> |bytes| < maxBytes && forall k :: 0 <= k < |bytes| ==> bytes[k] >= 0x80) &&
      (r.TooLong? ==> (i >= maxBytes || maxBytes <= |bytes|) &&
                      forall k :: 0 <= k < maxBytes && k < |bytes| ==> bytes[k] >= 0x80)
    decreases maxBytes - i
  {
    if i >= maxBytes || i >= |bytes| || bytes[i] < 0x80 {
    } else {
      ParseFromShape(bytes, i + 1, maxBytes);
    }
  }

  /** Reading a varint of at most maxBytes bytes from the front of `bytes`.
      The three outcomes are told apart by the continuation bits alone: it
      decodes exactly up to the first byte without the bit (within maxBytes),
      is truncated when the input ends while every byte had the bit, and is too
      long when maxBytes bytes all had the bit. It never looks past maxBytes. */
  function ParseVarint(bytes: seq<uint8>, maxBytes: nat): (r: Parsed)
    ensures r.Decoded? ==>
      1 <= r.length <= maxBytes && r.length <= |bytes| && bytes[r.length - 1] < 0x80 &&
      (forall k :: 0 <= k < r.length - 1 ==> bytes[k] >= 0x80) &&
      r.value == GroupsValue(bytes[..r.length])
    ensures r.Truncated? ==> |bytes| < maxBytes && forall k :: 0 <= k < |bytes| ==> bytes[k] >= 0x80
    ensures r.TooLong? ==> maxBytes <= |bytes| && forall k :: 0 <= k < maxBytes ==> bytes[k] >= 0x80
  {
    ParseFromShape(bytes, 0, maxBytes);
    ParseFrom(bytes, 0, maxBytes)
  }

  /** Parsing depends only on the bytes up to the terminator: appending more
      input does not change a decoded result. */
  lemma ParseVarintPrefix(bytes: seq<uint8>, more: seq<uint8>, maxBytes: nat)
    requires ParseVarint(bytes, maxBytes).Decoded?
    ensures ParseVarint(bytes + more, maxBytes) == ParseVarint(bytes, maxBytes)
  {
    var r := ParseVarint(bytes, maxBytes);
    var b := bytes + more;
    assert b[..r.length] == bytes[..r.length];
    assert b[r.length - 1] < 0x80;
  }

  /** Appending one group: its weight is 128 to the number of groups before it. */
  lemma {:induction false} GroupsValueSnoc(s: seq<uint8>, b: uint8)
    ensures GroupsValue(s + [b]) == GroupsValue(s) + (b % 0x80) * Pow128(|s|)
  {
    if s == [] {
      assert [b][1..] == [];
    } else {
      assert (s + [b])[1..] == s[1..] + [b];
      GroupsValueSnoc(s[1..], b);
    }
  }

  /** What byte b contributes as the i-th group (`(b & 0x7F) << 7i`). */
  function GroupAt(b: uint8, i: nat): (g: nat)
  {
    (b % 0x80) * Pow128(i)
  }

  /** The groups of one more byte of the same input. */
  lemma GroupsValueStep(s: seq<uint8>, i: nat)
    requires i < |s|
    ensures GroupsValue(s[..i + 1]) == GroupsValue(s[..i]) + GroupAt(s[i], i)
  {
    assert s[..i + 1] == s[..i] + [s[i]];
    GroupsValueSnoc(s[..i], s[i]);
  }

  /** The canonical encoding is well formed: one to many bytes, the
      continuation bit on every byte but the last, and its groups reassemble v. */
  lemma {:induction false} VarintBytesShape(v: nat)
    ensures |VarintBytes(v)| >= 1
    ensures VarintBytes(v)[|VarintBytes(v)| - 1] < 0x80
    ensures forall k :: 0 <= k < |VarintBytes(v)| - 1 ==> VarintBytes(v)[k] >= 0x80
    ensures GroupsValue(VarintBytes(v)) == v
    decreases v
  {
    if v >= 0x80 {
      VarintBytesShape(v / 0x80);
      var e := VarintBytes(v);
      assert e[1..] == VarintBytes(v / 0x80);
    }
  }

  /** Minimality: the encoding of v fits in k >= 1 bytes exactly when v < 128^k,
      so its length is the number of 7-bit groups v needs (zero needs one). */
  lemma {:induction false} VarintBytesLength(v: nat, k: nat)
    requires k >= 1
    ensures |VarintBytes(v)| <= k <==> v < Pow128(k)
    decreases v
  {
    if v >= 0x80 {
      if k == 1 {
        assert Pow128(1) == 0x80;
      } else {
        VarintBytesLength(v / 0x80, k - 1);
        assert v / 0x80 < Pow128(k - 1) <==> v < 0x80 * Pow128(k - 1);
      }
    } else {
      assert Pow128(k) >= 0x80 by {
        assert Pow128(k) == 0x80 * Pow128(k - 1);
      }
    }
  }

  /** The canonical encoding reads back as the same value and exactly its own
      length, whatever follows it, provided it fits the reader's byte limit. */
  lemma VarintRoundTrip(v: nat, rest: seq<uint8>, maxBytes: nat)
    requires maxBytes >= 1 && v < Pow128(maxBytes)
    ensures ParseVarint(VarintBytes(v) + rest, maxBytes) == Decoded(v, |VarintBytes(v)|)
  {
    var e := VarintBytes(v);
    var b := e + rest;
    VarintBytesShape(v);
    VarintBytesLength(v, maxBytes);
    assert b[|e| - 1] < 0x80;
    assert b[..|e|] == e;
  }

  lemma Pow128Values()
    ensures Pow128(5) == 0x8_0000_0000
    ensures Pow128(9) == 0x8000_0000_0000_0000
    ensures Pow128(10) == 0x40_0000_0000_0000_0000
  {
    assert Pow128(1) == 0x80;
    assert Pow128(2) == 0x4000;
    assert Pow128(3) == 0x20_0000;
    assert Pow128(4) == 0x1000_0000;
  }

  /** A 32-bit value takes one to five bytes and reads back through a 5-byte
      reader; reduction to 32 bits leaves it unchanged. */
  lemma Varint32RoundTrip(v: uint32, rest: seq<uint8>)
    ensures 1 <= |VarintBytes(v)| <= MaxVarint32Bytes
    ensures ParseVarint(VarintBytes(v) + rest, MaxVarint32Bytes) == Decoded(v, |VarintBytes(v)|)
    ensures v % TwoTo32 == v
  {
    Pow128Values();
    VarintBytesShape(v);
    VarintBytesLength(v, MaxVarint32Bytes);
    VarintRoundTrip(v, rest, MaxVarint32Bytes);
  }

  /** A 64-bit value takes one to ten bytes and reads back through a 10-byte
      reader; reduction to 64 bits leaves it unchanged. */
  lemma Varint64RoundTrip(v: uint64, rest: seq<uint8>)
    ensures 1 <= |VarintBytes(v)| <= MaxVarint64Bytes
    ensures ParseVarint(VarintBytes(v) + rest, MaxVarint64Bytes) == Decoded(v, |VarintBytes(v)|)
    ensures v % TwoTo64 == v
  {
    Pow128Values();
    VarintBytesShape(v);
    VarintBytesLength(v, MaxVarint64Bytes);
    VarintRoundTrip(v, rest, MaxVarint64Bytes);
  }
}
