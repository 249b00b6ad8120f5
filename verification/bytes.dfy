/** Byte-level vocabulary shared by the zero-copy stream layer and the TLV layer. */
module Bytes {

  /** C++ `uint8_t`. */
  type uint8 = x: int | 0 <= x < 0x100

  /** C++ `uint32_t`. */
  type uint32 = x: int | 0 <= x < 0x1_0000_0000

  /** C++ `uint64_t` (also `size_t` on the 64-bit hosts the code targets). */
  type uint64 = x: int | 0 <= x < 0x1_0000_0000_0000_0000

  const TwoTo32: nat := 0x1_0000_0000
  const TwoTo64: nat := 0x1_0000_0000_0000_0000

  /** 128^k: the weight of the k-th 7-bit group of a varint. */
  function Pow128(k: nat): (p: nat)
    ensures p >= 1
  {
    if k == 0 then 1 else 0x80 * Pow128(k - 1)
  }

  /** The four bytes a little-endian host stores for a 32-bit word, lowest first. */
  function LittleEndian32(u: uint32): (r: seq<uint8>)
  {
    [u % 0x100, (u / 0x100) % 0x100, (u / 0x1_0000) % 0x100, u / 0x100_0000]
  }

  /** The 32-bit word a little-endian host reads from four bytes. */
  function FromLittleEndian32(b: seq<uint8>): (u: uint32)
    requires |b| == 4
  {
    var w: int := b[0] as int + 0x100 * b[1] as int + 0x1_0000 * b[2] as int + 0x100_0000 * b[3] as int;
    w
  }

  /** Reading back the four stored bytes gives the stored word. */
  lemma LittleEndian32RoundTrip(u: uint32)
    ensures |LittleEndian32(u)| == 4
    ensures FromLittleEndian32(LittleEndian32(u)) == u
  {
    var q1 := u / 0x100;
    var q2 := q1 / 0x100;
    assert u == u % 0x100 + 0x100 * q1;
    assert q1 == q1 % 0x100 + 0x100 * q2;
    assert q2 == q2 % 0x100 + 0x100 * (q2 / 0x100);
    assert u / 0x1_0000 == q2;
    assert u / 0x100_0000 == q2 / 0x100;
  }

  /** Storing a word read from four bytes reproduces those bytes: the byte
      order is a bijection between words and 4-byte sequences. */
  lemma FromLittleEndian32RoundTrip(b: seq<uint8>)
    requires |b| == 4
    ensures LittleEndian32(FromLittleEndian32(b)) == b
  {
    var u := FromLittleEndian32(b);
    assert u / 0x100 == b[1] as int + 0x100 * b[2] as int + 0x1_0000 * b[3] as int;
    assert u / 0x1_0000 == b[2] as int + 0x100 * b[3] as int;
    assert u / 0x100_0000 == b[3];
  }
}
