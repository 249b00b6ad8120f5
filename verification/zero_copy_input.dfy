/**
  The input half of zero_copy_stream.h: the ZeroCopyInputStream interface, its
  default Skip, and the two in-memory backends BufferInputStream (one caller
  buffer) and MultiBufferInputStream (an ordered list of caller chunks).

  The interface is modelled as a closed sum over the two backends: InputStream
  dispatches Next, BackUp and ByteCount to the backend object and implements
  Skip once, on top of them, as the interface's default implementation does.

  Every backend presents the same abstract view:
    Data()      all bytes the stream can ever expose, in order;
    ByteCount() how many of them have been handed out, net of backups;
    Last()      how many bytes a BackUp may still return: the part of the block
                of the last Next that has not been backed up yet;
    Fuel()      a measure that every successful Next decreases (it bounds the
                loops of Skip and of the varint reader).
*/
module ZeroCopyInput {
  import opened Bytes

  /** `MultiBufferInputStream::Chunk`: caller-owned bytes; the (data, size)
      pair is the sequence itself. */
  type Chunk = seq<uint8>

  /** A block returned by Next: `size` bytes of `mem` from offset `start`.
      The (offset, length) pair stands for the pointer the source returns;
      `mem` is the caller's memory the block lies in, never a copy. */
  datatype InBlock = InBlock(mem: seq<uint8>, start: nat, size: nat)
  {
    predicate Valid()
    {
      start + size <= |mem|
    }

    function Bytes(): (r: seq<uint8>)
      requires Valid()
    {
      mem[start..start + size]
    }
  }

  /** The bytes of a chunk list, chunk after chunk. */
  function Flatten(chunks: seq<Chunk>): (r: seq<uint8>)
  {
    if chunks == [] then [] else Flatten(chunks[..|chunks| - 1]) + chunks[|chunks| - 1]
  }

  lemma FlattenSnoc(chunks: seq<Chunk>, i: nat)
    requires i < |chunks|
    ensures Flatten(chunks[..i + 1]) == Flatten(chunks[..i]) + chunks[i]
  {
    assert chunks[..i + 1][..i] == chunks[..i];
  }

  /** The bytes of the first i chunks are a prefix of the bytes of all of them. */
  lemma {:induction false} FlattenPrefix(chunks: seq<Chunk>, i: nat)
    requires i <= |chunks|
    ensures Flatten(chunks[..i]) <= Flatten(chunks)
    decreases |chunks| - i
  {
    if i == |chunks| {
      assert chunks[..i] == chunks;
    } else {
      FlattenPrefix(chunks, i + 1);
      FlattenSnoc(chunks, i);
    }
  }

  /** Serving chunk i right after the first i chunks hands out the next
      stretch of the flattened bytes. */
  lemma ChunkIsNextStretch(chunks: seq<Chunk>, i: nat)
    requires i < |chunks|
    ensures var before := |Flatten(chunks[..i])|;
      |Flatten(chunks[..i + 1])| == before + |chunks[i]| &&
      Flatten(chunks[..i + 1]) <= Flatten(chunks) &&
      Flatten(chunks)[before..before + |chunks[i]|] == chunks[i]
  {
    FlattenSnoc(chunks, i);
    FlattenPrefix(chunks, i + 1);
    var before := Flatten(chunks[..i]);
    assert Flatten(chunks)[|before|..|before| + |chunks[i]|] == (before + chunks[i])[|before|..];
  }

  /** The last b bytes of chunk i - 1 are the b bytes that end where the first
      i chunks end. */
  lemma TailIsStretch(chunks: seq<Chunk>, i: nat, b: nat)
    requires 0 < i <= |chunks| && b <= |chunks[i - 1]|
    requires Flatten(chunks[..i]) <= Flatten(chunks)
    ensures var end := |Flatten(chunks[..i])|;
      b <= end && Flatten(chunks)[end - b..end] == chunks[i - 1][|chunks[i - 1]| - b..]
  {
    FlattenSnoc(chunks, i - 1);
    var before := Flatten(chunks[..i - 1]);
    var c := chunks[i - 1];
    assert Flatten(chunks[..i]) == before + c;
    assert (before + c)[|before + c| - b..] == c[|c| - b..];
  }

  /** BufferInputStream: zero-copy reads of one caller buffer. The first Next
      hands out the whole unread rest; BackUp returns a tail of it. */
  class BufferInputStream {
    /** `data_` with `size_ == |data|`. */
    const data: seq<uint8>
    /** `pos_`: bytes handed out so far. */
    var pos: nat
    /** `last_returned_`: what is left of the last block for BackUp. */
    var lastReturned: nat

    ghost predicate Valid()
      reads this
    {
      pos <= |data| && lastReturned <= pos
    }

    constructor (data: seq<uint8>)
      ensures Valid() && this.data == data && pos == 0 && lastReturned == 0
    {
      this.data := data;
      pos := 0;
      lastReturned := 0;
    }

    /** Fails, changing nothing, once everything was handed out; otherwise
        hands out all of data[pos..] and moves pos to the end. */
    method Next() returns (ok: bool, block: InBlock)
      requires Valid()
      modifies this
      ensures Valid()
      ensures ok == (old(pos) < |data|)
      ensures ok ==> block == InBlock(data, old(pos), |data| - old(pos)) && block.Valid() &&
                     pos == |data| && lastReturned == block.size
      ensures !ok ==> unchanged(this)
    {
      if pos >= |data| {
        return false, InBlock([], 0, 0);
      }
      var available := |data| - pos;
      block := InBlock(data, pos, available);
      pos := pos + available;
      lastReturned := available;
      ok := true;
    }

    /** Returns the last `count` bytes of the last block; a count outside
        0..lastReturned throws in the source and is a precondition here. */
    method BackUp(count: int)
      requires Valid() && 0 <= count <= lastReturned
      modifies this
      ensures Valid()
      ensures pos == old(pos) - count && lastReturned == old(lastReturned) - count
    {
      pos := pos - count;
      lastReturned := lastReturned - count;
    }

    /** `ByteCount()`: what has been handed out and not backed up. */
    function ByteCount(): (n: int)
      reads this
    {
      pos
    }

    /** ByteCount lies inside the data and is at least the last block. */
    lemma ByteCountBounds()
      requires Valid()
      ensures lastReturned <= ByteCount() <= |data|
    {
    }
  }

  /** MultiBufferInputStream: zero-copy reads of a list of chunks, one chunk
      per Next; after a BackUp the next Next hands out the backed-up tail of
      the same chunk. */
  class MultiBufferInputStream {
    /** `chunks_`. */
    const chunks: seq<Chunk>
    /** `idx_`: index of the next chunk to serve. */
    var idx: nat
    /** `backed_up_`: bytes at the end of chunks[idx - 1] not yet re-served. */
    var backedUp: nat
    /** `last_size_`: what is left of the last block for BackUp. */
    var lastSize: nat
    /** `total_`: bytes handed out so far, net of backups. */
    var total: int

    ghost predicate Valid()
      reads this
    {
      idx <= |chunks| &&
      (idx == 0 ==> backedUp == 0 && lastSize == 0) &&
      (idx > 0 ==> backedUp + lastSize <= |chunks[idx - 1]|) &&
      |Flatten(chunks[..idx])| <= |Flatten(chunks)| &&
      total == |Flatten(chunks[..idx])| - backedUp
    }

    constructor (chunks: seq<Chunk>)
      ensures Valid() && this.chunks == chunks
      ensures idx == 0 && backedUp == 0 && lastSize == 0 && total == 0
    {
      this.chunks := chunks;
      idx := 0;
      backedUp := 0;
      lastSize := 0;
      total := 0;
      assert chunks[..0] == [];
    }

    /** Bytes of all chunks: what the stream can ever hand out. */
    ghost function Data(): seq<uint8>
    {
      Flatten(chunks)
    }

    /** Next first re-serves a backed-up tail; otherwise serves the next whole
        chunk, or fails, changing nothing, when no chunk is left. Every block
        is the next stretch of Data(). */
    method Next() returns (ok: bool, block: InBlock)
      requires Valid()
      modifies this
      ensures Valid()
      ensures old(backedUp) > 0 ==>
        ok && idx == old(idx) && block.Valid() &&
        block.Bytes() == chunks[idx - 1][|chunks[idx - 1]| - old(backedUp)..]
      ensures old(backedUp) == 0 && old(idx) < |chunks| ==>
        ok && idx == old(idx) + 1 && block == InBlock(chunks[old(idx)], 0, |chunks[old(idx)]|)
      ensures ok == (old(backedUp) > 0 || old(idx) < |chunks|)
      ensures ok ==> block.Valid() && total == old(total) + block.size && lastSize == block.size &&
                     backedUp == 0 && block.Bytes() == Data()[old(total)..total]
      ensures !ok ==> unchanged(this) && idx == |chunks| && backedUp == 0 && total == |Data()|
    {
      if backedUp > 0 {
        var c := chunks[idx - 1];
        block := InBlock(c, |c| - backedUp, backedUp);
        FlattenPrefix(chunks, idx);
        TailIsStretch(chunks, idx, backedUp);
        total := total + backedUp;
        lastSize := backedUp;
        backedUp := 0;
        return true, block;
      }
      if idx >= |chunks| {
        assert chunks[..idx] == chunks;
        return false, InBlock([], 0, 0);
      }
      var c := chunks[idx];
      ChunkIsNextStretch(chunks, idx);
      idx := idx + 1;
      block := InBlock(c, 0, |c|);
      total := total + |c|;
      lastSize := |c|;
      ok := true;
    }

    /** Returns the last `count` bytes of the last block; a count outside
        0..lastSize throws in the source and is a precondition here. The
        returned bytes accumulate, and the chunk index stays, so the next Next
        re-serves exactly them. */
    method BackUp(count: int)
      requires Valid() && 0 <= count <= lastSize
      modifies this
      ensures Valid()
      ensures total == old(total) - count && lastSize == old(lastSize) - count
      ensures backedUp == old(backedUp) + count && idx == old(idx)
    {
      total := total - count;
      backedUp := backedUp + count;
      lastSize := lastSize - count;
    }

    /** `ByteCount()`: bytes handed out so far, net of backups. */
    function ByteCount(): (n: int)
      reads this
    {
      total
    }

    /** ByteCount is the bytes of the chunks served so far, less the
        backed-up tail still pending, and never past the end of the data. */
    lemma ByteCountBounds()
      requires Valid()
      ensures ByteCount() == |Flatten(chunks[..idx])| - backedUp && ByteCount() <= |Data()|
    {
    }
  }

  /** ZeroCopyInputStream: one of the two input backends. */
  datatype InputStream = FromBuffer(single: BufferInputStream) | FromChunks(multi: MultiBufferInputStream)
  {
    /** The backend object; all mutable state of the stream is in it. */
    function Obj(): (o: object)
    {
      if FromBuffer? then single else multi
    }

    ghost predicate Valid()
      reads Obj()
    {
      match this
      case FromBuffer(s) => s.Valid()
      case FromChunks(m) => m.Valid()
    }

    ghost function Data(): seq<uint8>
    {
      match this
      case FromBuffer(s) => s.data
      case FromChunks(m) => m.Data()
    }

    /** `ByteCount()`. */
    function ByteCount(): (n: int)
      reads Obj()
    {
      match this
      case FromBuffer(s) => s.ByteCount()
      case FromChunks(m) => m.ByteCount()
    }

    ghost function Last(): nat
      reads Obj()
    {
      match this
      case FromBuffer(s) => s.lastReturned
      case FromChunks(m) => m.lastSize
    }

    ghost function Fuel(): nat
      requires Valid()
      reads Obj()
    {
      match this
      case FromBuffer(s) => if s.pos < |s.data| then 1 else 0
      case FromChunks(m) => 2 * |m.chunks[m.idx..]| + (if m.backedUp > 0 then 1 else 0)
    }

    /** The handed-out count never passes the end of the data. */
    lemma CountInRange()
      requires Valid()
      ensures 0 <= ByteCount() <= |Data()|
    {
      match this
      case FromBuffer(s) =>
      case FromChunks(m) =>
    }

    /** `Next`: on success the block is exactly the next ByteCount-delta bytes
        of Data() and becomes what BackUp may return; on failure everything was
        handed out already and nothing changes. */
    method Next() returns (ok: bool, block: InBlock)
      requires Valid()
      modifies Obj()
      ensures Valid()
      ensures ok ==> block.Valid() && ByteCount() == old(ByteCount()) + block.size &&
                     block.Bytes() == Data()[old(ByteCount())..ByteCount()] &&
                     Last() == block.size && Fuel() < old(Fuel())
      ensures !ok ==> ByteCount() == old(ByteCount()) == |Data()| && unchanged(Obj())
    {
      match this
      case FromBuffer(s) =>
        ok, block := s.Next();
      case FromChunks(m) =>
        ok, block := m.Next();
    }

    /** `BackUp`: gives back `count` bytes of the last block. */
    method BackUp(count: int)
      requires Valid() && 0 <= count <= Last()
      modifies Obj()
      ensures Valid()
      ensures ByteCount() == old(ByteCount()) - count && Last() == old(Last()) - count
    {
      match this
      case FromBuffer(s) =>
        s.BackUp(count);
      case FromChunks(m) =>
        m.BackUp(count);
    }

    /** `ZeroCopyInputStream::Skip`: skips `count` bytes with Next and BackUp.
        It succeeds exactly when that many bytes are left, and then moves on by
        exactly count; otherwise it consumes everything and fails. A count of
        zero or less succeeds without touching the stream. */
    method Skip(count: int) returns (ok: bool)
      requires Valid()
      modifies Obj()
      ensures Valid()
      ensures ok <==> count <= |Data()| - old(ByteCount())
      ensures ok ==> ByteCount() == old(ByteCount()) + (if count > 0 then count else 0)
      ensures !ok ==> ByteCount() == |Data()|
      ensures count <= 0 ==> unchanged(Obj())
    {
      CountInRange();
      var remaining := count;
      while remaining > 0
        invariant Valid()
        invariant remaining <= count && (remaining < count ==> 0 <= remaining)
        invariant ByteCount() == old(ByteCount()) + (count - remaining)
        invariant count <= 0 ==> unchanged(Obj())
        decreases Fuel()
      {
        var got, block := Next();
        if !got {
          return false;
        }
        if block.size > remaining {
          BackUp(block.size - remaining);
          remaining := 0;
          break;
        }
        remaining := remaining - block.size;
      }
      CountInRange();
      return true;
    }
  }
}
