/**
  The output half of zero_copy_stream.h: the ZeroCopyOutputStream interface,
  its WriteRaw, and the two backends BufferOutputStream (a fixed caller
  buffer) and VectorOutputStream (self-owned growable storage).

  As on the input side, the interface is a closed sum over the two backends:
  OutputStream dispatches Next, BackUp and ByteCount and implements WriteRaw
  once on top of them. Blocks are writable (array, offset, length) triples
  into the backend's memory, and callers write into them directly.

  Every backend presents the same abstract view:
    Backing()   the array the committed bytes live in;
    ByteCount() how many bytes have been handed out, net of backups;
    Contents()  those bytes, Backing()[..ByteCount()];
    Last()      how many bytes a BackUp may still return.
*/
module ZeroCopyOutput {
  import opened Bytes

  /** A writable block returned by Next: `size` cells of `arr` from `start`. */
  datatype OutBlock = OutBlock(arr: array<uint8>, start: nat, size: nat)

  /** The smallest block VectorOutputStream hands out. */
  const MinBlockSize: nat := 64

  /** The block size VectorOutputStream uses when the caller names none. */
  const DefaultBlockSize: nat := 8192

  /** BufferOutputStream: zero-copy writes into a fixed caller buffer of
      `size` bytes. The first Next hands out all the unused room. */
  class BufferOutputStream {
    /** `data_`: the caller's buffer. */
    const data: array<uint8>
    /** `size_`: the room the caller declared. */
    const size: nat
    /** `pos_`: bytes handed out so far. */
    var pos: nat
    /** `last_provided_`: what is left of the last block for BackUp. */
    var lastProvided: nat
    /** `total_`: kept equal to pos (the source never initialises it and never reads it). */
    var total: int
    ghost var Repr: set<object>

    ghost predicate Valid()
      reads this
    {
      Repr == {this, data} && size <= data.Length &&
      pos <= size && lastProvided <= pos && total == pos
    }

    constructor (data: array<uint8>, size: nat)
      requires size <= data.Length
      ensures Valid() && this.data == data && this.size == size
      ensures pos == 0 && lastProvided == 0
    {
      this.data := data;
      this.size := size;
      pos := 0;
      lastProvided := 0;
      total := 0;
      Repr := {this, data};
    }

    /** Fails, changing nothing, once the buffer is full; otherwise hands out
        all of data[pos..size) and moves pos to size. */
    method Next() returns (ok: bool, block: OutBlock)
      requires Valid()
      modifies this
      ensures Valid() && Repr == old(Repr)
      ensures ok == (old(pos) < size)
      ensures ok ==> block == OutBlock(data, old(pos), size - old(pos)) &&
                     pos == size && lastProvided == block.size
      ensures !ok ==> unchanged(this)
    {
      if pos >= size {
        return false, OutBlock(data, 0, 0);
      }
      var available := size - pos;
      block := OutBlock(data, pos, available);
      pos := pos + available;
      lastProvided := available;
      total := total + available;
      ok := true;
    }

    /** Gives back the last `count` bytes of the last block; a count outside
        0..lastProvided throws in the source and is a precondition here. */
    method BackUp(count: int)
      requires Valid() && 0 <= count <= lastProvided
      modifies this
      ensures Valid() && Repr == old(Repr)
      ensures pos == old(pos) - count && lastProvided == old(lastProvided) - count
    {
      pos := pos - count;
      lastProvided := lastProvided - count;
      total := total - count;
    }

    /** `ByteCount()`: the bytes claimed so far. */
    function ByteCount(): (n: int)
      reads this
    {
      pos
    }

    /** ByteCount stays within the declared room and is at least the last
        block. */
    lemma ByteCountBounds()
      requires Valid()
      ensures lastProvided <= ByteCount() <= size
    {
    }
  }

  /** VectorOutputStream: zero-copy writes into self-owned storage that grows
      by one block per Next. `storage` is the vector's memory (its length is
      the capacity) and `length` the vector's size. */
  class VectorOutputStream {
    /** `block_size_`: the requested size, at least MinBlockSize. */
    const blockSize: nat
    var storage: array<uint8>
    /** `buf_.size()`. */
    var length: nat
    /** `size_`: the logical size, which ByteCount reports. */
    var size: int
    /** `last_provided_`. */
    var lastProvided: nat
    /** `total_`. */
    var total: int
    ghost var Repr: set<object>

    ghost predicate Valid()
      reads this
    {
      Repr == {this, storage} && blockSize >= MinBlockSize &&
      length <= storage.Length && size == length && total == length &&
      lastProvided <= length
    }

    /** `VectorOutputStream(block_size)`: the block size is clamped to at
        least 64, and one block's worth of storage is reserved. The source's
        default argument is DefaultBlockSize (8192); Dafny has no default
        arguments, so callers pass it explicitly. */
    constructor (requestedBlockSize: nat)
      ensures Valid() && fresh(Repr)
      ensures blockSize == if requestedBlockSize < MinBlockSize then MinBlockSize else requestedBlockSize
      ensures length == 0 && lastProvided == 0
    {
      blockSize := if requestedBlockSize < MinBlockSize then MinBlockSize else requestedBlockSize;
      storage := new uint8[if requestedBlockSize < MinBlockSize then MinBlockSize else requestedBlockSize];
      length := 0;
      size := 0;
      lastProvided := 0;
      total := 0;
      Repr := {this, storage};
    }

    /** Always succeeds: grows the vector by one zero-filled block
        (reallocating, and copying what is there, when the capacity is short)
        and hands out that block, which starts where the logical size ended. */
    method Next() returns (ok: bool, block: OutBlock)
      requires Valid()
      modifies Repr
      ensures Valid() && fresh(Repr - old(Repr))
      ensures ok && block == OutBlock(storage, old(length), blockSize)
      ensures length == old(length) + blockSize && lastProvided == blockSize
      ensures storage[..old(length)] == old(storage[..length])
      ensures forall k :: old(length) <= k < length ==> storage[k] == 0
    {
      if storage.Length - length < blockSize {
        var grown := new uint8[storage.Length + blockSize];
        forall i | 0 <= i < length {
          grown[i] := storage[i];
        }
        storage := grown;
        Repr := {this, storage};
      }
      forall k | length <= k < length + blockSize {
        storage[k] := 0;
      }
      block := OutBlock(storage, size, blockSize);
      length := length + blockSize;
      size := size + blockSize;
      lastProvided := blockSize;
      total := total + blockSize;
      ok := true;
    }

    /** Gives back the last `count` bytes of the last block and shrinks the
        vector to the logical size; a count outside 0..lastProvided throws in
        the source and is a precondition here. */
    method BackUp(count: int)
      requires Valid() && 0 <= count <= lastProvided
      modifies this
      ensures Valid() && Repr == old(Repr) && storage == old(storage)
      ensures size == old(size) - count && length == old(length) - count
      ensures lastProvided == old(lastProvided) - count
    {
      size := size - count;
      total := total - count;
      lastProvided := lastProvided - count;
      length := size;
    }

    /** `ByteCount()`: `size_`. */
    function ByteCount(): (n: int)
      reads this
    {
      size
    }

    /** ByteCount is always the vector's own size, and at least the last
        block. */
    lemma ByteCountBounds()
      requires Valid()
      ensures ByteCount() == length && lastProvided <= ByteCount()
    {
    }

    /** `buffer()`: the vector's contents, exactly ByteCount() bytes. */
    function Buffer(): (b: seq<uint8>)
      requires Valid()
      reads this, storage
      ensures |b| == ByteCount()
    {
      storage[..length]
    }
  }

  /** Copies src into arr from index start on; every other cell keeps its value. */
  method CopyInto(arr: array<uint8>, start: nat, src: seq<uint8>)
    requires start + |src| <= arr.Length
    modifies arr
    ensures arr[..] == old(arr[..start]) + src + old(arr[start + |src|..])
  {
    forall j | 0 <= j < |src| {
      arr[start + j] := src[j];
    }
    assert arr[..] == old(arr[..start]) + src + old(arr[start + |src|..]);
  }

  /** ZeroCopyOutputStream: one of the two output backends. */
  datatype OutputStream = ToBuffer(fixed: BufferOutputStream) | ToVector(growable: VectorOutputStream)
  {
    /** The backend object; all bookkeeping of the stream is in it. */
    function Obj(): (o: object)
    {
      if ToBuffer? then fixed else growable
    }

    ghost function Repr(): set<object>
      reads Obj()
    {
      match this
      case ToBuffer(b) => b.Repr
      case ToVector(v) => v.Repr
    }

    ghost predicate Valid()
      reads Obj()
    {
      match this
      case ToBuffer(b) => b.Valid()
      case ToVector(v) => v.Valid()
    }

    ghost function Backing(): array<uint8>
      reads Obj()
    {
      match this
      case ToBuffer(b) => b.data
      case ToVector(v) => v.storage
    }

    /** `ByteCount()`. */
    function ByteCount(): (n: int)
      reads Obj()
    {
      match this
      case ToBuffer(b) => b.ByteCount()
      case ToVector(v) => v.ByteCount()
    }

    ghost function Last(): nat
      reads Obj()
    {
      match this
      case ToBuffer(b) => b.lastProvided
      case ToVector(v) => v.lastProvided
    }

    /** The committed bytes. */
    ghost function Contents(): seq<uint8>
      requires Valid()
      reads Obj(), Backing()
    {
      match this
      case ToBuffer(b) => b.data[..b.pos]
      case ToVector(v) => v.storage[..v.length]
    }

    lemma InRepr()
      requires Valid()
      ensures Obj() in Repr() && Backing() in Repr()
      ensures 0 <= ByteCount() <= Backing().Length && Contents() == Backing()[..ByteCount()]
    {
    }

    /** `Next`: on success hands out a non-empty block of Backing() that
        starts at the old ByteCount and is now counted as written, keeping the
        committed bytes; only the fixed buffer can fail, when it is full. */
    method Next() returns (ok: bool, block: OutBlock)
      requires Valid()
      modifies Repr()
      ensures Valid() && fresh(Repr() - old(Repr()))
      ensures ok ==> block.arr == Backing() && block.start == old(ByteCount()) && block.size > 0 &&
                     block.start + block.size <= block.arr.Length &&
                     ByteCount() == old(ByteCount()) + block.size && Last() == block.size &&
                     Contents()[..old(ByteCount())] == old(Contents())
      ensures !ok ==> ToBuffer? && fixed.pos == fixed.size && unchanged(Repr())
      ensures ToVector? ==> ok && block.size == growable.blockSize
      ensures ToBuffer? ==> (ok <==> old(fixed.pos) < fixed.size) && fixed.data[..] == old(fixed.data[..])
    {
      match this
      case ToBuffer(b) =>
        ok, block := b.Next();
      case ToVector(v) =>
        ok, block := v.Next();
    }

    /** `BackUp`: gives back `count` bytes of the last block; the committed
        bytes shrink to a prefix and no memory is touched. */
    method BackUp(count: int)
      requires Valid() && 0 <= count <= Last()
      modifies Obj()
      ensures Valid() && Repr() == old(Repr()) && Backing() == old(Backing())
      ensures ByteCount() == old(ByteCount()) - count && Last() == old(Last()) - count
    {
      match this
      case ToBuffer(b) =>
        b.BackUp(count);
      case ToVector(v) =>
        v.BackUp(count);
    }

    /** The second half of a round of WriteRaw's loop: copies as much of src
        as fits into the block the last Next handed out and, when src ends
        inside the block, gives back the unused tail. Only the copied cells
        change. */
    method Commit(block: OutBlock, src: seq<uint8>) returns (written: nat)
      requires Valid() && |src| > 0 && block.size > 0
      requires block.arr == Backing() && block.start + block.size == ByteCount() && Last() == block.size
      modifies Obj(), Backing()
      ensures Valid() && Repr() == old(Repr()) && Backing() == old(Backing())
      ensures written == if block.size > |src| then |src| else block.size
      ensures ByteCount() == block.start + written && Last() == written
      ensures Backing()[..ByteCount()] == old(Backing()[..block.start]) + src[..written]
      ensures Backing()[ByteCount()..] == old(Backing()[..])[ByteCount()..]
    {
      InRepr();
      var n := block.size;
      written := if n > |src| then |src| else n;
      CopyInto(block.arr, block.start, src[..written]);
      assert ByteCount() == block.start + n && Last() == n;
      ghost var after := Backing()[..];
      assert after[..block.start + written] == old(Backing()[..block.start]) + src[..written];
      assert after[block.start + written..] == old(Backing()[..])[block.start + written..];
      if n > |src| {
        BackUp(n - |src|);
      }
    }

    /** One round of WriteRaw's loop: asks for a block and commits into it as
        much of src as fits. */
    method FillNext(src: seq<uint8>) returns (got: bool, written: nat)
      requires Valid() && |src| > 0
      modifies Repr()
      ensures Valid() && fresh(Repr() - old(Repr()))
      ensures got ==> 0 < written <= |src| &&
                      ByteCount() == old(ByteCount()) + written &&
                      Contents() == old(Contents()) + src[..written] && Last() == written
      ensures !got ==> ToBuffer? && fixed.pos == fixed.size && unchanged(Repr())
      ensures ToVector? ==> got && (|src| <= growable.blockSize ==> written == |src|)
      ensures ToBuffer? ==> fixed.data[ByteCount()..] == old(fixed.data[..])[ByteCount()..]
    {
      InRepr();
      ghost var before := Contents();
      var block;
      got, block := Next();
      if !got {
        return false, 0;
      }
      InRepr();
      assert Backing()[..block.start] == before;
      written := Commit(block, src);
      InRepr();
    }

    /** What WriteRaw has achieved after ptr bytes of src, from a stream that
        stood at ByteCount bc0 with contents c0 over backing bytes d0: exactly
        those bytes were appended, and a fixed buffer is untouched past them. */
    ghost predicate Wrote(src: seq<uint8>, ptr: nat, bc0: int, c0: seq<uint8>, d0: seq<uint8>)
      reads Obj(), Backing()
    {
      Valid() && ptr <= |src| && ByteCount() == bc0 + ptr && Contents() == c0 + src[..ptr] &&
      (ToBuffer? ==> |d0| == fixed.data.Length && fixed.data[ByteCount()..] == d0[ByteCount()..])
    }

    /** One round of WriteRaw's loop, stated against Wrote: on success at
        least one more byte of src is written; on failure nothing changed and
        the fixed buffer is full. A write that fits one vector block is done in
        a single round. */
    method WriteRound(src: seq<uint8>, ptr: nat, ghost bc0: int, ghost c0: seq<uint8>, ghost d0: seq<uint8>)
      returns (got: bool, next: nat)
      requires Wrote(src, ptr, bc0, c0, d0) && ptr < |src|
      modifies Repr()
      ensures fresh(Repr() - old(Repr()))
      ensures got ==> ptr < next <= |src| && Wrote(src, next, bc0, c0, d0)
      ensures !got ==> Wrote(src, ptr, bc0, c0, d0) && ToBuffer? && ByteCount() == fixed.size
      ensures ToVector? && ptr == 0 && |src| <= growable.blockSize ==> got && next == |src| && Last() == |src|
    {
      var n;
      got, n := FillNext(src[ptr..]);
      if !got {
        return false, ptr;
      }
      PrefixJoin(src, ptr, n);
      next := ptr + n;
    }

    /** `ZeroCopyOutputStream::WriteRaw`: appends src to the committed bytes,
        copying into as many blocks as it takes and giving back the unused
        tail of the last one. It fails only when Next does: then as much of
        src as fitted was written. The growable backend always succeeds; the
        fixed buffer succeeds exactly when src fits in the room left, and never
        touches memory past what it committed. */
    method WriteRaw(src: seq<uint8>) returns (ok: bool)
      requires Valid()
      modifies Repr()
      ensures Valid() && fresh(Repr() - old(Repr()))
      ensures old(ByteCount()) <= ByteCount() <= old(ByteCount()) + |src|
      ensures Contents() == old(Contents()) + src[..ByteCount() - old(ByteCount())]
      ensures ok <==> ByteCount() == old(ByteCount()) + |src|
      ensures ToVector? ==> ok && (0 < |src| <= growable.blockSize ==> Last() == |src|)
      ensures ToBuffer? ==> (ok <==> |src| <= fixed.size - old(fixed.pos))
      ensures ToBuffer? && !ok ==> ByteCount() == fixed.size
      ensures ToBuffer? ==> fixed.data[ByteCount()..] == old(fixed.data[..])[ByteCount()..]
    {
      ghost var bc0 := ByteCount();
      ghost var c0 := Contents();
      ghost var d0 := Backing()[..];
      ghost var oneBlock := ToVector? && |src| <= growable.blockSize;
      assert src[..0] == [];
      var ptr: nat := 0;
      while ptr < |src|
        invariant Wrote(src, ptr, bc0, c0, d0) && fresh(Repr() - old(Repr()))
        invariant oneBlock ==> ptr == 0 || (ptr == |src| && Last() == ptr)
        decreases |src| - ptr
      {
        var got;
        got, ptr := WriteRound(src, ptr, bc0, c0, d0);
        if !got {
          return false;
        }
      }
      // The source has no return statement on this path (undefined
      // behaviour); every byte has been written, so the model returns true.
      assert src[..ptr] == src;
      return true;
    }
  }

  /** The first ptr bytes and the next n bytes after them are the first ptr + n. */
  lemma PrefixJoin(src: seq<uint8>, ptr: nat, n: nat)
    requires ptr + n <= |src|
    ensures src[..ptr] + src[ptr..][..n] == src[..ptr + n]
  {
  }
}
