/**
 * The chunked writer. Bytes go into the current exclusive chunk (`blob`) up to `ptr`; a
 * full chunk grows in place, and a flush freezes the written part into the writer's chunk
 * list (`chunks`, the content of the buffer handle `buffer`) and takes a fresh chunk. Chunks
 * that already live in the pool's memory are appended by reference instead of copied.
 */
module OutputBuffer {
  import opened Wrappers
  import opened BufferPool
  import BlobCast
  import Varint

  /** The size a fresh chunk is resized to when no minimum is given. */
  const DefaultMinBlobSize: nat := 4096

  /** Bytes whose content the writer has not set yet. */
  function Unset(n: nat): (r: seq<byte>)
    ensures |r| == n
  {
    seq(n, _ => 0)
  }

  function Max(a: nat, b: nat): (m: nat)
    ensures m >= a && m >= b && (m == a || m == b)
  {
    if a >= b then a else b
  }

  /** What a chunk list followed by part of a chunk stands for. */
  lemma WrittenAppend(chunks: seq<ConstBlob>, bytes: seq<byte>, ptr: nat, grown: seq<byte>, size: nat)
    requires ptr + size <= |grown| && ptr <= |bytes| && bytes[..ptr] == grown[..ptr]
    ensures Concat(chunks) + grown[..ptr + size] == (Concat(chunks) + bytes[..ptr]) + grown[ptr..ptr + size]
  {
    assert grown[..ptr + size] == grown[..ptr] + grown[ptr..ptr + size];
  }

  class OutputBuffer {
    const pool: Pool
    const minBlobSize: nat
    var buffer: Handle
    var chunks: seq<ConstBlob>
    var blob: Blob
    var ptr: nat
    var ptrEnd: nat

    /**
     * Between operations: the current chunk is a live pool chunk whose window ends at its
     * size, the buffer handle is alive, and the minimum chunk size is positive.
     */
    ghost predicate Valid()
      reads this, pool
    {
      pool.Valid() && minBlobSize > 0
      && ptr <= ptrEnd == |blob.bytes|
      && pool.Holds(buffer) && pool.Holds(blob.handle)
      && buffer.cell.slot != blob.handle.cell.slot
    }

    /** Everything written so far: the frozen chunks, then the written part of the current one. */
    ghost function Written(): seq<byte>
      reads this
      requires ptr <= |blob.bytes|
    {
      Concat(chunks) + blob.bytes[..ptr]
    }

    /** OutputBuffer(pool, minBlobSize): an empty buffer handle and a first chunk from the pool. */
    constructor (pool: Pool, minBlobSize: nat)
      requires pool.Valid()
      modifies pool
      ensures Valid() && Written() == [] && chunks == [] && ptr == 0
      ensures this.pool == pool
      ensures this.minBlobSize == if minBlobSize != 0 then minBlobSize else DefaultMinBlobSize
      ensures |blob.bytes| >= this.minBlobSize
      ensures pool.State() == TakeOf(TakeOf(old(pool.State())).0).0
    {
      this.pool := pool;
      this.minBlobSize := if minBlobSize != 0 then minBlobSize else DefaultMinBlobSize;
      var h := pool.TakeBuffer();
      buffer := h;
      chunks := [];
      new;
      TakeKeepsOwned(pool.State(), h.cell.slot);
      TakeBlob();
    }

    /** TakeBlob: a fresh chunk from the pool, sized to its capacity and at least the minimum. */
    method TakeBlob()
      requires pool.Valid() && minBlobSize > 0 && pool.Holds(buffer)
      modifies this`blob, this`ptr, this`ptrEnd, pool
      ensures Valid() && ptr == 0 && |blob.bytes| >= minBlobSize
      ensures pool.State() == TakeOf(old(pool.State())).0
      ensures blob.handle == Ref(CellId(pool.memory.id, TakeOf(old(pool.State())).1), pool.queue)
      ensures |blob.bytes| == Max(pool.cells[blob.handle.cell.slot].capacity, minBlobSize)
    {
      TakeKeepsOwned(pool.State(), buffer.cell.slot);
      var taken := pool.TakeBlob();
      var size := Max(taken.capacity, minBlobSize);
      blob := Blob(taken.handle, Unset(size), size);
      ptr := 0;
      ptrEnd := size;
    }

    /**
     * Allocate(size): room for `size` bytes right after the written ones; a chunk without
     * that room (or exactly full) grows to the written part plus the larger of `size` and the
     * minimum, keeping what it holds.
     */
    method Allocate(size: nat) returns (at: nat)
      requires Valid()
      modifies this`blob, this`ptr, this`ptrEnd
      ensures Valid() && at == old(ptr) && ptr == at + size
      ensures blob.handle == old(blob.handle) && blob.bytes[..at] == old(blob.bytes[..ptr])
      ensures old(ptr) + size < old(ptrEnd) ==> blob == old(blob)
      ensures old(ptr) + size >= old(ptrEnd) ==> |blob.bytes| == at + Max(size, minBlobSize)
    {
      if ptr + size >= ptrEnd {
        var offset := ptr;
        var size' := offset + Max(size, minBlobSize);
        var grown := blob.bytes + Unset(size' - |blob.bytes|);
        assert grown[..offset] == blob.bytes[..offset];
        blob := blob.(bytes := grown, capacity := Max(blob.capacity, size'));
        ptr := offset;
        ptrEnd := |grown|;
      }
      at := ptr;
      ptr := ptr + size;
    }

    /** Write(void*, size): copy `value` into freshly allocated room. */
    method WriteBytes(value: seq<byte>)
      requires Valid()
      modifies this`blob, this`ptr, this`ptrEnd
      ensures Valid() && Written() == old(Written()) + value
      ensures blob.handle == old(blob.handle)
    {
      ghost var before := Written();
      var at := Allocate(|value|);
      var bytes := blob.bytes[..at] + value + blob.bytes[at + |value|..];
      assert bytes[..at] == blob.bytes[..at] && bytes[at..at + |value|] == value;
      blob := blob.(bytes := bytes);
      WrittenAppend(chunks, old(blob.bytes), at, bytes, |value|);
    }

    /** Write(const T&): in place when it fits strictly before the end, else through WriteBytes. */
    method WriteValue(value: seq<byte>)
      requires Valid()
      modifies this`blob, this`ptr, this`ptrEnd
      ensures Valid() && Written() == old(Written()) + value
      ensures blob.handle == old(blob.handle)
      ensures old(ptr) + |value| < old(ptrEnd) ==> |blob.bytes| == old(|blob.bytes|)
    {
      if ptr + |value| < ptrEnd {
        var at := ptr;
        var bytes := blob.bytes[..at] + value + blob.bytes[at + |value|..];
        assert bytes[..at] == blob.bytes[..at] && bytes[at..at + |value|] == value;
        blob := blob.(bytes := bytes);
        ptr := at + |value|;
        WrittenAppend(chunks, old(blob.bytes), at, bytes, |value|);
      } else {
        WriteBytes(value);
      }
    }

    /**
     * WriteVariableUnsigned: the encoding of a `width`-byte value. With room for the longest
     * encoding it goes in place; otherwise the generic writer puts it byte by byte.
     */
    method WriteVariableUnsigned(width: nat, encoded: seq<byte>)
      requires Valid() && 1 <= |encoded| <= Varint.MaxLength(width)
      modifies this`blob, this`ptr, this`ptrEnd
      ensures Valid() && Written() == old(Written()) + encoded
      ensures blob.handle == old(blob.handle)
      ensures Varint.FastPath(old(ptr), old(ptrEnd), width) ==> |blob.bytes| == old(|blob.bytes|)
    {
      if Varint.FastPath(ptr, ptrEnd, width) {
        Varint.FastPathFits(ptr, ptrEnd, width);
        var at := ptr;
        var bytes := blob.bytes[..at] + encoded + blob.bytes[at + |encoded|..];
        assert bytes[..at] == blob.bytes[..at] && bytes[at..at + |encoded|] == encoded;
        blob := blob.(bytes := bytes);
        ptr := at + |encoded|;
        WrittenAppend(chunks, old(blob.bytes), at, bytes, |encoded|);
      } else {
        WriteEach(encoded);
      }
    }

    /** GenericWriteVariableUnsigned: one single-byte write per encoded byte. */
    method WriteEach(encoded: seq<byte>)
      requires Valid()
      modifies this`blob, this`ptr, this`ptrEnd
      ensures Valid() && Written() == old(Written()) + encoded
      ensures blob.handle == old(blob.handle)
    {
      var i := 0;
      while i < |encoded|
        invariant 0 <= i <= |encoded|
        invariant Valid() && Written() == old(Written()) + encoded[..i]
        invariant blob.handle == old(blob.handle)
      {
        WriteValue([encoded[i]]);
        assert encoded[..i + 1] == encoded[..i] + [encoded[i]];
        i := i + 1;
      }
      assert encoded[..i] == encoded;
    }

    /**
     * Merge: trim the current chunk to what was written and freeze it onto the chunk list, if
     * anything was. The list gets a copy of the chunk's handle, so the writer still holds the
     * trimmed chunk until it takes the next one.
     */
    method Merge() returns (merged: bool)
      requires Valid()
      modifies this`chunks, this`blob
      ensures merged == (old(ptr) != 0)
      ensures Concat(chunks) == old(Written())
      ensures merged ==> chunks == old(chunks) + [Freeze(old(blob).(bytes := old(blob.bytes[..ptr])))]
      ensures merged ==> blob == old(blob).(bytes := old(blob.bytes[..ptr]))
      ensures !merged ==> chunks == old(chunks) && blob == old(blob)
    {
      if ptr != 0 {
        var trimmed := blob.(bytes := blob.bytes[..ptr]);
        ConcatAppend(chunks, [Freeze(trimmed)]);
        assert Concat([Freeze(trimmed)]) == Concat([]) + Freeze(trimmed).bytes;
        chunks := chunks + [Freeze(trimmed)];
        blob := trimmed;
        return true;
      }
      assert blob.bytes[..0] == [];
      return false;
    }

    /** Flush: merge, and take a fresh chunk when something was merged. */
    method Flush()
      requires Valid()
      modifies this`chunks, this`blob, this`ptr, this`ptrEnd, pool
      ensures Valid() && Written() == old(Written()) && ptr == 0
      ensures Concat(chunks) == old(Written())
      ensures old(ptr) != 0 ==> |chunks| == old(|chunks|) + 1 && pool.State() == TakeOf(old(pool.State())).0
      ensures old(ptr) == 0 ==> chunks == old(chunks) && blob == old(blob) && pool.State() == old(pool.State())
    {
      var merged := Merge();
      if merged {
        TakeBlob();
      }
      assert blob.bytes[..ptr] == [];
    }

    /**
     * Write(ConstBlob, other): a chunk of the pool's memory is appended by reference after a
     * flush; anything else is copied from `other`, the same bytes.
     */
    method WriteChunk(c: ConstBlob, other: seq<byte>)
      requires Valid() && (IsTruthy(c.handle) ==> c.bytes == other)
      modifies this`chunks, this`blob, this`ptr, this`ptrEnd, pool
      ensures Valid() && Written() == old(Written()) + other
      ensures IsTruthy(c.handle) && Contains(pool.memory, Data(c)) ==> |chunks| > 0 && chunks[|chunks| - 1] == c && ptr == 0
      ensures !(IsTruthy(c.handle) && Contains(pool.memory, Data(c))) ==> chunks == old(chunks) && pool.State() == old(pool.State())
    {
      if IsTruthy(c.handle) && Contains(pool.memory, Data(c)) {
        Flush();
        ConcatAppend(chunks, [c]);
        assert Concat([c]) == Concat([]) + c.bytes;
        chunks := chunks + [c];
        assert blob.bytes[..ptr] == [];
      } else {
        WriteBytes(other);
      }
    }

    /** Write(ConstBlob): a chunk, by reference or by copy. */
    method WriteBlob(c: ConstBlob)
      requires Valid()
      modifies this`chunks, this`blob, this`ptr, this`ptrEnd, pool
      ensures Valid() && Written() == old(Written()) + c.bytes
    {
      WriteChunk(c, c.bytes);
    }

    /** Write(bond::blob): the chunk behind a codec blob by reference, else its content by copy. */
    method WriteCodecBlob(b: BlobCast.CodecBlob)
      requires Valid()
      modifies this`chunks, this`blob, this`ptr, this`ptrEnd, pool
      ensures Valid() && Written() == old(Written()) + BlobCast.Content(b)
    {
      WriteChunk(BlobCast.FromCodec(b), BlobCast.Content(b));
    }

    /** Write(ConstBuffer): every chunk of a non-null buffer, in order. */
    method WriteBuffer(b: ConstBuffer)
      requires Valid()
      modifies this`chunks, this`blob, this`ptr, this`ptrEnd, pool
      ensures Valid() && Written() == old(Written()) + Concat(b.chunks)
    {
      if IsTruthy(b.handle) {
        var i := 0;
        while i < |b.chunks|
          invariant 0 <= i <= |b.chunks|
          invariant Valid() && Written() == old(Written()) + Concat(b.chunks[..i])
        {
          WriteBlob(b.chunks[i]);
          assert b.chunks[..i + 1][..i] == b.chunks[..i];
          i := i + 1;
        }
        assert b.chunks[..i] == b.chunks;
      }
    }

    /**
     * Write(Range): a non-empty range chunk by chunk, its first chunk from firstOffset and
     * its last one cut at lastOffset. The source asserts that a non-empty range touches a chunk.
     */
    method WriteRange(range: Range)
      requires Valid() && range.Wf()
      requires !range.IsEmpty() ==> range.firstBlob < range.EndIndex()
      modifies this`chunks, this`blob, this`ptr, this`ptrEnd, pool
      ensures Valid() && Written() == old(Written()) + range.Bytes()
    {
      if range.IsEmpty() {
        EmptyRangeHasNoBytes(range);
        return;
      }
      var length := range.EndIndex() - range.firstBlob;
      if length == 1 {
        OnlyPieceBytes(range);
        WriteBlob(OnlyPiece(range));
      } else {
        WritePieces(range);
      }
    }

    /** Write(Range) for a range over two or more chunks: first piece, middle chunks, last piece. */
    method WritePieces(range: Range)
      requires Valid() && range.Wf() && range.firstBlob + 1 < range.EndIndex()
      modifies this`chunks, this`blob, this`ptr, this`ptrEnd, pool
      ensures Valid() && Written() == old(Written()) + range.Bytes()
    {
      var cs := range.buffer.chunks;
      var last := range.EndIndex() - 1;
      ghost var start := Written();
      ghost var f, m, l := FirstPiece(range).bytes, Span(cs, range.firstBlob + 1, last, 0), LastPiece(range).bytes;
      WriteBlob(FirstPiece(range));
      WriteMiddle(cs, range.firstBlob + 1, last);
      WriteBlob(LastPiece(range));
      assert Written() == ((start + f) + m) + l;
      AppendAssoc(start, f, m);
      AppendAssoc(start, f + m, l);
      PiecesBytes(range);
    }

    /** The whole chunks strictly between a range's first and last one. */
    method WriteMiddle(cs: seq<ConstBlob>, from: nat, to: nat)
      requires Valid() && from <= to <= |cs|
      modifies this`chunks, this`blob, this`ptr, this`ptrEnd, pool
      ensures Valid() && Written() == old(Written()) + Span(cs, from, to, 0)
    {
      ghost var start := Written();
      var it := from;
      while it != to
        invariant from <= it <= to
        invariant Valid() && Written() == start + Span(cs, from, it, 0)
        decreases (to as int) - (it as int)
      {
        WriteBlob(cs[it]);
        SpanAppendChunk(cs, from, it);
        AppendAssoc(start, Span(cs, from, it, 0), cs[it].bytes);
        it := it + 1;
      }
    }

    /** GetBuffer() const&: the buffer, refused while unflushed bytes are pending. */
    function GetBufferIfFlushed(): (r: Result<ConstBuffer>)
      reads this, pool
      requires Valid()
      ensures r.Err? <==> ptr != 0
      ensures r.Err? ==> r.error == NotFlushed
      ensures r.Ok? ==> r.value.handle == buffer && Concat(r.value.chunks) == Written()
    {
      if ptr != 0 then Err(NotFlushed)
      else
        assert blob.bytes[..0] == [];
        var b: ConstBuffer := BufferView(buffer, chunks);
        Ok(b)
    }

    /** GetBuffer() &: flush, then hand out the buffer. */
    method GetBuffer() returns (b: ConstBuffer)
      requires Valid()
      modifies this`chunks, this`blob, this`ptr, this`ptrEnd, pool
      ensures Valid() && b.handle == buffer && Concat(b.chunks) == old(Written()) && Written() == old(Written())
      ensures GetBufferIfFlushed() == Ok(b)
    {
      Flush();
      b := BufferView(buffer, chunks);
    }

    /** GetBuffer() &&: merge and give the buffer away; the writer is spent. */
    method TakeBuffer() returns (b: ConstBuffer)
      requires Valid()
      modifies this`chunks, this`blob
      ensures b.handle == old(buffer) && Concat(b.chunks) == old(Written())
    {
      var _ := Merge();
      b := BufferView(buffer, chunks);
    }
  }

  /** The chunk a one-chunk range is written as: its cut part from firstOffset. */
  function OnlyPiece(range: Range): (c: ConstBlob)
    requires range.Wf() && range.firstBlob + 1 == range.EndIndex()
    ensures c.handle == range.buffer.chunks[range.firstBlob].handle
  {
    var cs := range.buffer.chunks;
    var first := range.firstBlob;
    var count := (if range.lastOffset != 0 then range.lastOffset else Size(cs[first])) - range.firstOffset;
    GetRange(cs[first], range.firstOffset, count).value
  }

  lemma OnlyPieceBytes(range: Range)
    requires range.Wf() && range.firstBlob + 1 == range.EndIndex()
    ensures OnlyPiece(range).bytes == range.Bytes()
  {
    var cs := range.buffer.chunks;
    var first := range.firstBlob;
    var end := PieceEnd(cs, first, range.EndIndex(), range.lastOffset);
    assert Span(cs, first, range.EndIndex(), range.lastOffset) == cs[first].bytes[..end] + [];
    assert cs[first].bytes[..end][range.firstOffset..] == cs[first].bytes[range.firstOffset..end];
  }

  /** The first chunk of a longer range, from firstOffset to its end. */
  function FirstPiece(range: Range): (c: ConstBlob)
    requires range.Wf() && range.firstBlob + 1 < range.EndIndex()
    ensures c.handle == range.buffer.chunks[range.firstBlob].handle
  {
    var first := range.buffer.chunks[range.firstBlob];
    if range.firstOffset != 0 then GetRange(first, range.firstOffset, Size(first) - range.firstOffset).value
    else first
  }

  /** The last chunk of a longer range, cut at lastOffset when that is not 0. */
  function LastPiece(range: Range): (c: ConstBlob)
    requires range.Wf() && range.firstBlob + 1 < range.EndIndex()
    ensures c.handle == range.buffer.chunks[range.EndIndex() - 1].handle
  {
    var last := range.buffer.chunks[range.EndIndex() - 1];
    if range.lastOffset != 0 then GetRange(last, 0, range.lastOffset).value else last
  }

  lemma FirstPieceBytes(range: Range)
    requires range.Wf() && range.firstBlob + 1 < range.EndIndex()
    ensures SpanOk(range.buffer.chunks, range.firstBlob, range.firstBlob + 1, 0)
    ensures range.firstOffset <= |Span(range.buffer.chunks, range.firstBlob, range.firstBlob + 1, 0)|
    ensures FirstPiece(range).bytes == Span(range.buffer.chunks, range.firstBlob, range.firstBlob + 1, 0)[range.firstOffset..]
  {
    var cs := range.buffer.chunks;
    var first := range.firstBlob;
    SpanAppendChunk(cs, first, first);
    assert Span(cs, first, first + 1, 0) == [] + cs[first].bytes;
  }

  lemma LastPieceBytes(range: Range)
    requires range.Wf() && range.firstBlob + 1 < range.EndIndex()
    ensures SpanOk(range.buffer.chunks, range.EndIndex() - 1, range.EndIndex(), range.lastOffset)
    ensures LastPiece(range).bytes == Span(range.buffer.chunks, range.EndIndex() - 1, range.EndIndex(), range.lastOffset)
  {
    var cs := range.buffer.chunks;
    var end, L := range.EndIndex(), range.lastOffset;
    var last := end - 1;
    assert Span(cs, last, end, L) == cs[last].bytes[..PieceEnd(cs, last, end, L)] + [];
    assert cs[last].bytes[..Size(cs[last])] == cs[last].bytes;
  }

  /** A longer range is its first piece, the whole chunks in between, and its last piece. */
  lemma PiecesBytes(range: Range)
    requires range.Wf() && range.firstBlob + 1 < range.EndIndex()
    ensures range.Bytes()
         == FirstPiece(range).bytes + Span(range.buffer.chunks, range.firstBlob + 1, range.EndIndex() - 1, 0) + LastPiece(range).bytes
  {
    var cs := range.buffer.chunks;
    var first, end, L := range.firstBlob, range.EndIndex(), range.lastOffset;
    var last := end - 1;
    SpanSplit(cs, first, first + 1, end, L);
    SpanSplit(cs, first + 1, last, end, L);
    FirstPieceBytes(range);
    LastPieceBytes(range);
    var x := Span(cs, first, first + 1, 0);
    var m := Span(cs, first + 1, last, 0);
    var l := LastPiece(range).bytes;
    assert Span(cs, first, end, L) == x + (m + l);
    SliceOfAppend(x, m + l, range.firstOffset);
    AppendAssoc(FirstPiece(range).bytes, m, l);
  }

  lemma SliceOfAppend(x: seq<byte>, y: seq<byte>, o: nat)
    requires o <= |x|
    ensures (x + y)[o..] == x[o..] + y
  {
  }

  /** CreateOutputBuffer: a new writer on the other one's pool, with the default minimum. */
  method CreateOutputBuffer(other: OutputBuffer) returns (out: OutputBuffer)
    requires other.pool.Valid()
    modifies other.pool
    ensures fresh(out) && out.Valid() && out.pool == other.pool && out.minBlobSize == DefaultMinBlobSize
    ensures out.Written() == [] && out.chunks == []
  {
    out := new OutputBuffer(other.pool, 0);
  }
}
