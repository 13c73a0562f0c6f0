/**
 * The chunked reader. A cursor walks the chunks of a ConstBuffer (or of a Range of one):
 * `blob` is the current chunk, `ptr`/`ptrEnd` the unread window inside it, `blobEnd` the
 * end sentinel, and `lastOffset`, when not 0, where the last chunk is cut. Pointers into a
 * chunk are offsets from the chunk's first byte; an at-end cursor has both set to 0 (null).
 */
module InputBuffer {
  import opened Wrappers
  import opened BufferPool
  import BlobCast
  import Varint

  /** A chunk the reader stops at: non-null and not empty. */
  predicate Live(c: ConstBlob)
  {
    IsTruthy(c.handle) && Size(c) != 0
  }

  /** The first chunk in [from, end) that holds bytes, or `end` when there is none. */
  function NextLive(chunks: seq<ConstBlob>, from: nat, end: nat): (k: nat)
    requires from <= end <= |chunks|
    ensures from <= k <= end
    ensures forall j :: from <= j < k ==> !Live(chunks[j])
    ensures k < end ==> Live(chunks[k])
    decreases end - from
  {
    if from == end then end
    else if Live(chunks[from]) then from
    else NextLive(chunks, from + 1, end)
  }

  /** The fields of a reader, as a value. */
  datatype Cursor = Cursor(buffer: ConstBuffer, blob: nat, blobEnd: nat, ptr: nat, ptrEnd: nat, isEof: bool, lastOffset: nat)
  {
    /** The sentinel and the cut lie inside the chunk list. */
    predicate Positioned()
    {
      blob <= blobEnd <= |buffer.chunks|
      && (lastOffset != 0 ==> 0 < blobEnd && lastOffset <= Size(buffer.chunks[blobEnd - 1]))
    }

    /**
     * Between operations: at end exactly when the current chunk is the sentinel, and
     * otherwise standing in a chunk with bytes whose window ends where that chunk ends.
     */
    predicate Valid()
    {
      Positioned()
      && isEof == (blob == blobEnd)
      && (isEof ==> ptr == 0 && ptrEnd == 0)
      && (!isEof ==> Live(buffer.chunks[blob]) && ptr <= ptrEnd == PieceEnd(buffer.chunks, blob, blobEnd, lastOffset))
    }

    /** The bytes that are still to be read. */
    function Remaining(): seq<byte>
      requires Valid()
    {
      if isEof then []
      else buffer.chunks[blob].bytes[ptr..ptrEnd] + Span(buffer.chunks, blob + 1, blobEnd, lastOffset)
    }

    /** Not at end, yet no byte is left in the current window. */
    predicate Stuck()
    {
      !isEof && ptr == ptrEnd
    }
  }

  /** `e` reads the same chunks as `b` and does not stand before it. */
  predicate Precedes(b: Cursor, e: Cursor)
  {
    b.buffer == e.buffer && b.blobEnd == e.blobEnd && b.lastOffset == e.lastOffset
    && (b.blob < e.blob || (b.blob == e.blob && b.ptr <= e.ptr))
  }

  lemma TransitivePrecedes(a: Cursor, b: Cursor, c: Cursor)
    requires Precedes(a, b) && Precedes(b, c)
    ensures Precedes(a, c)
  {
  }

  lemma SplitAt(s: seq<byte>, n: nat)
    requires n <= |s|
    ensures s == s[..n] + s[n..]
  {
  }

  lemma DropOfAppend(x: seq<byte>, y: seq<byte>, o: nat)
    requires o <= |x|
    ensures (x + y)[o..] == x[o..] + y
  {
  }

  lemma PrefixOf(s: seq<byte>, x: seq<byte>, y: seq<byte>)
    requires s == x + y
    ensures x == s[..|x|]
  {
  }

  /** What is left to read, written as the tail of the stretch from the current chunk. */
  lemma RemainingIsSpanTail(c: Cursor)
    requires c.Valid()
    ensures SpanOk(c.buffer.chunks, c.blob, c.blobEnd, c.lastOffset)
    ensures c.isEof ==> c.Remaining() == []
    ensures !c.isEof ==>
      c.ptr <= |Span(c.buffer.chunks, c.blob, c.blobEnd, c.lastOffset)|
      && c.Remaining() == Span(c.buffer.chunks, c.blob, c.blobEnd, c.lastOffset)[c.ptr..]
  {
    if !c.isEof {
      var chunks := c.buffer.chunks;
      var piece := chunks[c.blob].bytes[..c.ptrEnd];
      assert Span(chunks, c.blob, c.blobEnd, c.lastOffset) == piece + Span(chunks, c.blob + 1, c.blobEnd, c.lastOffset);
      assert piece[c.ptr..] == chunks[c.blob].bytes[c.ptr..c.ptrEnd];
    }
  }

  /** InputBuffer::operator==: pointer, chunk iterator, sentinel and cut. */
  predicate SameCursor(a: Cursor, b: Cursor)
  {
    a.ptr == b.ptr && a.buffer.handle == b.buffer.handle && a.blob == b.blob
    && a.blobEnd == b.blobEnd && a.lastOffset == b.lastOffset
  }

  /** Equal cursors over one buffer have the same bytes ahead of them. */
  lemma SameCursorSameRemaining(a: Cursor, b: Cursor)
    requires a.Valid() && b.Valid() && a.buffer == b.buffer && SameCursor(a, b)
    ensures a.isEof == b.isEof && a.ptrEnd == b.ptrEnd
    ensures a.Remaining() == b.Remaining()
  {
  }

  /** GetBufferRange: each cursor's chunk and offset in it, offset 0 for a cursor at end. */
  function GetBufferRange(b: Cursor, e: Cursor): (r: Range)
    requires Equal(b.buffer, e.buffer)
    requires e.isEof || !b.isEof
    ensures r.buffer == b.buffer && r.firstBlob == b.blob && r.lastBlob == e.blob
  {
    Range(b.buffer, b.blob, if b.isEof then 0 else b.ptr, e.blob, if e.isEof then 0 else e.ptr)
  }

  /** A stretch starting in chunk k, from offset o inside it on. */
  lemma SpanFromOffset(chunks: seq<ConstBlob>, k: nat, c: nat, lastOffset: nat, o: nat)
    requires k < c && SpanOk(chunks, k, c, lastOffset)
    requires o <= PieceEnd(chunks, k, c, lastOffset)
    ensures o <= |Span(chunks, k, c, lastOffset)|
    ensures Span(chunks, k, c, lastOffset)[o..]
         == chunks[k].bytes[o..PieceEnd(chunks, k, c, lastOffset)] + Span(chunks, k + 1, c, lastOffset)
  {
    var piece := chunks[k].bytes[..PieceEnd(chunks, k, c, lastOffset)];
    assert Span(chunks, k, c, lastOffset) == piece + Span(chunks, k + 1, c, lastOffset);
    assert piece[o..] == chunks[k].bytes[o..PieceEnd(chunks, k, c, lastOffset)];
  }

  /** A sequence that starts with a cut chunk is its first o bytes and the rest. */
  lemma CutIdentity(whole: seq<byte>, head: seq<byte>, bytes: seq<byte>, o: nat, end: nat, rest: seq<byte>)
    requires o <= end <= |bytes| && whole == bytes[..end] + rest && head == bytes[..o]
    ensures o <= |whole| && whole == head + whole[o..]
  {
    assert whole[..o] == head;
  }

  /** A stretch cut inside its own first chunk k at offset o. */
  lemma SpanCutHere(chunks: seq<ConstBlob>, k: nat, c: nat, lastOffset: nat, o: nat)
    requires k < c && SpanOk(chunks, k, c, lastOffset)
    requires 0 < o <= PieceEnd(chunks, k, c, lastOffset)
    ensures SpanOk(chunks, k, k + 1, o) && o <= |Span(chunks, k, c, lastOffset)|
    ensures Span(chunks, k, c, lastOffset) == Span(chunks, k, k + 1, o) + Span(chunks, k, c, lastOffset)[o..]
  {
    var bytes := chunks[k].bytes;
    var end := PieceEnd(chunks, k, c, lastOffset);
    assert Span(chunks, k, k + 1, o) == bytes[..o] by {
      assert Span(chunks, k + 1, k + 1, o) == [];
      assert Span(chunks, k, k + 1, o) == bytes[..o] + [];
    }
    CutIdentity(Span(chunks, k, c, lastOffset), Span(chunks, k, k + 1, o), bytes, o, end, Span(chunks, k + 1, c, lastOffset));
  }

  /** A stretch cut inside chunk k: the part up to offset o there, then the rest from o on. */
  lemma {:induction false} SpanCutSplit(chunks: seq<ConstBlob>, a: nat, k: nat, c: nat, lastOffset: nat, o: nat)
    requires a <= k < c && SpanOk(chunks, a, c, lastOffset)
    requires 0 < o <= PieceEnd(chunks, k, c, lastOffset)
    ensures SpanOk(chunks, a, k + 1, o) && o <= |Span(chunks, k, c, lastOffset)|
    ensures Span(chunks, a, c, lastOffset) == Span(chunks, a, k + 1, o) + Span(chunks, k, c, lastOffset)[o..]
    decreases (k as int) - (a as int)
  {
    if a == k {
      SpanCutHere(chunks, k, c, lastOffset, o);
    } else {
      SpanCutSplit(chunks, a + 1, k, c, lastOffset, o);
      var x := chunks[a].bytes[..PieceEnd(chunks, a, c, lastOffset)];
      assert PieceEnd(chunks, a, k + 1, o) == PieceEnd(chunks, a, c, lastOffset);
      var mid := Span(chunks, a + 1, k + 1, o);
      var tail := Span(chunks, k, c, lastOffset)[o..];
      assert Span(chunks, a, c, lastOffset) == x + (mid + tail);
      assert Span(chunks, a, k + 1, o) == x + mid;
      AppendAssoc(x, mid, tail);
    }
  }

  /** The offset GetBufferRange records for a cursor. */
  function Offset(c: Cursor): nat
  {
    if c.isEof then 0 else c.ptr
  }

  /** The range recorded between two cursors of one reader is well formed. */
  lemma GetBufferRangeWf(b: Cursor, e: Cursor)
    requires b.Valid() && e.Valid() && Precedes(b, e)
    requires e.isEof ==> e.lastOffset == 0
    ensures e.isEof || !b.isEof
    ensures GetBufferRange(b, e).Wf()
    ensures Offset(b) <= |Span(b.buffer.chunks, b.blob, GetBufferRange(b, e).EndIndex(), GetBufferRange(b, e).lastOffset)|
  {
    var chunks := b.buffer.chunks;
    var r := GetBufferRange(b, e);
    if !e.isEof {
      assert PieceEnd(chunks, e.blob, e.blobEnd, e.lastOffset) <= Size(chunks[e.blob]);
    }
    if Offset(b) != 0 {
      assert b.blob < r.EndIndex();
      assert Offset(b) <= PieceEnd(chunks, b.blob, r.EndIndex(), r.lastOffset);
      SpanLength(chunks, b.blob, r.EndIndex(), r.lastOffset);
    }
  }

  /** The stretch from b's chunk splits where e stands: the recorded range's stretch, then e's tail. */
  lemma StretchSplitsAtEnd(b: Cursor, e: Cursor)
    requires b.Valid() && e.Valid() && Precedes(b, e)
    requires e.isEof ==> e.lastOffset == 0
    ensures GetBufferRange(b, e).Wf()
    ensures SpanOk(b.buffer.chunks, b.blob, b.blobEnd, b.lastOffset)
    ensures SpanOk(b.buffer.chunks, e.blob, e.blobEnd, e.lastOffset)
    ensures Offset(e) <= |Span(b.buffer.chunks, e.blob, e.blobEnd, e.lastOffset)|
    ensures Span(b.buffer.chunks, b.blob, b.blobEnd, b.lastOffset)
         == Span(b.buffer.chunks, b.blob, GetBufferRange(b, e).EndIndex(), GetBufferRange(b, e).lastOffset)
            + Span(b.buffer.chunks, e.blob, e.blobEnd, e.lastOffset)[Offset(e)..]
  {
    GetBufferRangeWf(b, e);
    RemainingIsSpanTail(e);
    if Offset(e) == 0 {
      SpanSplit(b.buffer.chunks, b.blob, e.blob, b.blobEnd, b.lastOffset);
    } else {
      SpanCutSplit(b.buffer.chunks, b.blob, e.blob, b.blobEnd, b.lastOffset, Offset(e));
    }
  }

  /**
   * The range between two cursors of one reader holds exactly the bytes read in between,
   * provided the reader's last chunk is not cut or `e` is not at end.
   */
  lemma GetBufferRangeBytes(b: Cursor, e: Cursor)
    requires b.Valid() && e.Valid() && Precedes(b, e)
    requires e.isEof ==> e.lastOffset == 0
    ensures e.isEof || !b.isEof
    ensures GetBufferRange(b, e).Wf()
    ensures b.Remaining() == GetBufferRange(b, e).Bytes() + e.Remaining()
  {
    GetBufferRangeWf(b, e);
    StretchSplitsAtEnd(b, e);
    RemainingIsSpanTail(b);
    RemainingIsSpanTail(e);
    var chunks := b.buffer.chunks;
    var r := GetBufferRange(b, e);
    var stretch := Span(chunks, b.blob, r.EndIndex(), r.lastOffset);
    var tail := Span(chunks, e.blob, e.blobEnd, e.lastOffset)[Offset(e)..];
    assert e.Remaining() == tail;
    assert r.Bytes() == stretch[Offset(b)..];
    DropOfAppend(stretch, tail, Offset(b));
  }

  /**
   * As written, a cursor at end records chunk `blobEnd` at offset 0. When the reader's last
   * chunk is cut, that range takes the whole last chunk: here four bytes, where the reader
   * had only two left.
   */
  lemma GetBufferRangeOverreach()
    ensures var chunk: ConstBlob := BlobView(Ref(CellId(0, 1), 0), 0, [1, 2, 3, 4]);
            var buf: ConstBuffer := BufferView(Ref(CellId(0, 0), 0), [chunk]);
            var b := Cursor(buf, 0, 1, 0, 2, false, 2);
            var e := Cursor(buf, 1, 1, 0, 0, true, 2);
            b.Valid() && e.Valid() && Precedes(b, e) && GetBufferRange(b, e).Wf()
            && b.Remaining() == [1, 2] && e.Remaining() == []
            && GetBufferRange(b, e).Bytes() == [1, 2, 3, 4]
  {
    var chunk: ConstBlob := BlobView(Ref(CellId(0, 1), 0), 0, [1, 2, 3, 4]);
    var buf: ConstBuffer := BufferView(Ref(CellId(0, 0), 0), [chunk]);
    var b := Cursor(buf, 0, 1, 0, 2, false, 2);
    assert chunk.bytes[0..2] == [1, 2];
    assert b.Remaining() == [1, 2];
    assert Range(buf, 0, 0, 1, 0).EndIndex() == 1;
    assert Span(buf.chunks, 0, 1, 0) == chunk.bytes[..4] + Span(buf.chunks, 1, 1, 0);
    assert chunk.bytes[..4] == [1, 2, 3, 4];
  }

  /** GetBufferRange as intended: a cursor at end of a cut reader stands at the cut. */
  function GetBufferRangeCut(b: Cursor, e: Cursor): (r: Range)
    requires Equal(b.buffer, e.buffer)
    requires e.isEof || !b.isEof
    ensures r.buffer == b.buffer && r.firstBlob == b.blob
    ensures !e.isEof || e.lastOffset == 0 ==> r == GetBufferRange(b, e)
  {
    if e.isEof && e.lastOffset != 0 && e.blobEnd > 0 then
      Range(b.buffer, b.blob, Offset(b), e.blobEnd - 1, e.lastOffset)
    else
      GetBufferRange(b, e)
  }

  /** The range between two cursors of one reader holds exactly the bytes read in between. */
  lemma GetBufferRangeCutBytes(b: Cursor, e: Cursor)
    requires b.Valid() && e.Valid() && Precedes(b, e)
    ensures e.isEof || !b.isEof
    ensures GetBufferRangeCut(b, e).Wf()
    ensures b.Remaining() == GetBufferRangeCut(b, e).Bytes() + e.Remaining()
  {
    if !e.isEof || e.lastOffset == 0 {
      GetBufferRangeBytes(b, e);
    } else {
      var r := GetBufferRangeCut(b, e);
      assert r.EndIndex() == b.blobEnd && r.lastOffset == b.lastOffset;
      RemainingIsSpanTail(b);
      if Offset(b) != 0 {
        SpanLength(b.buffer.chunks, b.blob, b.blobEnd, b.lastOffset);
      }
      assert r.Wf();
      assert b.Remaining() + [] == b.Remaining();
    }
  }

  /** A cursor at the start of its first chunk, moved firstOffset bytes into it. */
  lemma SkipFirstOffset(c: Cursor, first: nat, firstOffset: nat)
    requires c.Valid() && !c.isEof && c.ptr == 0
    requires first <= c.blob && c.Remaining() == Span(c.buffer.chunks, first, c.blobEnd, c.lastOffset)
    requires firstOffset != 0 ==> c.blob == first && firstOffset <= c.ptrEnd
    ensures c.(ptr := firstOffset).Valid()
    ensures firstOffset <= |Span(c.buffer.chunks, first, c.blobEnd, c.lastOffset)|
    ensures c.(ptr := firstOffset).Remaining() == Span(c.buffer.chunks, first, c.blobEnd, c.lastOffset)[firstOffset..]
  {
    var d := c.(ptr := firstOffset);
    if firstOffset != 0 {
      SpanFromOffset(c.buffer.chunks, c.blob, c.blobEnd, c.lastOffset, firstOffset);
      assert d.Remaining()
          == c.buffer.chunks[c.blob].bytes[firstOffset..c.ptrEnd] + Span(c.buffer.chunks, c.blob + 1, c.blobEnd, c.lastOffset);
    } else {
      assert d == c;
    }
  }

  /** A reader: a cursor over a buffer, and the memory its codec blobs are cast against. */
  class InputBuffer {
    var buffer: ConstBuffer
    var blob: nat
    var blobEnd: nat
    var ptr: nat
    var ptrEnd: nat
    var isEof: bool
    var lastOffset: nat
    var memory: Option<Memory>

    function Snapshot(): Cursor
      reads this
    {
      Cursor(buffer, blob, blobEnd, ptr, ptrEnd, isEof, lastOffset)
    }

    ghost predicate Valid()
      reads this
    {
      Snapshot().Valid()
    }

    ghost function Remaining(): seq<byte>
      reads this
      requires Valid()
    {
      Snapshot().Remaining()
    }

    /** InputBuffer() = default: a reader over nothing, at end. */
    constructor Empty()
      ensures Valid() && isEof && Remaining() == []
      ensures buffer == NullBuffer && memory == None
    {
      buffer := NullBuffer;
      blob, blobEnd, ptr, ptrEnd := 0, 0, 0, 0;
      isEof := true;
      lastOffset := 0;
      memory := None;
    }

    /** InputBuffer(ConstBuffer, memory): all chunks of a non-null buffer; a null one reads nothing. */
    constructor FromBuffer(b: ConstBuffer, memory: Option<Memory>)
      ensures Valid() && Remaining() == Concat(b.chunks)
      ensures IsTruthy(b.handle) ==> buffer == b && this.memory == memory && blobEnd == |b.chunks|
      ensures !IsTruthy(b.handle) ==> buffer == NullBuffer && this.memory == None && isEof
      ensures lastOffset == 0
    {
      if IsTruthy(b.handle) {
        buffer := b;
        blob := 0;
        blobEnd := |b.chunks|;
        lastOffset := 0;
        this.memory := memory;
        ptr, ptrEnd := 0, 0;
        isEof := 0 == |b.chunks|;
      } else {
        buffer := NullBuffer;
        blob, blobEnd, ptr, ptrEnd := 0, 0, 0, 0;
        isEof := true;
        lastOffset := 0;
        this.memory := None;
      }
      new;
      if IsTruthy(b.handle) {
        Open(0);
        SpanIsConcat(b.chunks, 0, |b.chunks|);
        assert b.chunks[0..|b.chunks|] == b.chunks;
      }
    }

    /** InputBuffer(Range, memory): the range's chunks, from firstOffset, the last one cut at lastOffset. */
    constructor FromRange(range: Range, memory: Option<Memory>)
      requires range.Wf()
      ensures Valid() && Remaining() == range.Bytes()
      ensures buffer == range.buffer && this.memory == memory
      ensures blobEnd == range.EndIndex() && lastOffset == range.lastOffset
    {
      buffer := range.buffer;
      blob := range.firstBlob;
      var end := if range.lastOffset != 0 then range.lastBlob + 1 else range.lastBlob;
      blobEnd := end;
      lastOffset := range.lastOffset;
      this.memory := memory;
      ptr, ptrEnd := 0, 0;
      isEof := range.firstBlob == end;
      new;
      assert blobEnd == range.EndIndex();
      Open(range.firstOffset);
    }

    /** The body of the private constructor: find the first chunk with bytes, then skip firstOffset. */
    method Open(firstOffset: nat)
      requires Snapshot().Positioned() && isEof == (blob == blobEnd)
      requires firstOffset != 0 ==>
        blob < blobEnd && Live(buffer.chunks[blob])
        && firstOffset <= PieceEnd(buffer.chunks, blob, blobEnd, lastOffset)
      modifies this`blob, this`isEof, this`ptr, this`ptrEnd
      ensures Valid()
      ensures SpanOk(buffer.chunks, old(blob), blobEnd, lastOffset)
      ensures firstOffset <= |Span(buffer.chunks, old(blob), blobEnd, lastOffset)|
      ensures Remaining() == Span(buffer.chunks, old(blob), blobEnd, lastOffset)[firstOffset..]
    {
      ghost var first := blob;
      var found := UpdateData();
      if found {
        ghost var c := Snapshot();
        SkipFirstOffset(c, first, firstOffset);
        ptr := ptr + firstOffset;
        assert Snapshot() == c.(ptr := firstOffset);
      } else {
        assert firstOffset == 0;
      }
    }

    /** SkipEmptyBlobs: advance over null and empty chunks; true when none with bytes is left. */
    method SkipEmptyBlobs() returns (exhausted: bool)
      requires blob <= blobEnd <= |buffer.chunks| && isEof == (blob == blobEnd)
      modifies this`blob, this`isEof
      ensures blob == NextLive(buffer.chunks, old(blob), blobEnd)
      ensures exhausted == (blob == blobEnd) && isEof == exhausted
    {
      while blob != blobEnd
        invariant old(blob) <= blob <= blobEnd
        invariant NextLive(buffer.chunks, old(blob), blobEnd) == NextLive(buffer.chunks, blob, blobEnd)
        invariant isEof == old(isEof) && (old(blob) == blobEnd) == old(isEof)
        decreases blobEnd - blob
      {
        var current := buffer.chunks[blob];
        if IsTruthy(current.handle) && Size(current) != 0 {
          return false;
        }
        blob := blob + 1;
      }
      isEof := true;
      return true;
    }

    /** UpdateData: stand at the start of the next chunk with bytes, or at end with null pointers. */
    method UpdateData() returns (found: bool)
      requires Snapshot().Positioned() && isEof == (blob == blobEnd)
      modifies this`blob, this`isEof, this`ptr, this`ptrEnd
      ensures Valid() && found == !isEof
      ensures blob == NextLive(buffer.chunks, old(blob), blobEnd)
      ensures found ==> ptr == 0
      ensures Remaining() == Span(buffer.chunks, old(blob), blobEnd, lastOffset)
    {
      ghost var from := blob;
      var exhausted := SkipEmptyBlobs();
      SpanSkipsEmpty(buffer.chunks, from, blob, blobEnd, lastOffset);
      if !exhausted {
        var current := buffer.chunks[blob];
        ptr := 0;
        ptrEnd := if lastOffset != 0 && blob + 1 == blobEnd then lastOffset else Size(current);
        assert current.bytes[0..ptrEnd] == current.bytes[..ptrEnd];
        return true;
      }
      ptr, ptrEnd := 0, 0;
      return false;
    }

    /** MoveNext: leave the current chunk for the next one with bytes. */
    method MoveNext()
      requires Valid() && !isEof
      modifies this`blob, this`isEof, this`ptr, this`ptrEnd
      ensures Valid() && !Snapshot().Stuck()
      ensures blob == NextLive(buffer.chunks, old(blob) + 1, blobEnd)
      ensures Remaining() == Span(buffer.chunks, old(blob) + 1, blobEnd, lastOffset)
    {
      blob := blob + 1;
      isEof := blob == blobEnd;
      var _ := UpdateData();
    }

    /** BeginRead's check: the window holds up to `p` and the reader is not at end. */
    predicate CanRead(p: nat): (r: bool)
      reads this
      ensures r && Valid() && ptr <= p ==>
        !isEof && p <= ptrEnd && p - ptr <= |Remaining()| && Remaining()[..p - ptr] == buffer.chunks[blob].bytes[ptr..p]
    {
      !(p > ptrEnd || isEof)
    }

    /** EndRead: move to `p`, or to the next chunk when `p` is the window's end. */
    method EndRead(p: nat)
      requires Valid() && !isEof && ptr <= p <= ptrEnd
      modifies this`blob, this`isEof, this`ptr, this`ptrEnd
      ensures Valid() && !Snapshot().Stuck() && Precedes(old(Snapshot()), Snapshot())
      ensures Remaining() == old(Remaining())[p - old(ptr)..]
      ensures p != old(ptrEnd) ==> blob == old(blob) && ptr == p && ptrEnd == old(ptrEnd)
      ensures p == old(ptrEnd) ==> blob == NextLive(buffer.chunks, old(blob) + 1, blobEnd)
    {
      if p != ptrEnd {
        ptr := p;
      } else {
        MoveNext();
      }
    }

    /** The next `n` bytes of the current window, copied out without moving. */
    function Peek(n: nat): (r: seq<byte>)
      reads this
      requires Valid() && !isEof && ptr + n <= ptrEnd
      ensures |r| == n && r == Remaining()[..n]
      ensures n <= |Remaining()|
    {
      var window := buffer.chunks[blob].bytes[ptr..ptrEnd];
      assert Remaining() == window + Span(buffer.chunks, blob + 1, blobEnd, lastOffset);
      window[..n]
    }

    /** ReadSingle: a read inside the current window, failing without any change otherwise. */
    method ReadSingle(size: nat) returns (r: Result<seq<byte>>)
      requires Valid()
      modifies this`blob, this`isEof, this`ptr, this`ptrEnd
      ensures Valid()
      ensures r.Ok? <==> !old(isEof) && old(ptr) + size <= old(ptrEnd)
      ensures r.Ok? ==> r.value == old(buffer.chunks[blob].bytes[ptr..ptr + size])
      ensures r.Ok? ==> r.value == old(Remaining())[..size] && Remaining() == old(Remaining())[size..]
      ensures r.Ok? ==> !Snapshot().Stuck() && Precedes(old(Snapshot()), Snapshot())
      ensures r.Ok? && old(ptr) + size != old(ptrEnd) ==> blob == old(blob) && ptr == old(ptr) + size
      ensures r.Ok? && old(ptr) + size == old(ptrEnd) ==> blob == NextLive(buffer.chunks, old(blob) + 1, blobEnd)
      ensures r.Err? ==> r.error == OutOfRange && Snapshot() == old(Snapshot())
    {
      var p := ptr + size;
      if !CanRead(p) {
        return Err(OutOfRange);
      }
      var window := Peek(size);
      EndRead(p);
      r := Ok(window);
    }

    /** One pass of ReadMultiple's loop: min(window left, `left`) bytes through ReadSingle. */
    method ReadPart(left: nat) returns (r: Result<seq<byte>>)
      requires Valid() && left != 0
      modifies this`blob, this`isEof, this`ptr, this`ptrEnd
      ensures Valid()
      ensures r.Err? ==> r.error == OutOfRange && old(Remaining()) == [] && Snapshot() == old(Snapshot())
      ensures r.Ok? ==> |r.value| <= left && old(Remaining()) == r.value + Remaining()
      ensures r.Ok? ==> Precedes(old(Snapshot()), Snapshot())
      ensures r.Ok? ==> |r.value| != 0 || old(blob) < blob
    {
      var n: nat := if ptrEnd - ptr < left then ptrEnd - ptr else left;
      ghost var before := Remaining();
      r := ReadSingle(n);
      if r.Ok? {
        SplitAt(before, n);
      }
    }

    /**
     * ReadMultiple: a read across chunks that puts the cursor back when it runs out of bytes.
     * `delivered` is what the per-piece callback was handed, in order: on failure that is
     * everything that was left, because the chunks run out only at end.
     */
    method ReadMultiple(size: nat) returns (r: Result<seq<byte>>, delivered: seq<byte>)
      requires Valid()
      modifies this`blob, this`isEof, this`ptr, this`ptrEnd
      ensures Valid()
      ensures r.Ok? <==> size <= |old(Remaining())|
      ensures r.Ok? ==> r.value == old(Remaining())[..size] && Remaining() == old(Remaining())[size..]
      ensures r.Ok? ==> Precedes(old(Snapshot()), Snapshot()) && delivered == r.value
      ensures r.Err? ==> r.error == OutOfRange && Snapshot() == old(Snapshot())
      ensures r.Err? ==> delivered == old(Remaining()) && |delivered| < size
    {
      ghost var start := Remaining();
      ghost var origin := Snapshot();
      var savedPtr, savedPtrEnd, savedBlob := ptr, ptrEnd, blob;
      var left: nat := size;
      var read: seq<byte> := [];
      while left != 0
        invariant Valid()
        invariant start == read + Remaining()
        invariant |read| + left == size
        invariant Precedes(origin, Snapshot())
        decreases left, (blobEnd as int) - (blob as int)
      {
        ghost var at := Snapshot();
        var chunk := ReadPart(left);
        if chunk.Err? {
          assert start == read + [];
          ptr, ptrEnd, blob := savedPtr, savedPtrEnd, savedBlob;
          isEof := blob == blobEnd;
          assert Snapshot() == origin;
          return Err(chunk.error), read;
        }
        TransitivePrecedes(origin, at, Snapshot());
        AppendAssoc(read, chunk.value, Remaining());
        read := read + chunk.value;
        left := left - |chunk.value|;
      }
      PrefixOf(start, read, Remaining());
      r, delivered := Ok(read), read;
    }

    /** Read(T&): a value of `width` bytes, which must lie in the current chunk. */
    method ReadValue(width: nat) returns (r: Result<seq<byte>>)
      requires Valid()
      modifies this`blob, this`isEof, this`ptr, this`ptrEnd
      ensures Valid()
      ensures r.Ok? <==> !old(isEof) && old(ptr) + width <= old(ptrEnd)
      ensures r.Ok? ==> r.value == old(Remaining())[..width] && Remaining() == old(Remaining())[width..]
      ensures r.Ok? ==> !Snapshot().Stuck()
      ensures r.Err? ==> r.error == OutOfRange && Snapshot() == old(Snapshot())
    {
      r := ReadSingle(width);
    }

    /**
     * Read(void*, size): `size` bytes, across chunks when needed, memcpy'd piece by piece into
     * the caller's buffer; `copied` is what lands at the buffer's start. A failed read puts the
     * cursor back but has already copied every byte that was left.
     */
    method ReadBytes(size: nat) returns (r: Result<()>, copied: seq<byte>)
      requires Valid()
      modifies this`blob, this`isEof, this`ptr, this`ptrEnd
      ensures Valid()
      ensures r.Ok? <==> size <= |old(Remaining())|
      ensures r.Ok? ==> copied == old(Remaining())[..size] && Remaining() == old(Remaining())[size..]
      ensures r.Err? ==> r.error == OutOfRange && Snapshot() == old(Snapshot())
      ensures r.Err? ==> copied == old(Remaining()) && |copied| < size
    {
      var read;
      read, copied := ReadMultiple(size);
      if read.Err? {
        return Err(read.error), copied;
      }
      r := Ok(());
    }

    /** Skip(size): drop `size` bytes, across chunks when needed. */
    method Skip(size: nat) returns (r: Result<()>)
      requires Valid()
      modifies this`blob, this`isEof, this`ptr, this`ptrEnd
      ensures Valid()
      ensures r.Ok? <==> size <= |old(Remaining())|
      ensures r.Ok? ==> Remaining() == old(Remaining())[size..]
      ensures r.Err? ==> r.error == OutOfRange && Snapshot() == old(Snapshot())
    {
      var skipped, _ := ReadMultiple(size);
      if skipped.Err? {
        return Err(skipped.error);
      }
      r := Ok(());
    }

    /** The chunk the cursor stands in (a null one at end). */
    function Current(): ConstBlob
      reads this
    {
      if blob < |buffer.chunks| then buffer.chunks[blob] else EmptyBlob
    }

    /**
     * Read(bond::blob&, size): a codec blob over `size` bytes of the current chunk, sharing
     * the chunk instead of copying it.
     */
    method ReadBlob(size: nat) returns (r: Result<BlobCast.CodecBlob>)
      requires Valid()
      requires !isEof && ptr + size <= ptrEnd ==> BlobCast.CanCast(Current(), memory)
      modifies this`blob, this`isEof, this`ptr, this`ptrEnd
      ensures Valid()
      ensures r.Ok? <==> !old(isEof) && old(ptr) + size <= old(ptrEnd)
      ensures r.Ok? ==> BlobCast.Content(r.value) == old(Remaining())[..size] && Remaining() == old(Remaining())[size..]
      ensures r.Ok? ==> r.value.hook == BlobCast.Holder(old(Current()), memory)
      ensures r.Ok? ==> GetRange(old(Current()), old(ptr), size).Ok?
                        && BlobCast.FromCodec(r.value) == GetRange(old(Current()), old(ptr), size).value
      ensures r.Err? ==> r.error == OutOfRange && Snapshot() == old(Snapshot())
    {
      var current := Current();
      var offset := ptr;
      var window := ReadSingle(size);
      if window.Err? {
        return Err(window.error);
      }
      var codec := BlobCast.ToCodec(current, memory);
      r := Ok(BlobCast.SubBlob(codec, offset, size));
      BlobCast.SubRangeRoundTrip(current, memory, offset, size);
    }

    /** Allocate(size): the address of `size` readable bytes of the current chunk. */
    method Allocate(size: nat) returns (r: Result<Address>)
      requires Valid()
      modifies this`blob, this`isEof, this`ptr, this`ptrEnd
      ensures Valid()
      ensures r.Ok? <==> !old(isEof) && old(ptr) + size <= old(ptrEnd)
      ensures r.Ok? ==> old(Current()).handle.Ref? && r.value == Address(old(Current()).handle.cell, old(Current()).base + old(ptr))
      ensures r.Ok? ==> Remaining() == old(Remaining())[size..]
      ensures r.Err? ==> r.error == OutOfRange && Snapshot() == old(Snapshot())
    {
      var current := Current();
      var offset := ptr;
      assert !isEof ==> Live(current);
      var window := ReadSingle(size);
      if window.Err? {
        return Err(window.error);
      }
      r := Ok(Address(current.handle.cell, current.base + offset));
    }

    /**
     * ReadVariableUnsigned: the `length` bytes of an encoding of a `width`-byte value. With
     * room for the longest encoding in the current window they are taken at once; otherwise
     * the generic reader takes them byte by byte.
     */
    method ReadVariableUnsigned(width: nat, length: nat) returns (r: Result<seq<byte>>)
      requires Valid()
      requires 1 <= length <= Varint.MaxLength(width)
      modifies this`blob, this`isEof, this`ptr, this`ptrEnd
      ensures Valid()
      ensures r.Ok? <==> !old(Snapshot()).Stuck() && length <= |old(Remaining())|
      ensures r.Ok? ==> r.value == old(Remaining())[..length] && Remaining() == old(Remaining())[length..]
      ensures r.Err? ==> r.error == OutOfRange
      ensures r.Err? && old(Snapshot()).Stuck() ==> Snapshot() == old(Snapshot())
      ensures r.Err? && !old(Snapshot()).Stuck() ==> isEof && Remaining() == []
    {
      if Varint.FastPath(ptr, ptrEnd, width) {
        Varint.FastPathFits(ptr, ptrEnd, width);
        var encoded := Peek(length);
        EndRead(ptr + length);
        r := Ok(encoded);
      } else {
        r := ReadEach(length);
      }
    }

    /**
     * GenericReadVariableUnsigned: one single-byte read per encoded byte; when the input runs
     * out it fails keeping what was consumed.
     */
    method ReadEach(length: nat) returns (r: Result<seq<byte>>)
      requires Valid() && 1 <= length
      modifies this`blob, this`isEof, this`ptr, this`ptrEnd
      ensures Valid()
      ensures r.Ok? <==> !old(Snapshot()).Stuck() && length <= |old(Remaining())|
      ensures r.Ok? ==> r.value == old(Remaining())[..length] && Remaining() == old(Remaining())[length..]
      ensures r.Err? ==> r.error == OutOfRange
      ensures r.Err? && old(Snapshot()).Stuck() ==> Snapshot() == old(Snapshot())
      ensures r.Err? && !old(Snapshot()).Stuck() ==> isEof && Remaining() == []
    {
      ghost var start := Remaining();
      ghost var origin := Snapshot();
      var read: seq<byte> := [];
      while |read| < length
        invariant Valid() && |read| <= length
        invariant start == read + Remaining()
        invariant |read| > 0 ==> !Snapshot().Stuck()
        invariant |read| == 0 ==> Snapshot() == origin
        invariant origin.Stuck() ==> |read| == 0
      {
        ghost var before := Remaining();
        var next := ReadSingle(1);
        if next.Err? {
          return Err(next.error);
        }
        SplitAt(before, 1);
        AppendAssoc(read, next.value, Remaining());
        read := read + next.value;
      }
      PrefixOf(start, read, Remaining());
      r := Ok(read);
    }

    /** IsEof, with the consistency the source asserts. */
    function IsEof(): (r: bool)
      reads this
      requires Valid()
      ensures r <==> blob == blobEnd
      ensures r ==> Remaining() == []
      ensures !r ==> |Remaining()| > 0 || Snapshot().Stuck()
    {
      isEof
    }

    /** operator==: same position of the same chunk list. */
    predicate Same(other: InputBuffer): (r: bool)
      reads this, other
      ensures r && Valid() && other.Valid() && buffer == other.buffer ==>
        isEof == other.isEof && Remaining() == other.Remaining()
    {
      SameCursor(Snapshot(), other.Snapshot())
    }

    /** GetCurrentBuffer: a copy of the reader, which reads on from the same position. */
    method GetCurrentBuffer() returns (copy: InputBuffer)
      ensures fresh(copy) && copy.Snapshot() == Snapshot() && copy.memory == memory
      ensures Valid() ==> copy.Valid() && copy.Remaining() == Remaining() && copy.Same(this)
    {
      copy := new InputBuffer.Empty();
      copy.buffer, copy.blob, copy.blobEnd := buffer, blob, blobEnd;
      copy.ptr, copy.ptrEnd, copy.isEof := ptr, ptrEnd, isEof;
      copy.lastOffset, copy.memory := lastOffset, memory;
    }
  }

  /** CreateInputBuffer: a reader over a range, sharing the other reader's memory. */
  method CreateInputBuffer(other: InputBuffer, range: Range) returns (input: InputBuffer)
    requires range.Wf()
    ensures fresh(input) && input.Valid() && input.Remaining() == range.Bytes()
    ensures input.buffer == range.buffer && input.memory == other.memory
  {
    input := new InputBuffer.FromRange(range, other.memory);
  }
}
