/**
 * The buffer pool: cells recycled through a free queue, exclusive views (Blob, Buffer)
 * and frozen shared views (ConstBlob, ConstBuffer) over them, and the Range descriptor
 * of a stretch of a ConstBuffer.
 */
module BufferPool {
  import opened Wrappers

  newtype byte = b: int | 0 <= b < 256

  /** A shared memory mapping, known by its identity only. */
  datatype Memory = Memory(id: nat)

  /** A pool cell: the memory it was allocated in and its slot in the pool. */
  datatype CellId = CellId(memory: nat, slot: nat)

  type QueueId = nat

  /**
   * The pair of shared references every pool item holds (the cell and the pool's queue).
   * Every constructor of an item sets both or neither, so the pair is present or absent.
   */
  datatype Handle = Null | Ref(cell: CellId, queue: QueueId)

  /** operator bool of a pool item: both references are present. */
  predicate IsTruthy(h: Handle) { h.Ref? }

  /** A byte address inside a cell's byte region. */
  datatype Address = Address(cell: CellId, index: int)

  /** SharedMemory::Contains: the address lies in the given mapping; null lies nowhere. */
  predicate Contains(m: Memory, a: Option<Address>)
  {
    a.Some? && a.value.cell.memory == m.id
  }

  /** An exclusive view of a cell's byte region and the capacity that region has reserved. */
  datatype Blob = Blob(handle: Handle, bytes: seq<byte>, capacity: nat)

  /** A shared, frozen view: the handle it keeps alive, where it starts, and the bytes it sees. */
  datatype BlobView = BlobView(handle: Handle, base: nat, bytes: seq<byte>)

  /** A null ConstBlob views nothing. */
  type ConstBlob = v: BlobView | v.handle.Ref? || v.bytes == [] witness BlobView(Null, 0, [])

  const EmptyBlob: ConstBlob := BlobView(Null, 0, [])

  /** ConstBlob::size(): the number of viewed bytes; only a live blob views any. */
  function Size(c: ConstBlob): (n: nat)
    ensures n == |c.bytes|
    ensures n != 0 ==> IsTruthy(c.handle)
  {
    |c.bytes|
  }

  /** ConstBlob::data(): the address of the first viewed byte, null for a null blob. */
  function Data(c: ConstBlob): (a: Option<Address>)
    ensures a.Some? <==> IsTruthy(c.handle)
    ensures a.Some? ==> a.value.cell == c.handle.cell && a.value.index == c.base
    ensures forall m: Memory :: Contains(m, a) <==> IsTruthy(c.handle) && c.handle.cell.memory == m.id
  {
    if c.handle.Ref? then Some(Address(c.handle.cell, c.base)) else None
  }

  /** The address data() + size() - 1 that the casts check against the memory. */
  function LastByte(c: ConstBlob): Option<Address>
  {
    if c.handle.Ref? then Some(Address(c.handle.cell, c.base + |c.bytes| - 1)) else None
  }

  /** ConstBlob(const Blob&): freeze a whole exclusive region into a shared view. */
  function Freeze(b: Blob): (c: ConstBlob)
    requires b.handle.Ref? || b.bytes == []
    ensures c.handle == b.handle && c.bytes == b.bytes && Size(c) == |b.bytes|
    ensures b.handle.Ref? ==> Data(c) == Some(Address(b.handle.cell, 0))
  {
    BlobView(b.handle, 0, b.bytes)
  }

  /** ConstBlob::GetRange: a sub-view sharing the same handle, bounds-checked. */
  function GetRange(c: ConstBlob, offset: nat, count: nat): (r: Result<ConstBlob>)
    ensures r.Err? <==> offset + count > Size(c)
    ensures r.Err? ==> r.error == OutOfRange
    ensures r.Ok? ==> r.value.handle == c.handle && Size(r.value) == count
    ensures r.Ok? ==> r.value.bytes == c.bytes[offset..offset + count]
    ensures r.Ok? && c.handle.Ref? ==> Data(r.value) == Some(Address(c.handle.cell, c.base + offset))
  {
    if offset + count > |c.bytes| then Err(OutOfRange)
    else
      var v: ConstBlob := BlobView(c.handle, c.base + offset, c.bytes[offset..offset + count]);
      Ok(v)
  }

  /** Taking the whole range of a view gives the view back. */
  lemma GetRangeWhole(c: ConstBlob)
    ensures GetRange(c, 0, Size(c)) == Ok(c)
  {
    assert c.bytes[0..|c.bytes|] == c.bytes;
  }

  /** A range of a range is a range of the original view. */
  lemma GetRangeOfRange(c: ConstBlob, o1: nat, n1: nat, o2: nat, n2: nat)
    requires o1 + n1 <= Size(c) && o2 + n2 <= n1
    ensures GetRange(c, o1, n1).Ok?
    ensures GetRange(GetRange(c, o1, n1).value, o2, n2) == GetRange(c, o1 + o2, n2)
  {
    var inner := GetRange(c, o1, n1).value;
    assert inner.bytes[o2..o2 + n2] == c.bytes[o1 + o2..o1 + o2 + n2];
  }

  /** A shared chunk list; a null ConstBuffer has no chunks. */
  datatype BufferView = BufferView(handle: Handle, chunks: seq<ConstBlob>)

  type ConstBuffer = v: BufferView | v.handle.Ref? || v.chunks == [] witness BufferView(Null, [])

  const NullBuffer: ConstBuffer := BufferView(Null, [])

  /** ConstBuffer::operator==: identity of the handles, whatever the chunks. */
  function Equal(a: ConstBuffer, b: ConstBuffer): (r: bool)
    ensures r <==> a.handle == b.handle
    ensures a.handle.Null? && b.handle.Null? ==> r
    ensures IsTruthy(a.handle) != IsTruthy(b.handle) ==> !r
  {
    a.handle == b.handle
  }

  lemma AppendAssoc(x: seq<byte>, y: seq<byte>, z: seq<byte>)
    ensures x + (y + z) == (x + y) + z
  {
  }

  /** The bytes of a chunk list, in order. */
  function Concat(chunks: seq<ConstBlob>): seq<byte>
  {
    if chunks == [] then [] else Concat(chunks[..|chunks| - 1]) + chunks[|chunks| - 1].bytes
  }

  /** The sum of the chunk sizes. */
  function TotalSize(chunks: seq<ConstBlob>): nat
  {
    if chunks == [] then 0 else TotalSize(chunks[..|chunks| - 1]) + Size(chunks[|chunks| - 1])
  }

  lemma {:induction false} TotalSizeIsLength(chunks: seq<ConstBlob>)
    ensures TotalSize(chunks) == |Concat(chunks)|
  {
    if chunks != [] {
      TotalSizeIsLength(chunks[..|chunks| - 1]);
    }
  }

  lemma {:induction false} ConcatAppend(a: seq<ConstBlob>, b: seq<ConstBlob>)
    ensures Concat(a + b) == Concat(a) + Concat(b)
    decreases |b|
  {
    if b == [] {
      assert a + b == a;
    } else {
      assert (a + b)[..|a + b| - 1] == a + b[..|b| - 1];
      ConcatAppend(a, b[..|b| - 1]);
    }
  }

  lemma ConcatCons(c: ConstBlob, rest: seq<ConstBlob>)
    ensures Concat([c] + rest) == c.bytes + Concat(rest)
  {
    ConcatAppend([c], rest);
    assert [c][..0] == [];
  }

  /** ConstBuffer::size: adds up the chunk sizes one by one. */
  method BufferSize(b: ConstBuffer) returns (n: nat)
    ensures n == TotalSize(b.chunks)
  {
    n := 0;
    var i := 0;
    while i < |b.chunks|
      invariant 0 <= i <= |b.chunks|
      invariant n == TotalSize(b.chunks[..i])
    {
      assert b.chunks[..i + 1][..i] == b.chunks[..i];
      n := n + Size(b.chunks[i]);
      i := i + 1;
    }
    assert b.chunks[..i] == b.chunks;
  }

  // ---------------------------------------------------------------------------------------
  // Stretches of chunk lists

  /** Where chunk k ends inside a stretch ending at `to`: the last one may be cut at lastOffset. */
  function PieceEnd(chunks: seq<ConstBlob>, k: nat, to: nat, lastOffset: nat): nat
    requires k < |chunks|
  {
    if lastOffset != 0 && k + 1 == to then lastOffset else Size(chunks[k])
  }

  predicate SpanOk(chunks: seq<ConstBlob>, from: nat, to: nat, lastOffset: nat)
  {
    from <= to <= |chunks| && (lastOffset != 0 && from < to ==> lastOffset <= Size(chunks[to - 1]))
  }

  /** The bytes of chunks [from, to), the last one cut at lastOffset when that is not 0. */
  function Span(chunks: seq<ConstBlob>, from: nat, to: nat, lastOffset: nat): seq<byte>
    requires from <= to <= |chunks|
    requires lastOffset != 0 && from < to ==> lastOffset <= Size(chunks[to - 1])
    decreases (to as int) - (from as int)
  {
    if from == to then []
    else chunks[from].bytes[..PieceEnd(chunks, from, to, lastOffset)] + Span(chunks, from + 1, to, lastOffset)
  }

  lemma {:induction false} SpanLength(chunks: seq<ConstBlob>, from: nat, to: nat, lastOffset: nat)
    requires SpanOk(chunks, from, to, lastOffset) && from < to
    ensures |Span(chunks, from, to, lastOffset)| >= PieceEnd(chunks, from, to, lastOffset)
  {
  }

  /** A stretch splits at any inner chunk boundary; only the part ending at `to` is cut. */
  lemma {:induction false} SpanSplit(chunks: seq<ConstBlob>, a: nat, b: nat, c: nat, lastOffset: nat)
    requires a <= b <= c && SpanOk(chunks, a, c, lastOffset)
    requires b < c || lastOffset == 0
    ensures SpanOk(chunks, a, b, 0) && SpanOk(chunks, b, c, lastOffset)
    ensures Span(chunks, a, c, lastOffset) == Span(chunks, a, b, 0) + Span(chunks, b, c, lastOffset)
    decreases (b as int) - (a as int)
  {
    if a < b {
      SpanSplit(chunks, a + 1, b, c, lastOffset);
      assert PieceEnd(chunks, a, c, lastOffset) == PieceEnd(chunks, a, b, 0);
    }
  }

  /** An uncut stretch grows by one whole chunk at its end. */
  lemma SpanAppendChunk(chunks: seq<ConstBlob>, a: nat, b: nat)
    requires a <= b < |chunks|
    ensures SpanOk(chunks, a, b + 1, 0)
    ensures Span(chunks, a, b + 1, 0) == Span(chunks, a, b, 0) + chunks[b].bytes
  {
    SpanSplit(chunks, a, b, b + 1, 0);
    assert Span(chunks, b, b + 1, 0) == chunks[b].bytes[..Size(chunks[b])] + [];
    assert chunks[b].bytes[..Size(chunks[b])] == chunks[b].bytes;
  }

  /** An uncut stretch is the concatenation of its chunks. */
  lemma {:induction false} SpanIsConcat(chunks: seq<ConstBlob>, a: nat, b: nat)
    requires a <= b <= |chunks|
    ensures SpanOk(chunks, a, b, 0)
    ensures Span(chunks, a, b, 0) == Concat(chunks[a..b])
    decreases (b as int) - (a as int)
  {
    if a < b {
      SpanIsConcat(chunks, a, b - 1);
      SpanSplit(chunks, a, b - 1, b, 0);
      assert chunks[a..b][..b - a - 1] == chunks[a..b - 1];
      assert chunks[b - 1].bytes[..Size(chunks[b - 1])] == chunks[b - 1].bytes;
    }
  }

  /** Chunks without bytes contribute nothing to a stretch. */
  lemma {:induction false} SpanSkipsEmpty(chunks: seq<ConstBlob>, a: nat, b: nat, c: nat, lastOffset: nat)
    requires a <= b <= c && SpanOk(chunks, a, c, lastOffset)
    requires forall k :: a <= k < b ==> Size(chunks[k]) == 0
    ensures SpanOk(chunks, b, c, lastOffset)
    ensures Span(chunks, a, c, lastOffset) == Span(chunks, b, c, lastOffset)
    decreases (b as int) - (a as int)
  {
    if a < b {
      SpanSkipsEmpty(chunks, a + 1, b, c, lastOffset);
    }
  }

  /**
   * ConstBuffer::Range: the stretch of `buffer` from firstOffset in chunk firstBlob up to
   * lastOffset in chunk lastBlob, where a lastOffset of 0 makes lastBlob an exclusive end.
   */
  datatype Range = Range(buffer: ConstBuffer, firstBlob: nat, firstOffset: nat, lastBlob: nat, lastOffset: nat)
  {
    /** Range::IsEmpty: same chunk and same offset at both ends. */
    predicate IsEmpty() { firstBlob == lastBlob && firstOffset == lastOffset }

    /** One past the last chunk the range touches. */
    function EndIndex(): nat { if lastOffset != 0 then lastBlob + 1 else lastBlob }

    /** The offsets lie inside the chunks they name. */
    predicate Wf()
    {
      firstBlob <= EndIndex() <= |buffer.chunks|
      && (lastOffset != 0 ==> lastOffset <= Size(buffer.chunks[lastBlob]))
      && (firstOffset != 0 ==>
            firstBlob < EndIndex() && firstOffset <= PieceEnd(buffer.chunks, firstBlob, EndIndex(), lastOffset))
    }

    /** The bytes the range stands for. */
    function Bytes(): seq<byte>
      requires Wf()
    {
      var whole := Span(buffer.chunks, firstBlob, EndIndex(), lastOffset);
      if firstOffset == 0 then whole
      else
        SpanLength(buffer.chunks, firstBlob, EndIndex(), lastOffset);
        whole[firstOffset..]
    }
  }

  /** An empty range stands for no bytes. */
  lemma EmptyRangeHasNoBytes(r: Range)
    requires r.Wf() && r.IsEmpty()
    ensures r.Bytes() == []
  {
    if r.lastOffset != 0 {
      assert r.EndIndex() == r.firstBlob + 1;
      assert Span(r.buffer.chunks, r.firstBlob + 1, r.EndIndex(), r.lastOffset) == [];
    }
  }

  /** A range over a whole buffer stands for its concatenation. */
  lemma WholeRangeBytes(b: ConstBuffer)
    ensures Range(b, 0, 0, |b.chunks|, 0).Wf()
    ensures Range(b, 0, 0, |b.chunks|, 0).Bytes() == Concat(b.chunks)
  {
    SpanIsConcat(b.chunks, 0, |b.chunks|);
    assert b.chunks[0..|b.chunks|] == b.chunks;
  }

  // ---------------------------------------------------------------------------------------
  // The pool

  /** A pool cell: its byte region, the capacity that region keeps, and its chunk list. */
  datatype Cell = Cell(blob: seq<byte>, capacity: nat, buffer: seq<ConstBlob>)

  /**
   * The pool's cells by slot, how many handles outside the free queue refer to each, and
   * the free queue itself (popped at the front, pushed at the back).
   */
  datatype PoolState = PoolState(cells: seq<Cell>, owners: seq<nat>, free: seq<nat>)

  predicate IsCleared(c: Cell) { c.blob == [] && c.buffer == [] }

  /** Queued cells are cleared, distinct and owned by no handle. */
  predicate PoolValid(s: PoolState)
  {
    |s.owners| == |s.cells|
    && (forall i :: 0 <= i < |s.free| ==> s.free[i] < |s.cells| && s.owners[s.free[i]] == 0)
    && (forall i :: 0 <= i < |s.free| ==> IsCleared(s.cells[s.free[i]]))
    && (forall i, j :: 0 <= i < j < |s.free| ==> s.free[i] != s.free[j])
  }

  /** A slot that is handed out has at least one owner. */
  predicate Owned(s: PoolState, slot: nat)
  {
    slot < |s.owners| == |s.cells| && s.owners[slot] >= 1
  }

  /** Impl::Take: pop a cell from the free queue, or allocate a fresh one. */
  function TakeOf(s: PoolState): (r: (PoolState, nat))
    requires PoolValid(s)
    ensures PoolValid(r.0) && Owned(r.0, r.1) && r.0.owners[r.1] == 1
    ensures IsCleared(r.0.cells[r.1])
    ensures |s.free| > 0 ==> r.1 == s.free[0] && r.0.free == s.free[1..] && r.0.cells == s.cells
    ensures |s.free| == 0 ==> r.1 == |s.cells| && r.0.cells == s.cells + [Cell([], 0, [])] && r.0.free == []
    ensures forall k :: 0 <= k < |s.owners| && k != r.1 ==> r.0.owners[k] == s.owners[k]
  {
    if |s.free| > 0 then
      var slot := s.free[0];
      (PoolState(s.cells, s.owners[slot := 1], s.free[1..]), slot)
    else
      (PoolState(s.cells + [Cell([], 0, [])], s.owners + [1], []), |s.cells|)
  }

  /** Taking a cell never hands out one that is still owned, and leaves the owned ones owned. */
  lemma TakeKeepsOwned(s: PoolState, slot: nat)
    requires PoolValid(s) && Owned(s, slot)
    ensures TakeOf(s).1 != slot
    ensures Owned(TakeOf(s).0, slot) && TakeOf(s).0.owners[slot] == s.owners[slot]
  {
    if |s.free| > 0 {
      assert s.owners[s.free[0]] == 0;
    }
  }

  /** Copying a handle: one more owner. */
  function ShareOf(s: PoolState, slot: nat): (r: PoolState)
    requires PoolValid(s) && Owned(s, slot)
    ensures PoolValid(r) && Owned(r, slot) && r.owners[slot] == s.owners[slot] + 1
    ensures r.cells == s.cells && r.free == s.free
  {
    PoolState(s.cells, s.owners[slot := s.owners[slot] + 1], s.free)
  }

  /**
   * ~ItemBase: the last owner clears the cell's bytes and chunk list (keeping its capacity)
   * and pushes it on the free queue; any other owner only gives up its reference.
   */
  function ReleaseOf(s: PoolState, slot: nat): (r: PoolState)
    requires PoolValid(s) && Owned(s, slot)
    ensures PoolValid(r)
    ensures s.owners[slot] == 1 ==>
      r.free == s.free + [slot] && r.owners == s.owners[slot := 0]
      && r.cells == s.cells[slot := Cell([], s.cells[slot].capacity, [])]
    ensures s.owners[slot] > 1 ==>
      r.free == s.free && r.cells == s.cells && r.owners == s.owners[slot := s.owners[slot] - 1]
  {
    if s.owners[slot] == 1 then
      PoolState(s.cells[slot := Cell([], s.cells[slot].capacity, [])], s.owners[slot := 0], s.free + [slot])
    else
      PoolState(s.cells, s.owners[slot := s.owners[slot] - 1], s.free)
  }

  /** A copy that is destroyed again leaves the pool as it was. */
  lemma ShareThenRelease(s: PoolState, slot: nat)
    requires PoolValid(s) && Owned(s, slot)
    ensures ReleaseOf(ShareOf(s, slot), slot) == s
  {
    assert s.owners[slot := s.owners[slot] + 1][slot := s.owners[slot]] == s.owners;
  }

  /** A cell given back by its only owner is the next one handed out when the queue was empty. */
  lemma RecycledCellIsReused(s: PoolState)
    requires PoolValid(s) && s.free == []
    ensures var (s1, slot) := TakeOf(s);
            var s2 := ReleaseOf(s1, slot);
            s2.free == [slot] && TakeOf(s2).1 == slot && IsCleared(TakeOf(s2).0.cells[slot])
  {
  }

  /**
   * ItemBase's implicit copy assignment of an empty item over a handle (ItemBase declares a
   * destructor, so it has no move assignment, and a defaulted or implicit move of a derived
   * item falls back to that copy). The old reference is simply dropped: without the unique()
   * test and the push of ~ItemBase, the last owner's cell is destroyed, leaving the pool
   * untracked rather than queued for reuse.
   */
  function DropOf(s: PoolState, slot: nat): (r: PoolState)
    requires PoolValid(s) && Owned(s, slot)
    ensures PoolValid(r) && |r.cells| == |s.cells|
    ensures s.owners[slot] > 1 ==> r == ReleaseOf(s, slot)
    ensures s.owners[slot] == 1 ==> r.free == s.free && r.owners[slot] == 0 && slot !in r.free
  {
    PoolState(s.cells, s.owners[slot := s.owners[slot] - 1], s.free)
  }

  /**
   * As written, a chunk whose last owner goes by assignment is not reused: with the queue
   * empty the next Take allocates a fresh cell, where a release by destruction hands the same
   * cell out again (RecycledCellIsReused).
   */
  lemma DroppedCellIsLost(s: PoolState)
    requires PoolValid(s) && s.free == []
    ensures var (s1, slot) := TakeOf(s);
            var s2 := DropOf(s1, slot);
            s2.free == [] && TakeOf(s2).1 == |s.cells| + 1 && TakeOf(s2).1 != slot
            && TakeOf(ReleaseOf(s1, slot)).1 == slot
  {
    var (s1, slot) := TakeOf(s);
    assert slot == |s.cells|;
  }

  /** The pool object: a memory, a queue and the cell store. */
  class Pool {
    const memory: Memory
    const queue: QueueId
    var cells: seq<Cell>
    var owners: seq<nat>
    var free: seq<nat>

    function State(): PoolState
      reads this
    {
      PoolState(cells, owners, free)
    }

    ghost predicate Valid()
      reads this
    {
      PoolValid(State())
    }

    /** A handle this pool gave out and that is still alive. */
    ghost predicate Holds(h: Handle)
      reads this
    {
      h.Ref? && h.queue == queue && h.cell.memory == memory.id && Owned(State(), h.cell.slot)
    }

    constructor (memory: Memory, queue: QueueId)
      ensures Valid() && State() == PoolState([], [], [])
      ensures this.memory == memory && this.queue == queue
    {
      this.memory := memory;
      this.queue := queue;
      cells, owners, free := [], [], [];
    }

    method Take() returns (slot: nat)
      requires Valid()
      modifies this
      ensures Valid() && (State(), slot) == TakeOf(old(State()))
    {
      if |free| > 0 {
        slot := free[0];
        free := free[1..];
        owners := owners[slot := 1];
      } else {
        slot := |cells|;
        cells := cells + [Cell([], 0, [])];
        owners := owners + [1];
      }
    }

    /** BufferPool::TakeBlob: an exclusive view of a taken cell's (empty) byte region. */
    method TakeBlob() returns (b: Blob)
      requires Valid()
      modifies this
      ensures Valid() && State() == TakeOf(old(State())).0
      ensures var slot := TakeOf(old(State())).1;
              b == Blob(Ref(CellId(memory.id, slot), queue), [], cells[slot].capacity) && Holds(b.handle)
    {
      var slot := Take();
      b := Blob(Ref(CellId(memory.id, slot), queue), cells[slot].blob, cells[slot].capacity);
    }

    /** BufferPool::TakeBuffer: an exclusive handle to a taken cell's (empty) chunk list. */
    method TakeBuffer() returns (h: Handle)
      requires Valid()
      modifies this
      ensures Valid() && State() == TakeOf(old(State())).0
      ensures h == Ref(CellId(memory.id, TakeOf(old(State())).1), queue) && Holds(h)
      ensures cells[h.cell.slot].buffer == []
    {
      var slot := Take();
      h := Ref(CellId(memory.id, slot), queue);
    }

    /** Copying a handle of this pool. */
    method Share(h: Handle)
      requires Valid() && Holds(h)
      modifies this
      ensures Valid() && Holds(h) && State() == ShareOf(old(State()), h.cell.slot)
    {
      owners := owners[h.cell.slot := owners[h.cell.slot] + 1];
    }

    /** ~ItemBase for a handle of this pool; a null handle does nothing. */
    method Release(h: Handle)
      requires Valid() && (h.Ref? ==> Holds(h))
      modifies this
      ensures Valid()
      ensures h.Null? ==> State() == old(State())
      ensures h.Ref? ==> State() == ReleaseOf(old(State()), h.cell.slot)
    {
      if h.Ref? {
        var slot := h.cell.slot;
        ghost var next := ReleaseOf(State(), slot);
        if owners[slot] == 1 {
          cells := cells[slot := Cell([], cells[slot].capacity, [])];
          owners := owners[slot := 0];
          free := free + [slot];
        } else {
          owners := owners[slot := owners[slot] - 1];
        }
        assert State() == next;
      }
    }
  }
}
