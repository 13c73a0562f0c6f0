# IPC.Bond buffers and ownership, in Dafny

This project models the buffer layer that IPC.Bond places between the Bond codec and shared
memory, and proves properties of that model.

- **Buffer pool** (`buffer_pool.dfy`):
  - cells are recycled through a free queue;
  - handles are counted owners of a cell, and the last owner clears the cell and queues it again;
  - exclusive views (`Blob`, `Buffer`) and frozen shared views (`ConstBlob`, `ConstBuffer`) sit over the cells;
  - `ConstBlob::GetRange` slices a chunk, bounds-checked;
  - `ConstBuffer::Range` names a stretch of a chunk list.
- **Blob bridge** (`blob_cast.dfy`):
  - the outbound cast wraps a pool chunk into a codec blob whose release hook (a `BlobHolder`) keeps the chunk alive;
  - the inbound cast recovers that chunk, cut to the codec blob's content.
- **Chunked reader** (`input_buffer.dfy`):
  - `InputBuffer` walks the chunks of a buffer or of a range, skipping null and empty chunks;
  - reads inside one chunk fail without moving the cursor;
  - reads and skips across chunks put the cursor back when they run out of bytes;
  - it also covers the fast/slow path choice for variable-length integers, `GetBufferRange`, `GetCurrentBuffer` and `CreateInputBuffer`.
- **Chunked writer** (`output_buffer.dfy`): `OutputBuffer` writes into a growable current chunk.
  - It flushes and merges that chunk into its chunk list.
  - It appends chunks of the pool's own memory by reference and copies any others.
  - It writes ranges piece by piece.
  - It hands out its buffer in three modes.
- **Interop helpers** (`interop_buffer.dfy`):
  - `ConstBuffer::GetSize`;
  - `ConstBuffer::CopyTo`, a clamped copy into a caller's array that stops at the first chunk it takes no bytes from.
- **Managed helpers**:
  - `SerializerFactory.Create` picks one of six serializers (`serializer_factory.dfy`);
  - the dispose-once wrapper `Disposable<T>` (`disposable.dfy`).

Shared notions:

- **Written and remaining bytes.** The writer's ghost `Written()` is the bytes written so far. The reader's ghost `Remaining()` is the bytes still to be read.
  - Every reader operation is specified by how it changes `Remaining()`.
  - Every writer operation is specified by how it changes `Written()`.
- **Span.** `Span(chunks, from, to, lastOffset)` is the bytes of a stretch of chunks. The last chunk of the stretch is cut at `lastOffset` when that is not 0.
- **Pool state.** The pool's bookkeeping is the value `PoolState`. The functions `TakeOf`, `ShareOf` and `ReleaseOf` describe it, and the `Pool` class methods are proved against them.
- **Shared memory.** A shared memory mapping is known only by its identity. `Contains(memory, address)` holds when the address lies in a cell allocated in that mapping.

## Model

| member | source | states |
|---|---|---|
| BufferPool.IsTruthy | Inc/IPC/Bond/BufferPool.h:77-80 | an item is true exactly when it holds its cell and queue references; the model's handle holds both or neither, so a non-null handle is true (Size and Data below rely on it) |
| BufferPool.Size | Inc/IPC/Bond/BufferPool.h:181-184 | the number of bytes between the view's begin and end; a blob that views any byte is a true item |
| BufferPool.Data | Inc/IPC/Bond/BufferPool.h:186-189 | the address of the first viewed byte, in the view's own cell at its start; present exactly for a true item, and it lies in a mapping exactly when that cell belongs to it |
| BufferPool.Freeze | Inc/IPC/Bond/BufferPool.h:167-169 | freezing a blob views its whole region: same handle and bytes; data() is the region's start |
| BufferPool.GetRange | Inc/IPC/Bond/BufferPool.h:191-201 | fails with out-of-range iff offset + count > size(); otherwise it keeps the handle, has size count, shows bytes [offset, offset+count) and starts at data() + offset |
| BufferPool.GetRangeWhole | Inc/IPC/Bond/BufferPool.h:191-201 | the range (0, size()) of a chunk is the chunk itself |
| BufferPool.GetRangeOfRange | Inc/IPC/Bond/BufferPool.h:191-201 | a range of a range is the range of the original at the summed offset |
| BufferPool.Equal | Inc/IPC/Bond/BufferPool.h:110-113 | ConstBuffer equality is handle identity, whatever the chunks hold; two null buffers are equal and a live one differs from a null one |
| BufferPool.TotalSizeIsLength | Inc/IPC/Bond/BufferPool.h:300-310 | the sum of the chunk sizes is the length of the chunks' concatenation |
| BufferPool.BufferSize | Inc/IPC/Bond/BufferPool.h:300-310 | the size() loop returns the sum of the chunk sizes |
| BufferPool.ConcatAppend | Inc/IPC/Bond/BufferPool.h:300-310 | the bytes of two chunk lists joined are the bytes of each, joined |
| BufferPool.SpanSplit | Inc/IPC/Bond/BufferPool.h:259-281 | a stretch of chunks splits at any inner chunk boundary, and only its last part is cut |
| BufferPool.SpanIsConcat | Inc/IPC/Bond/BufferPool.h:259-281 | an uncut stretch is the concatenation of its chunks |
| BufferPool.SpanSkipsEmpty | Inc/IPC/Bond/BufferPool.h:259-281 | chunks without bytes add nothing to a stretch |
| BufferPool.Range.IsEmpty | Inc/IPC/Bond/BufferPool.h:271-274 | both ends name the same chunk and the same offset; EmptyRangeHasNoBytes proves such a range stands for no bytes |
| BufferPool.EmptyRangeHasNoBytes | Inc/IPC/Bond/BufferPool.h:271-274 | a range with the same chunk and offset at both ends stands for no bytes |
| BufferPool.WholeRangeBytes | Inc/IPC/Bond/BufferPool.h:259-281 | the range from chunk 0 to the end sentinel with offsets 0 is well formed and stands for the whole buffer |
| BufferPool.TakeOf | Inc/IPC/Bond/BufferPool.h:24-32 | Take pops the queue's first cell when there is one, otherwise it appends a fresh cell; the cell it hands out is cleared and has exactly one owner, and no other owner count changes |
| BufferPool.TakeKeepsOwned | Inc/IPC/Bond/BufferPool.h:24-32 | Take never hands out a cell that is still owned, and leaves owned cells owned |
| BufferPool.ShareOf | Inc/IPC/Bond/BufferPool.h:204-208 | copying a handle adds one owner and changes nothing else |
| BufferPool.ReleaseOf | Inc/IPC/Bond/BufferPool.h:67-75 | the last owner clears the cell's bytes and chunk list and pushes it on the queue; any other owner only drops its count |
| BufferPool.DropOf | Inc/IPC/Bond/detail/BlobHolder.h:31 | assigning an empty item over a handle gives up one reference like a release, but the last owner's cell is neither cleared nor queued: its count drops to 0 outside the free queue (ItemBase has a destructor, BufferPool.h:67, hence only a copy assignment) |
| BufferPool.DroppedCellIsLost | Inc/IPC/Bond/detail/BlobHolder.h:31 | with the queue empty, a cell dropped by assignment is not handed out again (the next Take allocates a fresh one), while the same cell released by its destructor is |
| BufferPool.ShareThenRelease | Inc/IPC/Bond/BufferPool.h:67-75 | a copy that is destroyed again leaves the pool as it was |
| BufferPool.RecycledCellIsReused | Inc/IPC/Bond/BufferPool.h:24-32 | a cell released by its only owner is the next one handed out, cleared |
| BufferPool.Pool.constructor | Inc/IPC/Bond/BufferPool.h:19-22 | a new pool has no cells and an empty queue |
| BufferPool.Pool.Take | Inc/IPC/Bond/BufferPool.h:24-32 | the pool's new state and the slot it returns are TakeOf of the old state |
| BufferPool.Pool.TakeBlob | Inc/IPC/Bond/BufferPool.h:324-328 | an empty exclusive blob over a freshly taken cell, pooled in this pool |
| BufferPool.Pool.TakeBuffer | Inc/IPC/Bond/BufferPool.h:330-334 | a handle to a freshly taken cell with an empty chunk list |
| BufferPool.Pool.Share | Inc/IPC/Bond/BufferPool.h:204-208 | the pool's new state is ShareOf the old one |
| BufferPool.Pool.Release | Inc/IPC/Bond/BufferPool.h:67-75 | the pool's new state is ReleaseOf the old one; a null handle changes nothing |
| Varint.MaxLength | Inc/IPC/Bond/InputBuffer.h:61-74 | the number of 7-bit groups a value of width bytes needs at most |
| Varint.FastPathFits | Inc/IPC/Bond/InputBuffer.h:64 | when ptr + width*8/7 < ptrEnd, the longest encoding fits in the window |
| BlobCast.ToCodec | Inc/IPC/Bond/BlobCast.h:15-26 | under the cast's precondition (memory present, holding the first and last byte), the codec blob shows the chunk's bytes at the chunk's data(), with the chunk's size, through a holder of chunk and memory |
| BlobCast.SubBlob | Inc/IPC/Bond/InputBuffer.h:51 | a codec blob over part of another one's content shares its hook |
| BlobCast.FromCodec | Inc/IPC/Bond/BlobCast.h:28-40 | a holder blob gives back the held chunk cut to the content, at the content's address; any other blob gives a null, empty chunk |
| BlobCast.RoundTrip | Inc/IPC/Bond/BlobCast.h:15-37 | a chunk cast out and back in is the same chunk |
| BlobCast.SubBlobRecovers | Inc/IPC/Bond/BlobCast.h:36 | recovering part of a holder blob is GetRange of the recovered chunk |
| BlobCast.SubRangeRoundTrip | Inc/IPC/Bond/BlobCast.h:28-37 | recovering part of an outbound blob is GetRange of the original chunk |
| BlobCast.BlobHolder.constructor | Inc/IPC/Bond/detail/BlobHolder.h:19-22 | the holder stores the chunk and the memory unchanged |
| BlobCast.BlobHolder.Release | Inc/IPC/Bond/detail/BlobHolder.h:24-33 | a non-null pointer, which must be the held chunk's data(), resets the held chunk and gives its handle back to the pool as its destructor would (the corrected release; see Findings); a null pointer changes nothing |
| BlobCast.OutboundCast | Inc/IPC/Bond/BlobCast.h:15-26 | the outbound cast takes one more share of the chunk, held by a new holder |
| InputBuffer.NextLive | Inc/IPC/Bond/InputBuffer.h:174-188 | the first chunk at or after `from` that is non-null and non-empty, or the sentinel |
| InputBuffer.RemainingIsSpanTail | Inc/IPC/Bond/InputBuffer.h:202-217 | what a cursor has left is the stretch from its chunk on, less the bytes before ptr |
| InputBuffer.SameCursor | Inc/IPC/Bond/InputBuffer.h:87-90 | two readers compare equal when their pointer, chunk iterator (buffer and index), sentinel and cut agree; the window end and the end flag are not compared |
| InputBuffer.SameCursorSameRemaining | Inc/IPC/Bond/InputBuffer.h:87-90 | equal readers over one buffer agree on the end flag and the window end, and have the same bytes left, so leaving the window end and the flag out of the comparison loses nothing |
| InputBuffer.GetBufferRange | Inc/IPC/Bond/InputBuffer.h:224-235 | the range keeps the buffer, begins at b's chunk and ends at e's chunk |
| InputBuffer.SpanCutSplit | Inc/IPC/Bond/InputBuffer.h:224-235 | a stretch splits at an offset inside one of its chunks |
| InputBuffer.GetBufferRangeWf | Inc/IPC/Bond/InputBuffer.h:224-235 | between two cursors of one reader, with e not standing before b, the recorded range is well formed and e at end implies b at end |
| InputBuffer.GetBufferRangeBytes | Inc/IPC/Bond/InputBuffer.h:224-235 | for a reader whose last chunk is not cut (or e not at end), what b has left is the range's bytes followed by what e has left |
| InputBuffer.GetBufferRangeOverreach | Inc/IPC/Bond/InputBuffer.h:232-234 | a reader over [1,2,3,4] cut at 2: the range up to its end stands for 4 bytes, where 2 were left |
| InputBuffer.GetBufferRangeCut | Inc/IPC/Bond/InputBuffer.h:224-235 | as GetBufferRange, except that a cursor at end of a cut reader records the cut chunk and offset |
| InputBuffer.GetBufferRangeCutBytes | Inc/IPC/Bond/InputBuffer.h:224-235 | for every pair of cursors of one reader, what b has left is the corrected range's bytes followed by what e has left |
| InputBuffer.InputBuffer.Empty | Inc/IPC/Bond/InputBuffer.h:19 | a default reader is at end with nothing to read |
| InputBuffer.InputBuffer.FromBuffer | Inc/IPC/Bond/InputBuffer.h:21-23 | a reader over a non-null buffer reads the concatenation of its chunks; a null buffer gives a reader at end |
| InputBuffer.InputBuffer.FromRange | Inc/IPC/Bond/InputBuffer.h:25-27 | a reader over a range reads exactly the range's bytes |
| InputBuffer.InputBuffer.Open | Inc/IPC/Bond/InputBuffer.h:100-117 | the sentinel is one past the last chunk when it is cut; the reader reads the stretch from its first chunk, less firstOffset bytes |
| InputBuffer.InputBuffer.SkipEmptyBlobs | Inc/IPC/Bond/InputBuffer.h:174-188 | advances to the first chunk with bytes, and reports and records end when none is left |
| InputBuffer.InputBuffer.UpdateData | Inc/IPC/Bond/InputBuffer.h:202-217 | stands at the start of the next chunk with bytes, its window ending at the cut for the last chunk; otherwise at end with null pointers; what is left is the stretch from the old chunk |
| InputBuffer.InputBuffer.MoveNext | Inc/IPC/Bond/InputBuffer.h:168-172 | leaves the current chunk: what is left is the stretch after it |
| InputBuffer.InputBuffer.CanRead | Inc/IPC/Bond/InputBuffer.h:148-154 | BeginRead's test (not at end, the pointer within the window); when it passes for a pointer past ptr, the bytes up to it are the next ones left to read |
| InputBuffer.InputBuffer.EndRead | Inc/IPC/Bond/InputBuffer.h:156-166 | moves to p inside the window, or to the next chunk with bytes when p is the window's end; the bytes before p are consumed |
| InputBuffer.InputBuffer.Peek | Inc/IPC/Bond/InputBuffer.h:66-67 | the next n bytes of the window are the next n bytes left |
| InputBuffer.InputBuffer.ReadSingle | Inc/IPC/Bond/InputBuffer.h:190-200 | succeeds iff not at end and ptr + size <= ptrEnd (BeginRead, lines 148-154); then it takes the next size bytes of the window; on failure nothing moves |
| InputBuffer.InputBuffer.ReadPart | Inc/IPC/Bond/InputBuffer.h:128-133 | one pass of ReadMultiple's loop: min(window left, bytes still wanted) bytes, which come off the front of what remains; progress is either bytes or a later chunk; it fails only when nothing remains, and then nothing moves |
| InputBuffer.InputBuffer.ReadMultiple | Inc/IPC/Bond/InputBuffer.h:119-146 | succeeds iff size bytes are left, taking exactly the next size bytes across chunks and handing them to the callback; on failure the cursor is restored as it was, and the callback has by then been handed every byte that was left |
| InputBuffer.InputBuffer.ReadValue | Inc/IPC/Bond/InputBuffer.h:29-34 | a primitive is read from the current chunk only, as ReadSingle |
| InputBuffer.InputBuffer.ReadBytes | Inc/IPC/Bond/InputBuffer.h:36-45 | copies the next size bytes across chunks to the destination's start; on failure the cursor is unchanged, yet every byte that was left (fewer than size) has already been copied there |
| InputBuffer.InputBuffer.Skip | Inc/IPC/Bond/InputBuffer.h:76-79 | drops the next size bytes across chunks (Skip(0) always succeeds), or fails leaving the cursor unchanged |
| InputBuffer.InputBuffer.ReadBlob | Inc/IPC/Bond/InputBuffer.h:47-52 | a codec blob over the next size bytes of the current chunk, held through the chunk, which the inbound cast turns back into GetRange(chunk, ptr, size) |
| InputBuffer.InputBuffer.Allocate | Inc/IPC/Bond/InputBuffer.h:54-59 | the address of the next size bytes of the current chunk, which are consumed; it fails as ReadSingle does |
| InputBuffer.InputBuffer.ReadVariableUnsigned | Inc/IPC/Bond/InputBuffer.h:61-74 | takes the encoding's bytes in any path; the fast path applies when the window holds the longest encoding; the slow path fails at end |
| InputBuffer.InputBuffer.ReadEach | Inc/IPC/Bond/InputBuffer.h:72 | the generic reader takes the encoded bytes one single-byte read at a time |
| InputBuffer.InputBuffer.IsEof | Inc/IPC/Bond/InputBuffer.h:81-85 | at end iff the current chunk is the sentinel, and then nothing is left |
| InputBuffer.InputBuffer.Same | Inc/IPC/Bond/InputBuffer.h:87-90 | operator== on two reader objects; equal valid readers over the same buffer are both at end or both not, and read the same bytes |
| InputBuffer.InputBuffer.GetCurrentBuffer | Inc/IPC/Bond/InputBuffer.h:219-222 | a copy with the same fields, which compares equal and has the same bytes left |
| InputBuffer.CreateInputBuffer | Inc/IPC/Bond/InputBuffer.h:237-240 | a reader over the range's bytes with the other reader's memory |
| OutputBuffer.OutputBuffer.constructor | Inc/IPC/Bond/OutputBuffer.h:18-24 | a minBlobSize of 0 means 4096; the writer takes a buffer, then a chunk, from the pool, and has written nothing |
| OutputBuffer.OutputBuffer.TakeBlob | Inc/IPC/Bond/OutputBuffer.h:166-173 | a fresh chunk resized to max(capacity, minBlobSize), the window at its start |
| OutputBuffer.OutputBuffer.Allocate | Inc/IPC/Bond/OutputBuffer.h:45-61 | returns the current position and moves past size bytes; when ptr + size >= ptrEnd the chunk first grows to offset + max(size, minBlobSize), keeping its bytes |
| OutputBuffer.OutputBuffer.WriteBytes | Inc/IPC/Bond/OutputBuffer.h:40-43 | appends the bytes to what was written |
| OutputBuffer.OutputBuffer.WriteValue | Inc/IPC/Bond/OutputBuffer.h:26-38 | appends the value's bytes to what was written, in place when they fit strictly before the window's end |
| OutputBuffer.OutputBuffer.WriteVariableUnsigned | Inc/IPC/Bond/OutputBuffer.h:117-128 | appends the encoding; in the fast path the chunk does not grow |
| OutputBuffer.OutputBuffer.WriteEach | Inc/IPC/Bond/OutputBuffer.h:126 | the generic writer appends the encoding one byte at a time |
| OutputBuffer.OutputBuffer.Merge | Inc/IPC/Bond/OutputBuffer.h:175-188 | with bytes pending, the chunk is trimmed to them and a copy of it joins the chunk list (the writer keeps the trimmed chunk) and true is returned; otherwise nothing changes; the chunk list then holds all that was written |
| OutputBuffer.OutputBuffer.Flush | Inc/IPC/Bond/OutputBuffer.h:130-136 | merges, taking a fresh chunk when something was merged; what was written is kept and nothing is pending |
| OutputBuffer.OutputBuffer.WriteChunk | Inc/IPC/Bond/OutputBuffer.h:190-204 | a non-null chunk in the pool's memory is appended after a flush, by reference; anything else is copied; either way the bytes are appended |
| OutputBuffer.OutputBuffer.WriteBlob | Inc/IPC/Bond/OutputBuffer.h:206-209 | appends the chunk's bytes |
| OutputBuffer.OutputBuffer.WriteCodecBlob | Inc/IPC/Bond/OutputBuffer.h:63-66 | appends the codec blob's content, by reference when it came from a pool chunk |
| OutputBuffer.OutputBuffer.WriteBuffer | Inc/IPC/Bond/OutputBuffer.h:68-77 | appends the concatenation of a non-null buffer's chunks; a null buffer adds nothing |
| OutputBuffer.OutputBuffer.WriteRange | Inc/IPC/Bond/OutputBuffer.h:79-115 | appends exactly the range's bytes; an empty range adds nothing |
| OutputBuffer.OutputBuffer.WritePieces | Inc/IPC/Bond/OutputBuffer.h:97-113 | a range over several chunks is written as first piece, middle chunks and last piece, which together are its bytes |
| OutputBuffer.OutputBuffer.WriteMiddle | Inc/IPC/Bond/OutputBuffer.h:105-108 | appends the whole chunks between the first and the last |
| OutputBuffer.OutputBuffer.GetBufferIfFlushed | Inc/IPC/Bond/OutputBuffer.h:138-146 | fails with "not flushed" iff bytes are pending; otherwise the buffer's chunks hold all that was written |
| OutputBuffer.OutputBuffer.GetBuffer | Inc/IPC/Bond/OutputBuffer.h:148-152 | flushes, then returns the buffer holding all that was written |
| OutputBuffer.OutputBuffer.TakeBuffer | Inc/IPC/Bond/OutputBuffer.h:154-158 | merges and gives away the buffer holding all that was written |
| OutputBuffer.OnlyPieceBytes | Inc/IPC/Bond/OutputBuffer.h:91-96 | a one-chunk range is written as GetRange(firstOffset, (lastOffset or size) - firstOffset), which is the range's bytes |
| OutputBuffer.FirstPieceBytes | Inc/IPC/Bond/OutputBuffer.h:101-103 | the first piece is the first chunk from firstOffset on |
| OutputBuffer.LastPieceBytes | Inc/IPC/Bond/OutputBuffer.h:110-112 | the last piece is the last chunk cut at lastOffset, or whole when lastOffset is 0 |
| OutputBuffer.PiecesBytes | Inc/IPC/Bond/OutputBuffer.h:97-113 | the range's bytes are the first piece, the middle chunks and the last piece |
| OutputBuffer.CreateOutputBuffer | Inc/IPC/Bond/OutputBuffer.h:211-214 | a new writer on the same pool, with the default minimum and nothing written |
| InteropBuffer.CopiedAtMostSize | Interop/Src/detail/Interop/BufferPool.cpp:34-53 | the copy never delivers more than was asked for |
| InteropBuffer.CopiedIsPrefix | Interop/Src/detail/Interop/BufferPool.cpp:38-52 | what is copied is a prefix of the buffer's bytes, so at most GetSize() |
| InteropBuffer.EmptyChunkStopsCopy | Interop/Src/detail/Interop/BufferPool.cpp:40-49 | an empty chunk ends the copy, whatever the chunks after it hold |
| InteropBuffer.CopiedWithoutEmptyChunks | Interop/Src/detail/Interop/BufferPool.cpp:38-50 | without empty chunks the copy delivers min(size, GetSize()) bytes |
| InteropBuffer.GetSize | Interop/Src/detail/Interop/BufferPool.cpp:22-32 | the sum of the chunk sizes, the length of the buffer's bytes |
| InteropBuffer.CopiedFromIsCopied | Interop/Src/detail/Interop/BufferPool.cpp:38-50 | the copy still owed from chunk i on is the copy of the chunks after position i |
| InteropBuffer.CopyBytes | Interop/Src/detail/Interop/BufferPool.cpp:42 | the memcpy: the given bytes land at the position and every other cell of the array is unchanged |
| InteropBuffer.CopyTo | Interop/Src/detail/Interop/BufferPool.cpp:34-53 | copies chunk by chunk min(left, chunk size) bytes until that is 0; returns the count, at most size, with exactly those bytes in front of the array and the rest of the array untouched |
| SerializerFactory.Create | Transport/SerializerFactory.cs:171-186 | succeeds iff the protocol is compact, fast or simple; otherwise fails with "Unknown protocol." |
| SerializerFactory.CreateReportsRequest | Transport/SerializerFactory.cs:175-183 | the serializer Create returns reports the requested protocol and marshal flag |
| SerializerFactory.CreateSelectsEach | Transport/SerializerFactory.cs:19-156 | each of the six serializers reports a fixed protocol and flag, and is the one Create returns for them |
| SerializerFactory.CreateInjective | Transport/SerializerFactory.cs:175-183 | different requests that succeed give different serializers |
| Disposable.Disposable.constructor | Transport/Disposable.cs:10-13 | the wrapper holds the object it was given |
| Disposable.Disposable.Impl | Transport/Disposable.cs:15-18 | the held object, or null once disposed |
| Disposable.Disposable.DisposeCore | Transport/Disposable.cs:20-31 | a held object is disposed only when disposing, and let go of either way; once let go of, nothing happens; the object is disposed at most once |
| Disposable.Disposable.Dispose | Transport/Disposable.cs:33-36 | Dispose(true): the held object is disposed once and let go of; a second call changes nothing |
| Disposable.DisposeTwice | Transport/Disposable.cs:20-36 | disposing a wrapper twice disposes its object exactly once |

## Left out

- The lock-free queue and the cross-process recycling of cells are left out. The free queue is a plain sequence, and everything is sequential.
- Shared memory allocation (`MakeShared`, allocators) is left out, including allocation failure. `Contains` is decided by the cell's memory identity alone, so a chunk's last byte lies in a mapping whenever its first byte does.
- The codec's variable-length integer encoding is outside the model. The encoded bytes (1 to MaxLength(width) of them) are a parameter of `ReadVariableUnsigned` and `WriteVariableUnsigned`, and only the choice between the fast and the generic path is modelled.
- Values are byte strings of their width. Floating-point values and the memcpy of a C++ object into bytes are not modelled.
- Pointers are indices into a chunk's bytes, and a null pointer is 0.
- `OutputBuffer`:
  - bytes that `resize` with default_init leaves uninitialised are modelled as zeros;
  - the writer keeps its current chunk (bytes and capacity) in its own `Blob` value and its chunk list in `chunks`; neither is written back into the pool's cell records, so the cells' `blob` and `buffer` parts stay as Take left them.
- BufferPool.ReleaseOf: when a buffer cell's last owner goes, the source's `m_buffer.clear()` destroys the chunk handles in its list, releasing (and possibly recycling) those chunk cells in turn. That cascade is not modelled: the model's cells do not record the chunks a buffer holds, so releasing a buffer leaves its chunks' owner counts as they were. BufferPool.Pool.Release inherits this.
- Sizes and offsets are unbounded integers. The `static_cast<std::uint32_t>` truncations (of the chunk size in the outbound cast, BlobCast.h:25; of the blob offset in `Read(bond::blob&)`, InputBuffer.h:51; of the foreign blob's size in the writer's copy path, OutputBuffer.h:202) and the `size_t` wrap of `offset + count` in `ConstBlob::GetRange` (BufferPool.h:193) are not modelled.
- InputBuffer.InputBuffer.ReadBytes: the caller's destination is the sequence of bytes copied to its start; what the destination held beyond them is not modelled.
- OutputBuffer.OutputBuffer.WriteChunk: appending a pool chunk by reference does not add an owner to that chunk's cell in the pool state.
- OutputBuffer.OutputBuffer.TakeBuffer: after the rvalue `GetBuffer` the writer is spent (its current chunk is dropped without being released to the pool), so nothing is promised about its later state.
- BlobCast.BlobHolder.Release: the declaration order that destroys the chunk before the memory reference is not modelled, because the model has no destruction order.
- The codec's shared-pointer reference counting of a codec blob is not modelled. The outbound cast and the holder's release are separate operations.
- InputBuffer.GetBufferRangeBytes: this carries the extra condition that `e` is not at end of a reader whose last chunk is cut. Under that condition the range the source records overreaches (see Findings). GetBufferRangeCutBytes drops the condition for the corrected range.
- The getters `GetMemory` and `GetBufferPool` are not modelled; the memory and the pool are plain fields. The asserts that the two cursors of `GetBufferRange` share a buffer, that the outbound cast's memory holds the chunk, and the holder's asserts that it is not empty and that the released pointer is its chunk's `data()` (BlobHolder.h:28-29), are preconditions.
- The managed `CopyTo`/`GetSize` wrappers and their argument checks are not part of this model (only the native `ConstBuffer::GetSize`/`CopyTo` are). The caller's array must hold `size` bytes.
- `SerializerFactory.Create` chooses the serializer only. The serializers' `Serialize`/`Deserialize` calls into the codec are left out. Protocols other than compact, fast and simple stand for every other `ProtocolType` value.
- `Disposable<T>`: the wrapped object counts how often it is disposed, and nothing else about it is modelled. Finalisation and overriding of `Dispose(bool)` are left out.

## Findings

| source | as written | input that shows it | evidently intended | confidence | as-written member | corrected member |
|---|---|---|---|---|---|---|
| Inc/IPC/Bond/detail/BlobHolder.h:31 | `m_blob = {}` resets the held chunk by assignment. ItemBase declares a destructor (BufferPool.h:67), so it has only the implicit copy assignment, which drops the old reference without the `unique()` test and `Push` of BufferPool.h:69-74; a holder that is the chunk's last owner destroys the cell instead of queueing it | a chunk taken from a pool with an empty queue whose only remaining owner is the holder, released through the hook: the next Take allocates a fresh cell rather than reusing that one | the released chunk's cell goes back on the free queue, as on destruction | not executed | BufferPool.DroppedCellIsLost | BlobCast.BlobHolder.Release |
| Inc/IPC/Bond/InputBuffer.h:233-234 | a cursor at end records (m_blob = sentinel, offset 0); for a reader built from a range whose last chunk is cut at lastOffset != 0, the sentinel is one past the cut chunk, so the recorded range takes that chunk whole | one chunk [1,2,3,4] read through a range cut at 2; begin at offset 0 (2 bytes left), end at EOF; the range stands for [1,2,3,4] | the range ends at the cut: the chunk before the sentinel at lastOffset | not executed | InputBuffer.GetBufferRangeOverreach | InputBuffer.GetBufferRangeCut |
