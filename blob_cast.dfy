/**
 * The bridge between pool chunks and the codec's blobs. An outbound cast wraps a chunk
 * into a codec blob whose release hook (a BlobHolder) keeps the chunk alive; an inbound
 * cast looks the hook up again and recovers the chunk, cut to the codec blob's content.
 */
module BlobCast {
  import opened Wrappers
  import opened BufferPool

  /**
   * The release hook of a codec blob's shared buffer: a BlobHolder keeping a chunk and the
   * memory alive, or a hook that did not come from the outbound cast.
   */
  datatype Hook = Holder(chunk: ConstBlob, memory: Option<Memory>) | Foreign(bytes: seq<byte>)

  /** The shared buffer a hook keeps alive. */
  function HookBytes(h: Hook): seq<byte>
  {
    match h
    case Holder(chunk, _) => chunk.bytes
    case Foreign(bytes) => bytes
  }

  datatype CodecBlobView = CodecBlobView(hook: Hook, offset: nat, length: nat)

  /**
   * A codec blob: its shared buffer, where its content starts in that buffer, and the
   * content's length. A holder keeps a live chunk for as long as the codec blob exists.
   */
  type CodecBlob = b: CodecBlobView
    | b.offset + b.length <= |HookBytes(b.hook)| && (b.hook.Holder? ==> IsTruthy(b.hook.chunk.handle))
    witness CodecBlobView(Foreign([]), 0, 0)

  /** The bytes a codec blob shows. */
  function Content(b: CodecBlob): seq<byte>
  {
    HookBytes(b.hook)[b.offset..b.offset + b.length]
  }

  /** blob::content() for a blob over a pool chunk. */
  function ContentAddress(b: CodecBlob): Option<Address>
  {
    match b.hook
    case Holder(chunk, _) => Some(Address(chunk.handle.cell, chunk.base + b.offset))
    case Foreign(_) => None
  }

  /** The precondition the outbound cast asserts: the memory holds the chunk's first and last byte. */
  predicate CanCast(from: ConstBlob, memory: Option<Memory>)
  {
    memory.Some? && Contains(memory.value, Data(from)) && Contains(memory.value, LastByte(from))
  }

  /** Outbound BlobCast: a codec blob over the whole chunk, released through a holder. */
  function ToCodec(from: ConstBlob, memory: Option<Memory>): (r: CodecBlob)
    requires CanCast(from, memory)
    ensures Content(r) == from.bytes && r.length == Size(from)
    ensures ContentAddress(r) == Data(from)
    ensures r.hook == Holder(from, memory)
  {
    CodecBlobView(Holder(from, memory), 0, |from.bytes|)
  }

  lemma SliceOfSlice(s: seq<byte>, i: nat, j: nat, k: nat, l: nat)
    requires i <= j <= |s| && k <= l <= j - i
    ensures s[i..j][k..l] == s[i + k..i + l]
  {
    forall m | 0 <= m < l - k
      ensures s[i..j][k..l][m] == s[i + k..i + l][m]
    {
      assert s[i..j][k + m] == s[i + k + m];
    }
  }

  /** A codec blob over part of another one's content, sharing its hook. */
  function SubBlob(b: CodecBlob, offset: nat, count: nat): (r: CodecBlob)
    requires offset + count <= b.length
    ensures r.hook == b.hook && r.length == count
    ensures Content(r) == Content(b)[offset..offset + count]
  {
    SliceOfSlice(HookBytes(b.hook), b.offset, b.offset + b.length, offset, offset + count);
    CodecBlobView(b.hook, b.offset + offset, count)
  }

  /**
   * Inbound BlobCast: the holder's chunk cut to the content, or a null chunk when the hook
   * is not a holder.
   */
  function FromCodec(b: CodecBlob): (r: ConstBlob)
    ensures b.hook.Holder? ==> r.handle == b.hook.chunk.handle && r.bytes == Content(b)
    ensures b.hook.Holder? ==> Data(r) == ContentAddress(b)
    ensures b.hook.Foreign? ==> r == EmptyBlob && !IsTruthy(r.handle) && Size(r) == 0
  {
    match b.hook
    case Holder(chunk, _) => GetRange(chunk, b.offset, b.length).value
    case Foreign(_) => EmptyBlob
  }

  /** A chunk cast out and back in is the same chunk. */
  lemma RoundTrip(from: ConstBlob, memory: Option<Memory>)
    requires CanCast(from, memory)
    ensures FromCodec(ToCodec(from, memory)) == from
  {
    GetRangeWhole(from);
  }

  /** Recovering part of a holder blob is the same part of the recovered chunk. */
  lemma SubBlobRecovers(b: CodecBlob, offset: nat, count: nat)
    requires b.hook.Holder? && offset + count <= b.length
    ensures GetRange(FromCodec(b), offset, count).Ok?
    ensures FromCodec(SubBlob(b, offset, count)) == GetRange(FromCodec(b), offset, count).value
  {
    GetRangeOfRange(b.hook.chunk, b.offset, b.length, offset, count);
  }

  /** The inbound cast of part of an outbound blob is GetRange of the original chunk. */
  lemma SubRangeRoundTrip(from: ConstBlob, memory: Option<Memory>, offset: nat, count: nat)
    requires CanCast(from, memory) && offset + count <= Size(from)
    ensures GetRange(from, offset, count).Ok?
    ensures FromCodec(SubBlob(ToCodec(from, memory), offset, count)) == GetRange(from, offset, count).value
  {
    SubBlobRecovers(ToCodec(from, memory), offset, count);
    RoundTrip(from, memory);
  }

  /** The deleter the codec calls when the last reference to its shared buffer goes away. */
  class BlobHolder {
    const memory: Option<Memory>
    var blob: ConstBlob

    constructor (blob: ConstBlob, memory: Option<Memory>)
      ensures this.blob == blob && this.memory == memory
    {
      this.memory := memory;
      this.blob := blob;
    }

    /**
     * operator(): a non-null buffer must be the held chunk's data, and releasing it drops
     * the held chunk; a null buffer leaves everything alone. This is the release as intended,
     * the one destruction performs: the source resets the chunk by assignment, which drops the
     * reference without recycling the cell (BufferPool.DropOf, BufferPool.DroppedCellIsLost).
     */
    method Release(buffer: Option<Address>, pool: Pool)
      requires pool.Valid()
      requires buffer.Some? ==> IsTruthy(blob.handle) && buffer == Data(blob) && pool.Holds(blob.handle)
      modifies this, pool
      ensures pool.Valid()
      ensures buffer.None? ==> blob == old(blob) && pool.State() == old(pool.State())
      ensures buffer.Some? ==> blob == EmptyBlob && pool.State() == ReleaseOf(old(pool.State()), old(blob.handle.cell.slot))
    {
      if buffer.Some? {
        var held := blob.handle;
        blob := EmptyBlob;
        pool.Release(held);
      }
    }
  }

  /**
   * The outbound cast as the codec sees it: the holder takes its own copy of the chunk's
   * handle, so the chunk has one more owner until the holder releases it.
   */
  method OutboundCast(from: ConstBlob, memory: Option<Memory>, pool: Pool) returns (b: CodecBlob, holder: BlobHolder)
    requires CanCast(from, memory) && pool.Valid() && pool.Holds(from.handle)
    modifies pool
    ensures b == ToCodec(from, memory) && fresh(holder)
    ensures holder.blob == from && holder.memory == memory
    ensures pool.Valid() && pool.Holds(from.handle)
    ensures pool.State() == ShareOf(old(pool.State()), from.handle.cell.slot)
  {
    pool.Share(from.handle);
    holder := new BlobHolder(from, memory);
    b := ToCodec(from, memory);
  }
}
