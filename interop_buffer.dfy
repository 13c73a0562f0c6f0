/**
 * The interop view of a ConstBuffer handed to managed code: its total size, and a copy of
 * its bytes into a caller's array that stops at the first chunk it cannot take bytes from.
 */
module InteropBuffer {
  import opened BufferPool

  function Min(a: nat, b: nat): (m: nat)
    ensures m <= a && m <= b && (m == a || m == b)
  {
    if a <= b then a else b
  }

  /**
   * The bytes CopyTo delivers: from each chunk in turn the smaller of what is still wanted
   * and the chunk's size, stopping at the first chunk where that is 0.
   */
  function Copied(chunks: seq<ConstBlob>, size: nat): seq<byte>
  {
    if chunks == [] then []
    else
      var n := Min(size, Size(chunks[0]));
      if n == 0 then [] else chunks[0].bytes[..n] + Copied(chunks[1..], size - n)
  }

  /** The copy never delivers more than was asked for. */
  lemma {:induction false} CopiedAtMostSize(chunks: seq<ConstBlob>, size: nat)
    ensures |Copied(chunks, size)| <= size
  {
    if chunks != [] {
      var n := Min(size, Size(chunks[0]));
      if n != 0 {
        CopiedAtMostSize(chunks[1..], size - n);
      }
    }
  }

  /** The copy is a prefix of the buffer's bytes, so it never delivers more than GetSize. */
  lemma {:induction false} CopiedIsPrefix(chunks: seq<ConstBlob>, size: nat)
    ensures |Copied(chunks, size)| <= |Concat(chunks)| == TotalSize(chunks)
    ensures Copied(chunks, size) == Concat(chunks)[..|Copied(chunks, size)|]
  {
    TotalSizeIsLength(chunks);
    if chunks != [] {
      var n := Min(size, Size(chunks[0]));
      if n != 0 {
        var rest := chunks[1..];
        var t := Copied(rest, size - n);
        assert Copied(chunks, size) == chunks[0].bytes[..n] + t;
        CopiedIsPrefix(rest, size - n);
        assert chunks == [chunks[0]] + rest;
        ConcatCons(chunks[0], rest);
        assert Concat(chunks) == chunks[0].bytes + Concat(rest);
        TotalSizeIsLength(rest);
        PrefixOfAppend(chunks[0].bytes, Concat(rest), n, t);
      }
    }
  }

  /** A cut of the first part followed by a prefix of the second, when only a whole first part goes on. */
  lemma PrefixOfAppend(x: seq<byte>, y: seq<byte>, n: nat, t: seq<byte>)
    requires n <= |x| && |t| <= |y| && t == y[..|t|]
    requires n < |x| ==> t == []
    ensures (x + y)[..n + |t|] == x[..n] + t
  {
    if n < |x| {
      assert (x + y)[..n] == x[..n];
    } else {
      assert (x + y)[..n + |t|] == x + y[..|t|];
    }
  }

  /** A chunk without bytes ends the copy, whatever the chunks after it hold. */
  lemma EmptyChunkStopsCopy(chunks: seq<ConstBlob>, size: nat, k: nat)
    requires k < |chunks| && Size(chunks[k]) == 0
    ensures |Copied(chunks, size)| <= TotalSize(chunks[..k])
    decreases k
  {
    TotalSizeIsLength(chunks[..k]);
    if k > 0 {
      var n := Min(size, Size(chunks[0]));
      if n != 0 {
        EmptyChunkStopsCopy(chunks[1..], size - n, k - 1);
        assert chunks[..k] == [chunks[0]] + chunks[1..][..k - 1];
        ConcatCons(chunks[0], chunks[1..][..k - 1]);
        TotalSizeIsLength(chunks[1..][..k - 1]);
      }
    }
  }

  /** Without empty chunks the copy delivers all it was asked for, or the whole buffer. */
  lemma {:induction false} CopiedWithoutEmptyChunks(chunks: seq<ConstBlob>, size: nat)
    requires forall k :: 0 <= k < |chunks| ==> Size(chunks[k]) > 0
    ensures |Copied(chunks, size)| == Min(size, TotalSize(chunks))
  {
    TotalSizeIsLength(chunks);
    if chunks != [] {
      var rest := chunks[1..];
      assert chunks == [chunks[0]] + rest;
      ConcatCons(chunks[0], rest);
      TotalSizeIsLength(rest);
      var n := Min(size, Size(chunks[0]));
      if n != 0 {
        CopiedWithoutEmptyChunks(rest, size - n);
      }
    }
  }

  /** ConstBuffer::GetSize: the chunk sizes added up. */
  method GetSize(b: ConstBuffer) returns (size: nat)
    ensures size == TotalSize(b.chunks) && size == |Concat(b.chunks)|
  {
    size := 0;
    for i := 0 to |b.chunks|
      invariant size == TotalSize(b.chunks[..i])
    {
      assert b.chunks[..i + 1][..i] == b.chunks[..i];
      size := size + Size(b.chunks[i]);
    }
    assert b.chunks[..|b.chunks|] == b.chunks;
    TotalSizeIsLength(b.chunks);
  }

  /** The copy from chunk i on, indexed rather than sliced: what CopyTo's loop still owes. */
  function CopiedFrom(chunks: seq<ConstBlob>, i: nat, size: nat): seq<byte>
    decreases |chunks| - i
  {
    if i >= |chunks| then []
    else
      var n := Min(size, Size(chunks[i]));
      if n == 0 then [] else chunks[i].bytes[..n] + CopiedFrom(chunks, i + 1, size - n)
  }

  lemma {:induction false} CopiedFromIsCopied(chunks: seq<ConstBlob>, i: nat, size: nat)
    requires i <= |chunks|
    ensures CopiedFrom(chunks, i, size) == Copied(chunks[i..], size)
    decreases |chunks| - i
  {
    if i < |chunks| {
      assert chunks[i..][1..] == chunks[i + 1..];
      var n := Min(size, Size(chunks[i]));
      if n != 0 {
        CopiedFromIsCopied(chunks, i + 1, size - n);
      }
    }
  }

  /** The memcpy of one chunk's bytes into `dest` at `at`. */
  method CopyBytes(dest: array<byte>, at: nat, bytes: seq<byte>)
    requires at + |bytes| <= dest.Length
    modifies dest
    ensures forall k :: at <= k < at + |bytes| ==> dest[k] == bytes[k - at]
    ensures forall k :: 0 <= k < dest.Length && !(at <= k < at + |bytes|) ==> dest[k] == old(dest[k])
  {
    forall k | at <= k < at + |bytes| {
      dest[k] := bytes[k - at];
    }
  }

  /** Where the copy continues with `piece`, its next bytes are those of `piece`. */
  lemma PieceAt(all: seq<byte>, w: nat, piece: seq<byte>, rest: seq<byte>)
    requires w <= |all| && all[w..] == piece + rest
    ensures w + |piece| <= |all| && all[w + |piece|..] == rest
    ensures forall k :: w <= k < w + |piece| ==> all[k] == piece[k - w]
  {
    assert all == all[..w] + (piece + rest);
    forall k | w <= k < w + |piece|
      ensures all[k] == piece[k - w]
    {
      assert all[k] == all[w..][k - w];
    }
  }

  /**
   * ConstBuffer::CopyTo: up to `size` bytes into `dest`, chunk by chunk; returns how many it
   * wrote. The caller provides room for `size` bytes. The chunk whose min(left, size) is 0
   * ends the loop, as the loop's `break` does.
   */
  method CopyTo(b: ConstBuffer, dest: array<byte>, size: nat) returns (written: nat)
    requires size <= dest.Length
    modifies dest
    ensures written == |Copied(b.chunks, size)| && written <= size
    ensures dest[..written] == Copied(b.chunks, size)
    ensures forall k :: written <= k < dest.Length ==> dest[k] == old(dest[k])
  {
    ghost var all := Copied(b.chunks, size);
    CopiedAtMostSize(b.chunks, size);
    CopiedFromIsCopied(b.chunks, 0, size);
    assert b.chunks[0..] == b.chunks;
    var left := size;
    written := 0;
    var i := 0;
    while i < |b.chunks| && Min(left, Size(b.chunks[i])) != 0
      invariant 0 <= i <= |b.chunks| && written + left == size && written <= |all|
      invariant all[written..] == CopiedFrom(b.chunks, i, left)
      invariant forall k :: 0 <= k < written ==> dest[k] == all[k]
      invariant forall k :: written <= k < dest.Length ==> dest[k] == old(dest[k])
    {
      var chunk := b.chunks[i];
      var n := Min(left, Size(chunk));
      var piece := chunk.bytes[..n];
      ghost var rest := CopiedFrom(b.chunks, i + 1, left - n);
      assert CopiedFrom(b.chunks, i, left) == piece + rest;
      PieceAt(all, written, piece, rest);
      CopyBytes(dest, written, piece);
      written := written + n;
      left := left - n;
      i := i + 1;
    }
    assert |all| == written;
    assert dest[..written] == all;
  }
}
