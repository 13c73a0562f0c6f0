/**
 * The path choice the reader and the writer make for variable-length integers. Their
 * encoding itself (7 payload bits per byte) belongs to the codec and is not modelled;
 * only the number of bytes an encoding may take matters here.
 */
module Varint {
  /** The most bytes a value of `width` bytes takes when every byte carries 7 bits. */
  function MaxLength(width: nat): (n: nat)
    ensures 7 * n >= 8 * width
    ensures n > 0 ==> 7 * (n - 1) < 8 * width
  {
    (8 * width + 6) / 7
  }

  /** The fast path is taken when `ptr + sizeof(T) * 8 / 7 < ptrEnd`. */
  predicate FastPath(ptr: nat, ptrEnd: nat, width: nat)
  {
    ptr + width * 8 / 7 < ptrEnd
  }

  /** The fast path holds room for the longest encoding, so it needs no bounds checks. */
  lemma FastPathFits(ptr: nat, ptrEnd: nat, width: nat)
    requires FastPath(ptr, ptrEnd, width)
    ensures ptr + MaxLength(width) <= ptrEnd
  {
    var q := width * 8 / 7;
    assert 8 * width < 7 * (q + 1);
    assert 8 * width + 6 < 7 * (q + 2);
    assert MaxLength(width) <= q + 1;
  }
}
