/** The memory helpers of utils.c, on byte buffers. */
module Memory {
  import opened Bytes

  /** memcpy: whole 8-byte words first, then the bytes that are left. */
  method Memcpy(dst: array<byte>, to: nat, src: array<byte>, from: nat, size: nat)
    requires dst != src
    requires to + size <= dst.Length && from + size <= src.Length
    modifies dst
    ensures dst[..] == Splice(old(dst[..]), to, src[from..from + size])
  {
    var words, bytes := size / 8, size % 8;
    for i := 0 to words
      invariant forall k :: 0 <= k < dst.Length ==>
        dst[k] == if to <= k < to + 8 * i then src[from + k - to] else old(dst[k])
    {
      forall k | 0 <= k < 8 {
        dst[to + 8 * i + k] := src[from + 8 * i + k];
      }
    }
    for i := 0 to bytes
      invariant forall k :: 0 <= k < dst.Length ==>
        dst[k] == if to <= k < to + 8 * words + i then src[from + k - to] else old(dst[k])
    {
      dst[to + 8 * words + i] := src[from + 8 * words + i];
    }
  }
}
