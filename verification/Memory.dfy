/** `memcpy`, `memset` and the field stores on byte buffers. */
module Memory {
  import opened Bytes

  /** `memcpy(dst + o, src, |src|)`. */
  method MemCpy(dst: array<byte>, o: nat, src: seq<byte>)
    requires o + |src| <= dst.Length
    modifies dst
    ensures dst[..] == Splice(old(dst[..]), o, src)
  {
    for i := 0 to |src|
      invariant forall k :: 0 <= k < dst.Length ==> dst[k] == if o <= k < o + i then src[k - o] else old(dst[k])
    {
      dst[o + i] := src[i];
    }
  }

  /** `memset(dst, val, n)`. */
  method MemSet(dst: array<byte>, val: byte, n: nat)
    requires n <= dst.Length
    modifies dst
    ensures forall k :: 0 <= k < dst.Length ==> dst[k] == if k < n then val else old(dst[k])
  {
    for i := 0 to n
      invariant forall k :: 0 <= k < dst.Length ==> dst[k] == if k < i then val else old(dst[k])
    {
      dst[i] := val;
    }
  }

  method StoreU16(dst: array<byte>, o: nat, v: nat)
    requires o + 2 <= dst.Length
    modifies dst
    ensures dst[..] == PutU16(old(dst[..]), o, v)
  {
    dst[o] := v % 256;
    dst[o + 1] := v / 256 % 256;
  }

  method StoreU32(dst: array<byte>, o: nat, v: nat)
    requires o + 4 <= dst.Length
    modifies dst
    ensures dst[..] == PutU32(old(dst[..]), o, v)
  {
    dst[o] := v % 256;
    dst[o + 1] := v / 256 % 256;
    dst[o + 2] := v / 65536 % 256;
    dst[o + 3] := v / 16777216 % 256;
  }
}
