/** Byte images. The driver keeps its on-disk structures as packed C structs and moves them with
    `memcpy`; here a struct is the sequence of its bytes and a field access is a little-endian
    load or store at the field's offset. */
module Bytes {
  type byte = x: int | 0 <= x < 256

  const BLOCK_SIZE: nat := 4096

  type Block = b: seq<byte> | |b| == 4096 witness seq(4096, _ => 0)

  /** `n` zero bytes. */
  function Zeros(n: nat): (r: seq<byte>)
    ensures |r| == n && forall i :: 0 <= i < n ==> r[i] == 0
  {
    if n == 0 then [] else Zeros(n - 1) + [0]
  }

  const ZERO_BLOCK: Block := Zeros(4096)

  function U16(b: seq<byte>, o: nat): (r: nat)
    requires o + 2 <= |b|
    ensures r < 0x1_0000
  {
    b[o] as int + 256 * b[o + 1] as int
  }

  function U32(b: seq<byte>, o: nat): (r: nat)
    requires o + 4 <= |b|
    ensures r < 0x1_0000_0000
  {
    b[o] as int + 256 * b[o + 1] as int + 65536 * b[o + 2] as int + 16777216 * b[o + 3] as int
  }

  /** `memcpy(b + o, d, |d|)`. */
  function Splice(b: seq<byte>, o: nat, d: seq<byte>): (r: seq<byte>)
    requires o + |d| <= |b|
    ensures |r| == |b|
    ensures forall i :: 0 <= i < |b| ==> r[i] == if o <= i < o + |d| then d[i - o] else b[i]
  {
    b[..o] + d + b[o + |d|..]
  }

  /** A 16-bit store; the value is truncated to 16 bits. */
  function PutU16(b: seq<byte>, o: nat, v: nat): (r: seq<byte>)
    requires o + 2 <= |b|
    ensures |r| == |b|
    ensures forall i :: 0 <= i < |b| && !(o <= i < o + 2) ==> r[i] == b[i]
  {
    b[o := v % 256][o + 1 := v / 256 % 256]
  }

  /** A 32-bit store; the value is truncated to 32 bits. */
  function PutU32(b: seq<byte>, o: nat, v: nat): (r: seq<byte>)
    requires o + 4 <= |b|
    ensures |r| == |b|
    ensures forall i :: 0 <= i < |b| && !(o <= i < o + 4) ==> r[i] == b[i]
  {
    b[o := v % 256][o + 1 := v / 256 % 256][o + 2 := v / 65536 % 256][o + 3 := v / 16777216 % 256]
  }

  lemma PutGet16(b: seq<byte>, o: nat, v: nat)
    requires o + 2 <= |b| && v < 0x1_0000
    ensures U16(PutU16(b, o, v), o) == v
  {
  }

  lemma PutGet32(b: seq<byte>, o: nat, v: nat)
    requires o + 4 <= |b| && v < 0x1_0000_0000
    ensures U32(PutU32(b, o, v), o) == v
  {
    assert v == v % 256 + 256 * (v / 256);
    assert v / 256 == v / 256 % 256 + 256 * (v / 65536);
    assert v / 65536 == v / 65536 % 256 + 256 * (v / 16777216);
  }

  lemma SameU16(a: seq<byte>, b: seq<byte>, o: nat)
    requires |a| == |b| && o + 2 <= |a| && a[o] == b[o] && a[o + 1] == b[o + 1]
    ensures U16(a, o) == U16(b, o)
  {
  }

  lemma SameU32(a: seq<byte>, b: seq<byte>, o: nat)
    requires |a| == |b| && o + 4 <= |a| && forall i :: o <= i < o + 4 ==> a[i] == b[i]
    ensures U32(a, o) == U32(b, o)
  {
  }

  /** What was stored by `memcpy` is read back by `memcpy`. */
  lemma SpliceHit(b: seq<byte>, o: nat, d: seq<byte>)
    requires o + |d| <= |b|
    ensures Splice(b, o, d)[o..o + |d|] == d
  {
  }

  /** Bytes outside the stored range keep their value. */
  lemma SpliceMiss(b: seq<byte>, o: nat, d: seq<byte>, p: nat, n: nat)
    requires o + |d| <= |b| && p + n <= |b|
    requires p + n <= o || o + |d| <= p
    ensures Splice(b, o, d)[p..p + n] == b[p..p + n]
  {
  }

  /** Two neighbouring stores are one. */
  lemma SplicePair(b: seq<byte>, o: nat, d: seq<byte>, e: seq<byte>)
    requires o + |d| + |e| <= |b|
    ensures Splice(Splice(b, o, d), o + |d|, e) == Splice(b, o, d + e)
  {
  }
}
