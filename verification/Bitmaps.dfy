/** Allocation bitmaps: bit `i` is bit `i % 8` of byte `i / 8`. */
module Bitmaps {
  import opened Bytes

  /** `(x >> k) & 1` is 1, that is, `x & (1 << k)` is nonzero. */
  predicate NatBit(x: nat, k: nat) {
    if k == 0 then x % 2 == 1 else NatBit(x / 2, k - 1)
  }

  /** `x | (1 << k)`. */
  function NatOr(x: nat, k: nat): nat {
    if k == 0 then (if x % 2 == 1 then x else x + 1) else 2 * NatOr(x / 2, k - 1) + x % 2
  }

  function Pow2(k: nat): nat {
    if k == 0 then 1 else 2 * Pow2(k - 1)
  }

  lemma {:induction false} NatOrBound(x: nat, k: nat, m: nat)
    requires k < m && x < Pow2(m)
    ensures NatOr(x, k) < Pow2(m)
  {
    assert Pow2(m) == 2 * Pow2(m - 1);
    if k > 0 {
      assert x / 2 < Pow2(m - 1);
      NatOrBound(x / 2, k - 1, m - 1);
    }
  }

  /** Setting bit `k` sets exactly bit `k`. */
  lemma {:induction false} NatOrBits(x: nat, k: nat, l: nat)
    ensures NatBit(NatOr(x, k), l) <==> (l == k || NatBit(x, l))
  {
    if k > 0 && l > 0 {
      NatOrBits(x / 2, k - 1, l - 1);
    }
  }

  function ByteOr(x: byte, k: nat): byte
    requires k < 8
  {
    NatOrBound(x, k, 8);
    assert Pow2(8) == 256 by { assert Pow2(3) == 8; assert Pow2(5) == 32; }
    NatOr(x, k)
  }

  predicate Bit(bm: Block, i: nat)
    requires i < 32768
  {
    NatBit(bm[i / 8], i % 8)
  }

  function SetBit(bm: Block, i: nat): Block
    requires i < 32768
  {
    bm[i / 8 := ByteOr(bm[i / 8], i % 8)]
  }

  lemma SetBitBits(bm: Block, i: nat, j: nat)
    requires i < 32768 && j < 32768
    ensures Bit(SetBit(bm, i), j) <==> (j == i || Bit(bm, j))
  {
    if j / 8 == i / 8 {
      NatOrBits(bm[i / 8], i % 8, j % 8);
    }
  }

  /** The least clear bit below `limit`, or `limit` when all are set. */
  function LowestClear(bm: Block, limit: nat): (r: nat)
    requires limit <= 32768
    ensures r <= limit
    ensures forall i :: 0 <= i < r ==> Bit(bm, i)
    ensures r < limit ==> !Bit(bm, r)
  {
    if limit == 0 then 0
    else
      var r := LowestClear(bm, limit - 1);
      if r < limit - 1 then r else if Bit(bm, limit - 1) then limit else limit - 1
  }

  /** The number of clear bits below `limit`. */
  function CountClear(bm: Block, limit: nat): (r: nat)
    requires limit <= 32768
    ensures r <= limit
  {
    if limit == 0 then 0 else CountClear(bm, limit - 1) + if Bit(bm, limit - 1) then 0 else 1
  }

  /** Setting a clear bit takes exactly one from the count, which was therefore positive. */
  lemma {:induction false} CountSetBit(bm: Block, i: nat, limit: nat)
    requires limit <= 32768 && i < 32768 && !Bit(bm, i)
    ensures CountClear(SetBit(bm, i), limit) == CountClear(bm, limit) - if i < limit then 1 else 0
  {
    if limit > 0 {
      CountSetBit(bm, i, limit - 1);
      SetBitBits(bm, i, limit - 1);
    }
  }
}
