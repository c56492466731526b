/** Bit fields of addresses and of page table entries (Intel SDM volume 3A, section 4.5). */
module PageBits {
  type word = bv64

  const ADDR: word := 0x000F_FFFF_FFFF_F000
  const FRAME: word := 0xFFFF_FFFF_FFFF_F000
  const LARGE: word := 0x80

  /** The index of an address into the tables, from the top level down. */
  function Index(v: word, k: nat): (r: word)
    requires k < 4
    ensures r < 512
  {
    if k == 0 then (v >> 39) & 0x1FF
    else if k == 1 then (v >> 30) & 0x1FF
    else if k == 2 then (v >> 21) & 0x1FF
    else (v >> 12) & 0x1FF
  }

  /** The page of a 48-bit address. */
  function Page(v: word): word { (v >> 12) & 0xF_FFFF_FFFF }

  /** The address of a table's entry. */
  function Slot(t: word, i: word): word { t + 8 * i }

  predicate Aligned(t: word) { t & 0xFFF == 0 }
  predicate Present(e: word) { e & 1 != 0 }
  predicate Large(e: word) { e & LARGE != 0 }

  /** Where the processor finds the next table or the frame, and where the kernel looks for it. */
  function Base(e: word): (r: word)
    ensures Aligned(r)
  {
    e & ADDR
  }

  function Pointer(e: word): word { e & FRAME }

  function Entry(p: word, flags: word): word { p | 1 | 2 | flags }

  lemma SlotDecodes(t: word, i: word)
    requires Aligned(t) && i < 512
    ensures Slot(t, i) & FRAME == t && (Slot(t, i) >> 3) & 0x1FF == i
  {
  }

  lemma SlotInjective(t: word, i: word, u: word, j: word)
    requires Aligned(t) && i < 512 && Aligned(u) && j < 512 && Slot(t, i) == Slot(u, j)
    ensures t == u && i == j
  {
    SlotDecodes(t, i);
    SlotDecodes(u, j);
    hide Slot;
  }

  lemma LeafEntry(p: word, flags: word)
    requires flags & ADDR == 0
    ensures Present(Entry(p & FRAME, flags)) && Base(Entry(p & FRAME, flags)) == p & ADDR
  {
  }

  lemma TableEntry(t: word, flags: word)
    requires t & ADDR == t && flags & (ADDR | LARGE) == 0
    ensures var e := Entry(t, flags); Present(e) && !Large(e) && Base(e) == t
  {
  }

  // The same fields as numbers.

  /** The index at a level, by its place in the address. */
  function IndexAt(v: word, k: nat): word
    requires k < 4
  {
    if k == 0 then v / 0x80_0000_0000 % 512
    else if k == 1 then v / 0x4000_0000 % 512
    else if k == 2 then v / 0x20_0000 % 512
    else v / 4096 % 512
  }

  function FrameOf(p: word): word { p / 4096 * 4096 }

  /** The word for a frame: the two low bits, present and writable, and the caller's flags. */
  function FrameWord(frame: word, flags: word): word { frame + flags / 4 * 4 + 3 }

  lemma IndexIs(v: word, k: nat)
    requires k < 4
    ensures Index(v, k) == IndexAt(v, k)
  {
  }

  lemma PointerIs(p: word)
    ensures Pointer(p) == FrameOf(p) && FrameOf(p) % 4096 == 0
  {
  }

  lemma EntryIs(p: word, flags: word)
    requires p % 4096 == 0 && flags < 4096
    ensures Entry(p, flags) == FrameWord(p, flags)
  {
  }

  /** The page-size bit is bit 7, and the frame is bits 12 to 51. */
  lemma EntryFields(e: word)
    ensures Large(e) <==> e / 128 % 2 == 1
    ensures Base(e) == e % 0x10_0000_0000_0000 / 4096 * 4096
  {
  }

  predicate LowBit(e: word) { e % 2 == 1 }

  lemma PresentBit(e: word)
    ensures Present(e) <==> LowBit(e)
  {
  }

  function Join(a: word, b: word, c: word, d: word): word { (a << 27) | (b << 18) | (c << 9) | d }

  function Pick(p: word, k: nat): word
    requires k < 4
  {
    if k == 0 then (p >> 27) & 0x1FF
    else if k == 1 then (p >> 18) & 0x1FF
    else if k == 2 then (p >> 9) & 0x1FF
    else p & 0x1FF
  }

  lemma PageJoins(v: word)
    ensures Page(v) == Join(Index(v, 0), Index(v, 1), Index(v, 2), Index(v, 3))
  {
  }

  lemma PagePicks(v: word, k: nat)
    requires k < 4
    ensures Pick(Page(v), k) == Index(v, k)
  {
  }

  /** Two addresses agree on their first `k` indices. */
  predicate SamePrefix(v: word, w: word, k: nat)
    requires k <= 4
  {
    forall i :: 0 <= i < k ==> Index(v, i) == Index(w, i)
  }

  /** The four indices are the page. */
  lemma PageIff(v: word, w: word)
    ensures SamePrefix(v, w, 4) <==> Page(v) == Page(w)
  {
    hide Page, Join, Pick, Index;
    PageJoins(v);
    PageJoins(w);
    if SamePrefix(v, w, 4) {
      assert Index(v, 0) == Index(w, 0) && Index(v, 1) == Index(w, 1);
      assert Index(v, 2) == Index(w, 2) && Index(v, 3) == Index(w, 3);
    }
    if Page(v) == Page(w) {
      forall k | 0 <= k < 4
        ensures Index(v, k) == Index(w, k)
      {
        PagePicks(v, k);
        PagePicks(w, k);
      }
    }
  }
}

/** The page mapper: `pmap` fills in a four-level table in memory, and the processor walks it. */
module Paging {
  import opened PageBits

  type Memory = word -> word

  datatype Option<T> = None | Some(value: T)

  function Store(m: Memory, a: word, x: word): Memory { b => if b == a then x else m(b) }

  // The walk of the processor.

  function WalkFrom(m: Memory, t: word, v: word, k: nat): Option<word>
    requires k < 4
    decreases 4 - k
  {
    var e := m(Slot(t, Index(v, k)));
    if !Present(e) then None
    else if k == 3 || (k > 0 && Large(e)) then Some(Physical(e, v, k))
    else WalkFrom(m, Base(e), v, k + 1)
  }

  /** The address in the 4-KB page, the 2-MB page or the 1-GB page of a last entry. */
  function Physical(e: word, v: word, k: nat): word {
    if k == 3 then Base(e) | (v & 0xFFF)
    else if k == 2 then (e & 0x000F_FFFF_FFE0_0000) | (v & 0x1F_FFFF)
    else (e & 0x000F_FFFF_C000_0000) | (v & 0x3FFF_FFFF)
  }

  /** The physical address of a virtual one. */
  function Walk(m: Memory, root: word, v: word): Option<word> { WalkFrom(m, root, v, 0) }

  /** The table that the walk of `v` reads at level `k`, from the top. */
  function Table(m: Memory, root: word, v: word, k: nat): Option<word>
    requires k < 4
  {
    if k == 0 then Some(root)
    else
      match Table(m, root, v, k - 1)
      case None => None
      case Some(t) =>
        var e := m(Slot(t, Index(v, k - 1)));
        if Present(e) && !(k > 1 && Large(e)) then Some(Base(e)) else None
  }

  /** No table is reached in two ways. */
  ghost predicate Unshared(m: Memory, root: word) {
    && Aligned(root)
    && forall v, w, j, k :: 0 <= j < 4 && 0 <= k < 4 && Table(m, root, v, j).Some? ==>
         Table(m, root, v, j) == Table(m, root, w, k) ==> j == k && SamePrefix(v, w, k)
  }

  lemma StoreMiss(m: Memory, a: word, x: word, b: word)
    ensures Store(m, a, x)(b) == if b == a then x else m(b)
  {
  }

  lemma WalkStep(m: Memory, t: word, v: word, k: nat)
    requires k < 4
    ensures var e := m(Slot(t, Index(v, k)));
      WalkFrom(m, t, v, k)
      == if !Present(e) then None
         else if k == 3 || (k > 0 && Large(e)) then Some(Physical(e, v, k))
         else WalkFrom(m, Base(e), v, k + 1)
  {
  }

  lemma TableStep(m: Memory, root: word, v: word, k: nat)
    requires k < 3
    ensures Table(m, root, v, k + 1)
      == match Table(m, root, v, k)
         case None => None
         case Some(t) =>
           var e := m(Slot(t, Index(v, k)));
           if Present(e) && !(k > 0 && Large(e)) then Some(Base(e)) else None
  {
  }

  lemma {:induction false} WalkVia(m: Memory, root: word, v: word, k: nat)
    requires k < 4 && Table(m, root, v, k).Some?
    ensures Walk(m, root, v) == WalkFrom(m, Table(m, root, v, k).value, v, k)
  {
    if k > 0 {
      WalkVia(m, root, v, k - 1);
    }
  }

  /** The tables of an address depend on its prefix only. */
  lemma {:induction false} TableOfPrefix(m: Memory, root: word, v: word, w: word, k: nat)
    requires k < 4 && SamePrefix(v, w, k)
    ensures Table(m, root, v, k) == Table(m, root, w, k)
  {
    if k > 0 {
      TableOfPrefix(m, root, v, w, k - 1);
    }
  }

  lemma TableAligned(m: Memory, root: word, v: word, k: nat)
    requires Aligned(root) && k < 4 && Table(m, root, v, k).Some?
    ensures Aligned(Table(m, root, v, k).value)
  {
    hide Index, Present, Large, Aligned;
  }

  /** The walk of `w` does not read the cell `a`. */
  ghost predicate Avoids(m: Memory, root: word, w: word, a: word) {
    forall k :: 0 <= k < 4 && Table(m, root, w, k).Some? ==> Slot(Table(m, root, w, k).value, Index(w, k)) != a
  }

  lemma {:induction false} TableAvoided(m: Memory, root: word, w: word, a: word, x: word, k: nat)
    requires Avoids(m, root, w, a) && k < 4
    ensures Table(Store(m, a, x), root, w, k) == Table(m, root, w, k)
  {
    hide Slot, Index, Present, Large, Base;
    if k > 0 {
      TableAvoided(m, root, w, a, x, k - 1);
    }
  }

  lemma {:induction false} WalkAvoided(m: Memory, root: word, w: word, a: word, x: word, t: word, k: nat)
    requires Avoids(m, root, w, a) && k < 4 && Table(m, root, w, k) == Some(t)
    ensures WalkFrom(Store(m, a, x), t, w, k) == WalkFrom(m, t, w, k)
    decreases 4 - k
  {
    hide Slot, Index, Present, Large, Base, Physical, Table, Store, WalkFrom;
    var e := m(Slot(t, Index(w, k)));
    StoreMiss(m, a, x, Slot(t, Index(w, k)));
    WalkStep(m, t, w, k);
    WalkStep(Store(m, a, x), t, w, k);
    if k < 3 && Present(e) && !(k > 0 && Large(e)) {
      TableStep(m, root, w, k);
      WalkAvoided(m, root, w, a, x, Base(e), k + 1);
    }
  }

  /** Two walks read one cell only at the same level and with the same indices down to it. */
  lemma OneReader(m: Memory, root: word, v: word, k: nat, w: word, j: nat)
    requires Unshared(m, root) && k < 4 && j < 4
    requires Table(m, root, v, k).Some? && Table(m, root, w, j).Some?
    requires Slot(Table(m, root, v, k).value, Index(v, k)) == Slot(Table(m, root, w, j).value, Index(w, j))
    ensures j == k && SamePrefix(v, w, k + 1)
  {
    hide Slot, Index, Table, Aligned;
    TableAligned(m, root, v, k);
    TableAligned(m, root, w, j);
    SlotInjective(Table(m, root, v, k).value, Index(v, k), Table(m, root, w, j).value, Index(w, j));
    assert SamePrefix(v, w, k);
  }

  /** Only the table entry of a page's own prefix is read by its walks. */
  lemma OthersAvoid(m: Memory, root: word, v: word, k: nat, w: word)
    requires Unshared(m, root) && k < 4 && Table(m, root, v, k).Some? && !SamePrefix(v, w, k + 1)
    ensures Avoids(m, root, w, Slot(Table(m, root, v, k).value, Index(v, k)))
  {
    hide Slot, Index, Table;
    var a := Slot(Table(m, root, v, k).value, Index(v, k));
    forall j | 0 <= j < 4 && Table(m, root, w, j).Some?
      ensures Slot(Table(m, root, w, j).value, Index(w, j)) != a
    {
      if Slot(Table(m, root, w, j).value, Index(w, j)) == a {
        OneReader(m, root, v, k, w, j);
      }
    }
  }

  /** The tables above the cell are read from other cells. */
  lemma {:induction false} AboveKept(m: Memory, root: word, v: word, k: nat, w: word, j: nat, x: word)
    requires Unshared(m, root) && k < 4 && Table(m, root, v, k).Some? && j <= k
    ensures Table(Store(m, Slot(Table(m, root, v, k).value, Index(v, k)), x), root, w, j) == Table(m, root, w, j)
  {
    hide Slot, Index, Unshared, Base, Present, Large, Table, Store;
    var a := Slot(Table(m, root, v, k).value, Index(v, k));
    if j == 0 {
      RootTable(m, root, w);
      RootTable(Store(m, a, x), root, w);
    } else {
      AboveKept(m, root, v, k, w, j - 1, x);
      TableStep(m, root, w, j - 1);
      TableStep(Store(m, a, x), root, w, j - 1);
      if Table(m, root, w, j - 1).Some? {
        StoreMiss(m, a, x, Slot(Table(m, root, w, j - 1).value, Index(w, j - 1)));
      }
      if Table(m, root, w, j - 1).Some?
        && Slot(Table(m, root, v, k).value, Index(v, k)) == Slot(Table(m, root, w, j - 1).value, Index(w, j - 1)) {
        OneReader(m, root, v, k, w, j - 1);
      }
    }
  }

  // Mapping a page whose tables are there.

  /** The last step of `pmap`: the entry in the bottom table. */
  function SetLeaf(m: Memory, t: word, paddr: word, v: word, flags: word): Memory {
    Store(m, Slot(t, Index(v, 3)), Entry(Pointer(paddr), flags))
  }

  lemma LeafTables(m: Memory, root: word, v: word, x: word, w: word, k: nat)
    requires Unshared(m, root) && Table(m, root, v, 3).Some? && k < 4
    ensures Table(Store(m, Slot(Table(m, root, v, 3).value, Index(v, 3)), x), root, w, k) == Table(m, root, w, k)
  {
    AboveKept(m, root, v, 3, w, k, x);
  }

  /** The page is translated to the frame; every other page is translated as before. */
  lemma LeafWalks(m: Memory, root: word, paddr: word, v: word, flags: word, w: word)
    requires Unshared(m, root) && Table(m, root, v, 3).Some? && flags & ADDR == 0
    ensures Walk(SetLeaf(m, Table(m, root, v, 3).value, paddr, v, flags), root, w)
         == if Page(w) == Page(v) then Some((paddr & ADDR) | (w & 0xFFF)) else Walk(m, root, w)
  {
    hide Slot, Index, Present, Large, Base, Page, Table, WalkFrom, Unshared, SamePrefix, Entry;
    var t := Table(m, root, v, 3).value;
    var a := Slot(t, Index(v, 3));
    var x := Entry(Pointer(paddr), flags);
    PageIff(v, w);
    if Page(w) == Page(v) {
      PrefixOfPage(v, w);
      TableOfPrefix(m, root, v, w, 3);
      LeafTables(m, root, v, x, w, 3);
      WalkVia(Store(m, a, x), root, w, 3);
      LeafEntry(paddr, flags);
      LastStep(Store(m, a, x), t, w);
    } else {
      OthersAvoid(m, root, v, 3, w);
      RootTable(m, root, w);
      WalkAvoided(m, root, w, a, x, root, 0);
    }
  }

  lemma PrefixOfPage(v: word, w: word)
    requires SamePrefix(v, w, 4)
    ensures SamePrefix(v, w, 3) && Index(v, 3) == Index(w, 3)
  {
    hide Index;
  }

  lemma RootTable(m: Memory, root: word, w: word)
    ensures Table(m, root, w, 0) == Some(root)
  {
  }

  lemma LastStep(m: Memory, t: word, w: word)
    requires Present(m(Slot(t, Index(w, 3))))
    ensures WalkFrom(m, t, w, 3) == Some(Base(m(Slot(t, Index(w, 3)))) | (w & 0xFFF))
  {
    hide Slot, Index, Present, Large, Base;
  }

  lemma LeafUnshared(m: Memory, root: word, paddr: word, v: word, flags: word)
    requires Unshared(m, root) && Table(m, root, v, 3).Some?
    ensures Unshared(SetLeaf(m, Table(m, root, v, 3).value, paddr, v, flags), root)
  {
    hide Slot, Index, Table, SamePrefix, Entry;
    var t := Table(m, root, v, 3).value;
    forall u, k | 0 <= k < 4
      ensures Table(SetLeaf(m, t, paddr, v, flags), root, u, k) == Table(m, root, u, k)
    {
      LeafTables(m, root, v, Entry(Pointer(paddr), flags), u, k);
    }
  }

  // Adding a missing table.

  /** An aligned table of absent entries that no walk reaches. */
  ghost predicate Fresh(m: Memory, root: word, n: word) {
    && n & ADDR == n && Aligned(n)
    && (forall i: word :: i < 512 ==> !Present(m(Slot(n, i))))
    && forall w, k :: 0 <= k < 4 ==> Table(m, root, w, k) != Some(n)
  }

  /** The tables after a fresh one was entered at level `k`: it, and otherwise those from before. */
  lemma {:induction false} AddedTable(m: Memory, root: word, v: word, k: nat, t: word, n: word, flags: word, w: word, j: nat)
    requires Unshared(m, root) && k < 3 && j < 4 && Table(m, root, v, k) == Some(t)
    requires !Present(m(Slot(t, Index(v, k)))) && Fresh(m, root, n) && flags & (ADDR | LARGE) == 0
    ensures Table(Store(m, Slot(t, Index(v, k)), Entry(n, flags)), root, w, j)
         == if j == k + 1 && SamePrefix(v, w, k + 1) then Some(n) else Table(m, root, w, j)
    decreases j
  {
    hide Slot, Index, Unshared, Base, Present, Large, Table, Store, Entry, Aligned, SamePrefix;
    var a := Slot(t, Index(v, k));
    var m' := Store(m, a, Entry(n, flags));
    if j <= k {
      AboveKept(m, root, v, k, w, j, Entry(n, flags));
    } else if !SamePrefix(v, w, k + 1) {
      OthersAvoid(m, root, v, k, w);
      TableAvoided(m, root, w, a, Entry(n, flags), j);
    } else {
      AddedTable(m, root, v, k, t, n, flags, w, j - 1);
      PrefixDown(v, w, k);
      TableOfPrefix(m, root, v, w, k);
      TableStep(m', root, w, j - 1);
      TableStep(m, root, w, j - 1);
      if j == k + 1 {
        TableEntry(n, flags);
        StoreMiss(m, a, Entry(n, flags), a);
      } else {
        AbsentBelow(m, root, w, k, j);
        if j == k + 2 {
          EmptyTable(m, root, v, k, t, n, flags, Index(w, k + 1));
        } else {
          AbsentBelow(m, root, w, k, j - 1);
        }
      }
    }
  }

  lemma PrefixDown(v: word, w: word, k: nat)
    requires k < 4 && SamePrefix(v, w, k + 1)
    ensures SamePrefix(v, w, k) && Index(v, k) == Index(w, k)
  {
    hide Index;
  }

  /** Below an absent entry there are no tables. */
  lemma {:induction false} AbsentBelow(m: Memory, root: word, w: word, k: nat, j: nat)
    requires k < j < 4 && Table(m, root, w, k).Some? && !Present(m(Slot(Table(m, root, w, k).value, Index(w, k))))
    ensures Table(m, root, w, j) == None
    decreases j
  {
    hide Slot, Index, Base, Present, Large, Table;
    TableStep(m, root, w, j - 1);
    if j > k + 1 {
      AbsentBelow(m, root, w, k, j - 1);
    }
  }

  /** The fresh table is still empty when it has been entered. */
  lemma EmptyTable(m: Memory, root: word, v: word, k: nat, t: word, n: word, flags: word, i: word)
    requires Unshared(m, root) && k < 3 && Table(m, root, v, k) == Some(t) && Fresh(m, root, n) && i < 512
    ensures !Present(Store(m, Slot(t, Index(v, k)), Entry(n, flags))(Slot(n, i)))
  {
    hide Slot, Index, Base, Present, Large, Table, Entry, Aligned;
    TableAligned(m, root, v, k);
    if Slot(n, i) == Slot(t, Index(v, k)) {
      SlotInjective(n, i, t, Index(v, k));
    }
  }

  /** Entering a fresh table changes no translation, and tables stay unshared. */
  lemma AddedWalk(m: Memory, root: word, v: word, k: nat, t: word, n: word, flags: word, w: word)
    requires Unshared(m, root) && k < 3 && Table(m, root, v, k) == Some(t)
    requires !Present(m(Slot(t, Index(v, k)))) && Fresh(m, root, n) && flags & (ADDR | LARGE) == 0
    ensures Walk(Store(m, Slot(t, Index(v, k)), Entry(n, flags)), root, w) == Walk(m, root, w)
  {
    hide Slot, Index, Base, Present, Large, Table, Entry, Store, SamePrefix, WalkFrom, Unshared, Fresh;
    var a := Slot(t, Index(v, k));
    var m' := Store(m, a, Entry(n, flags));
    if SamePrefix(v, w, k + 1) {
      PrefixDown(v, w, k);
      TableOfPrefix(m, root, v, w, k);
      WalkVia(m, root, w, k);
      WalkStep(m, t, w, k);
      AddedTable(m, root, v, k, t, n, flags, w, k + 1);
      WalkVia(m', root, w, k + 1);
      WalkStep(m', n, w, k + 1);
      EmptyTable(m, root, v, k, t, n, flags, Index(w, k + 1));
    } else {
      OthersAvoid(m, root, v, k, w);
      RootTable(m, root, w);
      WalkAvoided(m, root, w, a, Entry(n, flags), root, 0);
    }
  }

  lemma AddedUnshared(m: Memory, root: word, v: word, k: nat, t: word, n: word, flags: word)
    requires Unshared(m, root) && k < 3 && Table(m, root, v, k) == Some(t)
    requires !Present(m(Slot(t, Index(v, k)))) && Fresh(m, root, n) && flags & (ADDR | LARGE) == 0
    ensures Unshared(Store(m, Slot(t, Index(v, k)), Entry(n, flags)), root)
  {
    hide Slot, Index, Base, Present, Large, Table, Entry, Store;
    var m' := Store(m, Slot(t, Index(v, k)), Entry(n, flags));
    forall u, w, i, j | 0 <= i < 4 && 0 <= j < 4 && Table(m', root, u, i).Some? && Table(m', root, u, i) == Table(m', root, w, j)
      ensures i == j && SamePrefix(u, w, j)
    {
      AddedTable(m, root, v, k, t, n, flags, u, i);
      AddedTable(m, root, v, k, t, n, flags, w, j);
    }
  }

  // The whole of `pmap`.

  /** `palloc`: the first absent entry from an address on. */
  function FirstFree(m: Memory, p: word, fuel: nat): word
    decreases fuel
  {
    if fuel == 0 || !Present(m(p)) then p else FirstFree(m, p + 8, fuel - 1)
  }

  /** There is one within `fuel` entries, so that `palloc` returns. */
  predicate HasFree(m: Memory, p: word, fuel: nat) { !Present(m(FirstFree(m, p, fuel))) }

  datatype Stage = Stage(mem: Memory, child: word)

  /** One level: the table below an entry, taken from the pool when the entry is absent. */
  function Descend(m: Memory, t: word, i: word, pool: word, flags: word, fuel: nat): Stage {
    var e := m(Slot(t, i));
    if !Present(e) then
      var n := FirstFree(m, pool, fuel);
      Stage(Store(m, Slot(t, i), Entry(n, flags)), n)
    else Stage(m, Pointer(e))
  }

  /** The three pools follow the top table, as laid out by the boot code. */
  function Pool(root: word, k: nat): word {
    if k == 0 then root + 8 * 512 else if k == 1 then root + 8 * 512 + 8 * 512 else root + 8 * 512 + 8 * 512 + 8 * 3072
  }

  function Level(m: Memory, root: word, v: word, k: nat, flags: word, fuel: nat): Stage
    requires k < 4
  {
    if k == 0 then Stage(m, root)
    else
      var s := Level(m, root, v, k - 1, flags, fuel);
      Descend(s.mem, s.child, Index(v, k - 1), Pool(root, k - 1), flags, fuel)
  }

  function Pmap(m: Memory, root: word, paddr: word, v: word, flags: word, fuel: nat): Memory {
    var s := Level(m, root, v, 3, flags, fuel);
    SetLeaf(s.mem, s.child, paddr, v, flags)
  }

  /** On its way down `pmap` meets an entry of a table, not of a large page, with no bits above the
      address; or an absent one, and `palloc` then finds a fresh table. */
  ghost predicate LevelReady(s: Stage, root: word, v: word, k: nat, fuel: nat)
    requires k < 3
  {
    var e := s.mem(Slot(s.child, Index(v, k)));
    if Present(e) then !(k > 0 && Large(e)) && Pointer(e) == Base(e)
    else Fresh(s.mem, root, FirstFree(s.mem, Pool(root, k), fuel))
  }

  ghost predicate Ready(m: Memory, root: word, v: word, flags: word, fuel: nat) {
    && Unshared(m, root) && flags & (ADDR | LARGE) == 0
    && forall k :: 0 <= k < 3 ==> LevelReady(Level(m, root, v, k, flags, fuel), root, v, k, fuel)
  }

  lemma {:induction false} LevelKeeps(m: Memory, root: word, v: word, k: nat, flags: word, fuel: nat, w: word)
    requires Ready(m, root, v, flags, fuel) && k < 4
    ensures var s := Level(m, root, v, k, flags, fuel);
      Unshared(s.mem, root) && Table(s.mem, root, v, k) == Some(s.child) && Walk(s.mem, root, w) == Walk(m, root, w)
  {
    hide Slot, Index, Base, Present, Large, Table, Entry, Store, Unshared, Fresh, Walk, Pool;
    if k == 0 {
      RootTable(m, root, v);
    } else {
      LevelKeeps(m, root, v, k - 1, flags, fuel, w);
      var s := Level(m, root, v, k - 1, flags, fuel);
      TableStep(s.mem, root, v, k - 1);
      if !Present(s.mem(Slot(s.child, Index(v, k - 1)))) {
        var n := FirstFree(s.mem, Pool(root, k - 1), fuel);
        AddedTable(s.mem, root, v, k - 1, s.child, n, flags, v, k);
        AddedWalk(s.mem, root, v, k - 1, s.child, n, flags, w);
        AddedUnshared(s.mem, root, v, k - 1, s.child, n, flags);
      }
    }
  }

  /** `pmap` maps the page to the frame, changes no other translation, and keeps tables unshared. */
  lemma PmapTranslates(m: Memory, root: word, paddr: word, v: word, flags: word, fuel: nat, w: word)
    requires Ready(m, root, v, flags, fuel)
    ensures var m' := Pmap(m, root, paddr, v, flags, fuel);
      && Unshared(m', root)
      && Walk(m', root, w) == if Page(w) == Page(v) then Some((paddr & ADDR) | (w & 0xFFF)) else Walk(m, root, w)
  {
    hide Walk, Table, Unshared, SetLeaf, Page, LevelReady, Level;
    LevelKeeps(m, root, v, 3, flags, fuel, w);
    var s := Level(m, root, v, 3, flags, fuel);
    FlagsPlain(flags);
    LeafWalks(s.mem, root, paddr, v, flags, w);
    LeafUnshared(s.mem, root, paddr, v, flags);
  }

  lemma FlagsPlain(flags: word)
    requires flags & (ADDR | LARGE) == 0
    ensures flags & ADDR == 0
  {
  }

  // What is stored.

  /** The 512 entries of the top table are followed by the pools: one table for the second level, then six for
      the third, then those of the fourth. */
  function PoolAt(root: word, k: nat): word {
    if k == 0 then root + 4096 else if k == 1 then root + 8192 else root + 32768
  }

  lemma PoolIs(root: word, k: nat)
    requires k < 3
    ensures Pool(root, k) == PoolAt(root, k)
  {
  }

  /** The free place: the first entry from `p` on with its low bit clear. */
  lemma {:induction false} FirstIsAbsent(m: Memory, p: word, fuel: nat) returns (i: nat)
    requires HasFree(m, p, fuel)
    ensures i <= fuel && Stepped(p, i) == FirstFree(m, p, fuel) && !LowBit(m(Stepped(p, i)))
    ensures forall j :: 0 <= j < i ==> LowBit(m(Stepped(p, j)))
    decreases fuel
  {
    hide Present, LowBit;
    PresentBit(m(p));
    i := 0;
    if fuel > 0 && Present(m(p)) {
      i := FirstIsAbsent(m, p + 8, fuel - 1);
      i := i + 1;
      forall j | 0 <= j < i
        ensures LowBit(m(Stepped(p, j)))
      {
        if j > 0 {
          assert Stepped(p, j) == Stepped(p + 8, j - 1);
        }
      }
    }
  }

  /** The address `i` entries on. */
  function Stepped(p: word, i: nat): word
    decreases i
  {
    if i == 0 then p else Stepped(p + 8, i - 1)
  }

  /** One level down. An absent entry becomes the first free place of its pool with the two low bits and the
      flags; a present one is followed to its frame. */
  lemma LevelStores(m: Memory, root: word, v: word, k: nat, flags: word, fuel: nat)
    requires k < 3 && flags < 4096
    ensures var (s, s') := (Level(m, root, v, k, flags, fuel), Level(m, root, v, k + 1, flags, fuel));
      var a := Slot(s.child, IndexAt(v, k));
      if LowBit(s.mem(a)) then s' == Stage(s.mem, FrameOf(s.mem(a)))
      else
        s'.child == FirstFree(s.mem, PoolAt(root, k), fuel)
        && (s'.child % 4096 == 0 ==> s'.mem(a) == FrameWord(s'.child, flags))
        && forall b :: b != a ==> s'.mem(b) == s.mem(b)
  {
    hide Index, Present, Pointer, Entry, FirstFree, Pool, PoolAt, Level, Descend, IndexAt, FrameOf, FrameWord,
      Slot, LowBit;
    var (s, s') := (Level(m, root, v, k, flags, fuel), Level(m, root, v, k + 1, flags, fuel));
    var a := Slot(s.child, IndexAt(v, k));
    LevelSteps(m, root, v, flags, fuel);
    PoolIs(root, k);
    IndexIs(v, k);
    PresentBit(s.mem(a));
    PointerIs(s.mem(a));
    DescendIs(s.mem, s.child, Index(v, k), Pool(root, k), flags, fuel);
    if s'.child % 4096 == 0 {
      EntryIs(s'.child, flags);
    }
  }

  lemma DescendIs(m: Memory, t: word, i: word, pool: word, flags: word, fuel: nat)
    ensures var (a, n, s) := (Slot(t, i), FirstFree(m, pool, fuel), Descend(m, t, i, pool, flags, fuel));
      if Present(m(a)) then s == Stage(m, Pointer(m(a)))
      else s.child == n && s.mem(a) == Entry(n, flags) && forall b :: b != a ==> s.mem(b) == m(b)
  {
    hide Present, Pointer, Entry, FirstFree, Slot;
  }

  /** At the end: the frame with the two low bits and the flags in the bottom table. */
  lemma LeafStores(m: Memory, root: word, paddr: word, v: word, flags: word, fuel: nat)
    requires flags < 4096
    ensures var (s, m') := (Level(m, root, v, 3, flags, fuel), Pmap(m, root, paddr, v, flags, fuel));
      var a := Slot(s.child, IndexAt(v, 3));
      m'(a) == FrameWord(FrameOf(paddr), flags) && forall b :: b != a ==> m'(b) == s.mem(b)
  {
    hide Index, Pointer, Entry, Level, IndexAt, FrameOf, FrameWord, Slot;
    IndexIs(v, 3);
    PointerIs(paddr);
    EntryIs(Pointer(paddr), flags);
  }

  // Runs.

  datatype Request = Request(paddr: word, vaddr: word)

  /** The memory after a run of `pmap` calls. */
  function Run(m: Memory, root: word, rs: seq<Request>, flags: word, fuel: nat): Memory {
    if rs == [] then m
    else
      var r := rs[|rs| - 1];
      Pmap(Run(m, root, rs[..|rs| - 1], flags, fuel), root, r.paddr, r.vaddr, flags, fuel)
  }

  /** Every call of the run finds the tables it needs. */
  ghost predicate RunReady(m: Memory, root: word, rs: seq<Request>, flags: word, fuel: nat) {
    forall i :: 0 <= i < |rs| ==> Ready(Run(m, root, rs[..i], flags, fuel), root, rs[i].vaddr, flags, fuel)
  }

  /** The last request for a page decides; pages not asked for keep their translation. */
  function Mapped(m: Memory, root: word, rs: seq<Request>, w: word): Option<word> {
    if rs == [] then Walk(m, root, w)
    else
      var r := rs[|rs| - 1];
      if Page(w) == Page(r.vaddr) then Some((r.paddr & ADDR) | (w & 0xFFF))
      else Mapped(m, root, rs[..|rs| - 1], w)
  }

  lemma {:induction false} RunMaps(m: Memory, root: word, rs: seq<Request>, flags: word, fuel: nat, w: word)
    requires RunReady(m, root, rs, flags, fuel)
    ensures Walk(Run(m, root, rs, flags, fuel), root, w) == Mapped(m, root, rs, w)
  {
    hide Walk, Page, Pmap, Ready;
    if rs != [] {
      var init, r := rs[..|rs| - 1], rs[|rs| - 1];
      forall i | 0 <= i < |init|
        ensures Ready(Run(m, root, init[..i], flags, fuel), root, init[i].vaddr, flags, fuel)
      {
        assert init[..i] == rs[..i];
      }
      RunMaps(m, root, init, flags, fuel, w);
      PmapTranslates(Run(m, root, init, flags, fuel), root, r.paddr, r.vaddr, flags, fuel, w);
    }
  }

  // Where `pmap` does not do what it is for.

  /** The cells that `pmap` reads or writes below level `k` are none that the walk of `w` reads. */
  ghost predicate Aside(m: Memory, root: word, v: word, k: nat, flags: word, fuel: nat, w: word) {
    forall j :: k < j < 4 ==> Avoids(m, root, w, Slot(Level(m, root, v, j, flags, fuel).child, Index(v, j)))
  }

  /** In a 2-MB page or a 1-GB page (an entry of level 2 or 1) `pmap` goes on in the page itself: unless a
      table lies there, no translation changes, so the address keeps its old one. */
  lemma LargePageStays(m: Memory, root: word, paddr: word, v: word, flags: word, fuel: nat, k: nat, t: word, w: word)
    requires 1 <= k < 3 && Level(m, root, v, k, flags, fuel) == Stage(m, t)
    requires Present(m(Slot(t, Index(v, k)))) && Large(m(Slot(t, Index(v, k))))
    requires Aside(m, root, v, k, flags, fuel, w)
    ensures Walk(Pmap(m, root, paddr, v, flags, fuel), root, w) == Walk(m, root, w)
  {
    hide Slot, Index, Base, Present, Large, Table, Entry, Store, Pointer, WalkFrom, Level, Avoids, Pool, FirstFree;
    LevelSteps(m, root, v, flags, fuel);
    assert Level(m, root, v, k + 1, flags, fuel) == Stage(m, Pointer(m(Slot(t, Index(v, k)))));
    LevelsAside(m, root, v, k, flags, fuel, 3, w);
    var s := Level(m, root, v, 3, flags, fuel);
    RootTable(s.mem, root, w);
    WalkAvoided(s.mem, root, w, Slot(s.child, Index(v, 3)), Entry(Pointer(paddr), flags), root, 0);
  }

  lemma {:induction false} LevelsAside(m: Memory, root: word, v: word, k: nat, flags: word, fuel: nat, j: nat, w: word)
    requires k < 3 && Level(m, root, v, k + 1, flags, fuel).mem == m && Aside(m, root, v, k, flags, fuel, w)
    requires k < j < 4
    ensures var s := Level(m, root, v, j, flags, fuel);
      && Walk(s.mem, root, w) == Walk(m, root, w)
      && forall a :: Avoids(m, root, w, a) ==> Avoids(s.mem, root, w, a)
  {
    hide Slot, Index, Base, Present, Large, Table, Entry, Store, Pointer, WalkFrom, Level, Avoids, Pool, FirstFree;
    if j > k + 1 {
      LevelsAside(m, root, v, k, flags, fuel, j - 1, w);
      LevelSteps(m, root, v, flags, fuel);
      var s := Level(m, root, v, j - 1, flags, fuel);
      var c := Slot(s.child, Index(v, j - 1));
      assert Avoids(s.mem, root, w, c);
      if !Present(s.mem(c)) {
        var x := Entry(FirstFree(s.mem, Pool(root, j - 1), fuel), flags);
        assert Level(m, root, v, j, flags, fuel).mem == Store(s.mem, c, x);
        RootTable(s.mem, root, w);
        WalkAvoided(s.mem, root, w, c, x, root, 0);
        forall a | Avoids(s.mem, root, w, a)
          ensures Avoids(Store(s.mem, c, x), root, w, a)
        {
          StillAvoids(s.mem, root, w, c, x, a);
        }
      }
    }
  }

  lemma StillAvoids(m: Memory, root: word, w: word, a: word, x: word, b: word)
    requires Avoids(m, root, w, a) && Avoids(m, root, w, b)
    ensures Avoids(Store(m, a, x), root, w, b)
  {
    hide Slot, Index, Table, Store;
    forall k | 0 <= k < 4 && Table(Store(m, a, x), root, w, k).Some?
      ensures Slot(Table(Store(m, a, x), root, w, k).value, Index(w, k)) != b
    {
      TableAvoided(m, root, w, a, x, k);
    }
  }

  /** When the upper entries are there, down to a 1-GB page or to the lowest one, `pmap` makes the address
      translate to the frame exactly when it meets no large page, or the address translated so already. */
  lemma PresentIff(m: Memory, root: word, paddr: word, v: word, flags: word, fuel: nat, k: nat, t: word)
    requires Unshared(m, root) && flags & ADDR == 0 && 1 <= k < 3
    requires Table(m, root, v, k) == Some(t) && Level(m, root, v, k, flags, fuel) == Stage(m, t)
    requires var e := m(Slot(t, Index(v, k)));
      && Present(e)
      && if Large(e) then Aside(m, root, v, k, flags, fuel, v) else k == 2 && Pointer(e) == Base(e)
    ensures var target := Some((paddr & ADDR) | (v & 0xFFF));
      Walk(Pmap(m, root, paddr, v, flags, fuel), root, v) == target
      <==> !Large(m(Slot(t, Index(v, k)))) || Walk(m, root, v) == target
  {
    hide Slot, Index, Base, Present, Large, Table, Entry, Store, Pointer, WalkFrom, Walk, SetLeaf, Page, Unshared,
      Avoids, Level;
    var e := m(Slot(t, Index(v, k)));
    LevelSteps(m, root, v, flags, fuel);
    if Large(e) {
      LargePageStays(m, root, paddr, v, flags, fuel, k, t, v);
    } else {
      assert Level(m, root, v, 3, flags, fuel) == Stage(m, Pointer(e));
      TableStep(m, root, v, 2);
      LeafWalks(m, root, paddr, v, flags, v);
    }
  }

  /** `pmap` never makes an entry absent. */
  lemma PmapKeepsPresent(m: Memory, root: word, paddr: word, v: word, flags: word, fuel: nat, a: word)
    requires Present(m(a))
    ensures Present(Pmap(m, root, paddr, v, flags, fuel)(a))
  {
    hide Slot, Index, Present, Pointer, Entry, FirstFree, Level;
    LevelKeepsPresent(m, root, v, 3, flags, fuel, a);
    EntryPresent(Pointer(paddr), flags);
  }

  lemma {:induction false} LevelKeepsPresent(m: Memory, root: word, v: word, k: nat, flags: word, fuel: nat, a: word)
    requires Present(m(a)) && k < 4
    ensures Present(Level(m, root, v, k, flags, fuel).mem(a))
  {
    hide Slot, Index, Present, Pointer, Entry, FirstFree, Pool;
    if k > 0 {
      LevelKeepsPresent(m, root, v, k - 1, flags, fuel, a);
      var s := Level(m, root, v, k - 1, flags, fuel);
      EntryPresent(FirstFree(s.mem, Pool(root, k - 1), fuel), flags);
    }
  }

  lemma EntryPresent(p: word, flags: word)
    ensures Present(Entry(p, flags))
  {
  }

  /** `palloc` marks nothing: asked again later, it returns the same table exactly when the first entry
      of that table is still absent. */
  lemma {:induction false} PoolRepeatsIff(m: Memory, m': Memory, p: word, fuel: nat)
    requires HasFree(m, p, fuel) && HasFree(m', p, fuel) && forall a :: Present(m(a)) ==> Present(m'(a))
    ensures FirstFree(m', p, fuel) == FirstFree(m, p, fuel) <==> !Present(m'(FirstFree(m, p, fuel)))
  {
    hide Present;
    if !Present(m'(FirstFree(m, p, fuel))) {
      FirstStays(m, m', p, fuel);
    }
  }

  lemma {:induction false} FirstStays(m: Memory, m': Memory, p: word, fuel: nat)
    requires !Present(m'(FirstFree(m, p, fuel))) && forall a :: Present(m(a)) ==> Present(m'(a))
    ensures FirstFree(m', p, fuel) == FirstFree(m, p, fuel)
    decreases fuel
  {
    hide Present;
    if fuel > 0 && Present(m(p)) {
      FirstStays(m, m', p + 8, fuel - 1);
    }
  }

  /** A table from the pool that is already in use becomes shared: from then on the two prefixes have
      the same translations. */
  lemma ReusedTableShared(m: Memory, root: word, v: word, k: nat, t: word, u: word, n: word, flags: word)
    requires Unshared(m, root) && k < 3 && Table(m, root, v, k) == Some(t) && !Present(m(Slot(t, Index(v, k))))
    requires Table(m, root, u, k + 1) == Some(n) && n & ADDR == n && flags & (ADDR | LARGE) == 0
    ensures !SamePrefix(v, u, k + 1)
    ensures var m' := Store(m, Slot(t, Index(v, k)), Entry(n, flags));
      Table(m', root, v, k + 1) == Some(n) && Table(m', root, u, k + 1) == Some(n) && !Unshared(m', root)
  {
    hide Slot, Index, Base, Present, Large, Table, Entry, Store, SamePrefix;
    var a := Slot(t, Index(v, k));
    var m' := Store(m, a, Entry(n, flags));
    if SamePrefix(v, u, k + 1) {
      AbsentBelow(m, root, v, k, k + 1);
      TableOfPrefix(m, root, v, u, k + 1);
    }
    OthersAvoid(m, root, v, k, u);
    TableAvoided(m, root, u, a, Entry(n, flags), k + 1);
    AboveKept(m, root, v, k, v, k, Entry(n, flags));
    TableStep(m', root, v, k);
    StoreMiss(m, a, Entry(n, flags), a);
    TableEntry(n, flags);
  }

  class Mapper {
    const cr3: word
    var mem: Memory

    constructor (cr3: word, mem: Memory)
      ensures this.cr3 == cr3 && this.mem == mem
    {
      this.cr3 := cr3;
      this.mem := mem;
    }

    method Write(a: word, x: word)
      modifies this
      ensures mem == Store(old(mem), a, x)
    {
      mem := Store(mem, a, x);
    }

    /** `palloc`. */
    method Palloc(base: word, ghost fuel: nat) returns (p: word)
      requires HasFree(mem, base, fuel)
      ensures p == FirstFree(mem, base, fuel) && !Present(mem(p))
    {
      p := base;
      ghost var left := fuel;
      while Present(mem(p))
        invariant FirstFree(mem, p, left) == FirstFree(mem, base, fuel)
        decreases left
      {
        p := p + 8;
        left := left - 1;
      }
    }

    /** The pools hold a free entry when one is needed, so that `palloc` returns. */
    ghost predicate Stocked(v: word, flags: word, fuel: nat)
      reads this
    {
      forall k :: 0 <= k < 3 ==>
        var s := Level(mem, cr3, v, k, flags, fuel);
        Present(s.mem(Slot(s.child, Index(v, k)))) || HasFree(s.mem, Pool(cr3, k), fuel)
    }

    /** The step that `pmap` takes at each of the three upper levels. */
    method Below(t: word, i: word, pool: word, flags: word, ghost fuel: nat) returns (child: word)
      requires Present(mem(Slot(t, i))) || HasFree(mem, pool, fuel)
      modifies this
      ensures Stage(mem, child) == Descend(old(mem), t, i, pool, flags, fuel)
    {
      hide Slot, Present, Pointer, Entry, Store, FirstFree;
      if !Present(mem(Slot(t, i))) {
        child := Palloc(pool, fuel);
        Write(Slot(t, i), Entry(child, flags));
      } else {
        child := Pointer(mem(Slot(t, i)));
      }
    }

    /** `pmap`. */
    method Map(paddr: word, vaddr: word, flags: word, ghost fuel: nat)
      requires Stocked(vaddr, flags, fuel)
      modifies this
      ensures mem == Pmap(old(mem), cr3, paddr, vaddr, flags, fuel)
    {
      hide Slot, Index, Present, Pointer, Entry, Store, HasFree, Descend, Pool;
      ghost var m := mem;
      LevelSteps(m, cr3, vaddr, flags, fuel);
      var pdpBase := Below(cr3, Index(vaddr, 0), Pool(cr3, 0), flags, fuel);
      var pdBase := Below(pdpBase, Index(vaddr, 1), Pool(cr3, 1), flags, fuel);
      var ptBase := Below(pdBase, Index(vaddr, 2), Pool(cr3, 2), flags, fuel);
      Write(Slot(ptBase, Index(vaddr, 3)), Entry(Pointer(paddr), flags));
    }
  }

  lemma LevelSteps(m: Memory, root: word, v: word, flags: word, fuel: nat)
    ensures Level(m, root, v, 0, flags, fuel) == Stage(m, root)
    ensures forall k :: 0 <= k < 3 ==>
      var s := Level(m, root, v, k, flags, fuel);
      Level(m, root, v, k + 1, flags, fuel) == Descend(s.mem, s.child, Index(v, k), Pool(root, k), flags, fuel)
  {
    hide Index, Descend, Pool;
  }
}
