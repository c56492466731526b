/** The page tables that the boot code leaves: the first gigabyte in 2-MB pages, and zeroed pools. */
module BootTables {
  import opened PageBits
  import opened Paging

  /** The tables lie at any page from 1 MB up, inside the first gigabyte: the boot code maps no more, so
      that is where the kernel can reach them afterwards. */
  predicate Placed(root: word) { Aligned(root) && 0x10_0000 <= root <= 0x3FFF_0000 }

  function P3(root: word): word { root + 0x1000 }
  function P2(root: word): word { root + 0x2000 }
  function Spare(root: word): word { root + 0x3000 }
  function Spares(root: word): word { root + 0x8000 }

  /** What the boot code stores: entry 0 of the first two tables, and all entries of the third. */
  function Stored(root: word, a: word): word {
    var t, i := a & FRAME, (a >> 3) & 0x1FF;
    if a & 7 != 0 then 0
    else if t == root then if i == 0 then P3(root) | 3 else 0
    else if t == P3(root) then if i == 0 then P2(root) | 3 else 0
    else if t == P2(root) then (i << 21) | 0x83
    else 0
  }

  function Boot(root: word): Memory { a => Stored(root, a) }

  lemma BootAt(root: word, a: word)
    ensures Boot(root)(a) == Stored(root, a)
  {
    hide Stored;
  }

  lemma SlotLow(t: word, i: word)
    requires Aligned(t) && i < 512
    ensures Slot(t, i) & 7 == 0
  {
  }

  lemma StoredSlot(root: word, t: word, i: word)
    requires Aligned(t) && i < 512
    ensures Stored(root, Slot(t, i))
         == if t == root then if i == 0 then P3(root) | 3 else 0
            else if t == P3(root) then if i == 0 then P2(root) | 3 else 0
            else if t == P2(root) then (i << 21) | 0x83
            else 0
  {
    hide Slot, P3, P2, Aligned;
    SlotDecodes(t, i);
    SlotLow(t, i);
  }

  lemma BootCells(root: word, i: word)
    requires Placed(root) && i < 512
    ensures Boot(root)(Slot(root, i)) == if i == 0 then P3(root) | 3 else 0
    ensures Boot(root)(Slot(P3(root), i)) == if i == 0 then P2(root) | 3 else 0
    ensures Boot(root)(Slot(P2(root), i)) == (i << 21) | 0x83
    ensures Present(Boot(root)(Slot(P2(root), i))) && Large(Boot(root)(Slot(P2(root), i)))
    ensures !Present(Boot(root)(Slot(Spare(root), i))) && !Present(Boot(root)(Slot(Spares(root), i)))
  {
    hide Slot, Boot, Present, Large, P3, P2, Spare, Spares, Placed, Aligned, Stored;
    Constants(root);
    Apart(root);
    TableCell(root, root, i);
    TableCell(root, P3(root), i);
    TableCell(root, P2(root), i);
    TableCell(root, Spare(root), i);
    TableCell(root, Spares(root), i);
    LargeBits(i);
  }

  lemma TableCell(root: word, t: word, i: word)
    requires Aligned(t) && i < 512
    ensures Boot(root)(Slot(t, i))
         == if t == root then if i == 0 then P3(root) | 3 else 0
            else if t == P3(root) then if i == 0 then P2(root) | 3 else 0
            else if t == P2(root) then (i << 21) | 0x83
            else 0
  {
    hide Slot, Stored, Boot, P3, P2, Aligned;
    BootAt(root, Slot(t, i));
    StoredSlot(root, t, i);
  }

  lemma LargeBits(i: word)
    ensures Present((i << 21) | 0x83) && Large((i << 21) | 0x83) && !Present(0)
  {
  }

  lemma TableAt(root: word, c: word)
    requires Placed(root) && Aligned(c) && c <= 0xF000
    ensures Aligned(root + c) && root + c <= 0xFFFF_FFFF
  {
  }

  lemma InAddress(t: word)
    requires Aligned(t) && t <= 0xFFFF_FFFF
    ensures t & ADDR == t
  {
  }

  lemma EntryBits(t: word)
    requires Aligned(t)
    ensures Present(t | 3) && !Large(t | 3)
  {
  }

  lemma EntryBase(t: word)
    requires Aligned(t) && t <= 0xFFFF_FFFF
    ensures Base(t | 3) == t
  {
  }

  lemma EntryPointer(t: word)
    requires Aligned(t)
    ensures Pointer(t | 3) == t
  {
  }

  lemma Linked(t: word)
    requires Aligned(t) && t <= 0xFFFF_FFFF
    ensures Present(t | 3) && !Large(t | 3) && Base(t | 3) == t == Pointer(t | 3)
  {
    hide Present, Large, Base, Pointer, Aligned;
    EntryBits(t);
    EntryBase(t);
    EntryPointer(t);
  }

  lemma Constants(root: word)
    requires Placed(root)
    ensures Aligned(root) && Aligned(P3(root)) && Aligned(P2(root)) && Aligned(Spare(root)) && Aligned(Spares(root))
    ensures Spare(root) & ADDR == Spare(root) && Spares(root) & ADDR == Spares(root)
    ensures Present(P3(root) | 3) && !Large(P3(root) | 3) && Base(P3(root) | 3) == P3(root) == Pointer(P3(root) | 3)
    ensures Present(P2(root) | 3) && !Large(P2(root) | 3) && Base(P2(root) | 3) == P2(root) == Pointer(P2(root) | 3)
  {
    hide Present, Large, Base, Pointer, Aligned, Placed, P3, P2, Spare, Spares;
    TablesPlaced(root);
    Linked(P3(root));
    Linked(P2(root));
    InAddress(Spare(root));
    InAddress(Spares(root));
  }

  lemma TablesPlaced(root: word)
    requires Placed(root)
    ensures Aligned(root) && Aligned(P3(root)) && Aligned(P2(root)) && Aligned(Spare(root)) && Aligned(Spares(root))
    ensures P3(root) <= 0xFFFF_FFFF && P2(root) <= 0xFFFF_FFFF && Spare(root) <= 0xFFFF_FFFF
    ensures Spares(root) <= 0xFFFF_FFFF
  {
    TableAt(root, 0x1000);
    TableAt(root, 0x2000);
    TableAt(root, 0x3000);
    TableAt(root, 0x8000);
  }

  lemma Pools(root: word)
    requires Placed(root)
    ensures 0 & (ADDR | LARGE) == 0 && !Present(0)
    ensures Pool(root, 0) == P3(root) && Pool(root, 1) == P2(root) && Pool(root, 2) == Spares(root)
  {
  }

  /** The tables lie apart. */
  lemma Apart(root: word)
    requires Placed(root)
    ensures root != P3(root) && root != P2(root) && root != Spare(root) && root != Spares(root)
    ensures P3(root) != P2(root) && P3(root) != Spare(root) && P3(root) != Spares(root)
    ensures P2(root) != Spare(root) && P2(root) != Spares(root) && Spare(root) != Spares(root)
  {
  }

  lemma BootTable(root: word, v: word, k: nat)
    requires Placed(root) && k < 4
    ensures Table(Boot(root), root, v, k)
         == if k == 0 then Some(root)
            else if k == 1 && Index(v, 0) == 0 then Some(P3(root))
            else if k == 2 && Index(v, 0) == 0 && Index(v, 1) == 0 then Some(P2(root))
            else None
  {
    hide Index, Slot, Present, Large, Base, Boot;
    Constants(root);
    Pools(root);
    Apart(root);
    if k > 0 {
      BootTable(root, v, k - 1);
      BootCells(root, Index(v, k - 1));
    }
  }

  lemma BootUnshared(root: word)
    requires Placed(root)
    ensures Unshared(Boot(root), root)
  {
    hide Index, Table, Aligned;
    Constants(root);
    Pools(root);
    Apart(root);
    forall v, w, j, k | 0 <= j < 4 && 0 <= k < 4 && Table(Boot(root), root, v, j).Some?
      && Table(Boot(root), root, v, j) == Table(Boot(root), root, w, k)
      ensures j == k && SamePrefix(v, w, k)
    {
      BootTable(root, v, j);
      BootTable(root, w, k);
    }
  }

  /** How far `palloc` scans to get past the large pages, from entry `i` of their table on. */
  function Scan(i: word): nat
    requires i <= 512
    decreases 512 - i
  {
    if i == 512 then 0 else Scan(i + 1) + 1
  }

  lemma {:induction false} BootScan(root: word, m: Memory, i: word)
    requires i <= 512 && forall j: word :: j < 512 ==> Present(m(Slot(P2(root), j)))
    ensures FirstFree(m, Slot(P2(root), i), Scan(i)) == Spare(root)
    decreases 512 - i
  {
    hide Present, P2, Spare, Slot;
    LastSlot(root);
    if i != 512 {
      NextSlot(P2(root), i);
      BootScan(root, m, i + 1);
    }
  }

  lemma DirectoryScan(root: word)
    requires Placed(root)
    ensures FirstFree(Boot(root), P2(root), Scan(0)) == Spare(root)
  {
    hide Present, P2, Spare, Slot, Boot, Placed, Scan, FirstFree, Large;
    forall j: word | j < 512
      ensures Present(Boot(root)(Slot(P2(root), j)))
    {
      BootCells(root, j);
    }
    BootScan(root, Boot(root), 0);
    NextSlot(P2(root), 0);
  }

  lemma NextSlot(t: word, i: word)
    ensures Slot(t, i) + 8 == Slot(t, i + 1) && Slot(t, 0) == t
  {
  }

  lemma LastSlot(root: word)
    ensures Slot(P2(root), 512) == Spare(root)
  {
  }

  /** After boot, `pmap` finds what it needs for any page of the first 512 GB that lies above the first
      gigabyte, so the call that maps the disk controller's registers translates them. */
  lemma BootMaps(root: word, paddr: word, v: word, w: word)
    requires Placed(root) && Index(v, 0) == 0 && Index(v, 1) != 0
    ensures var m' := Pmap(Boot(root), root, paddr, v, 0, Scan(0));
      Walk(m', root, w) == if Page(w) == Page(v) then Some(Framed(paddr, w)) else Walk(Boot(root), root, w)
  {
    hide Pmap, Walk, Page, Ready;
    BootReady(root, v);
    PmapTranslates(Boot(root), root, paddr, v, 0, Scan(0), w);
  }

  function Second(root: word, v: word): Memory { Store(Boot(root), Slot(P3(root), Index(v, 1)), Entry(Spare(root), 0)) }

  lemma BootLevels(root: word, v: word)
    requires Placed(root) && Index(v, 0) == 0 && Index(v, 1) != 0
    ensures Level(Boot(root), root, v, 0, 0, Scan(0)) == Stage(Boot(root), root)
    ensures Level(Boot(root), root, v, 1, 0, Scan(0)) == Stage(Boot(root), P3(root))
    ensures Level(Boot(root), root, v, 2, 0, Scan(0)) == Stage(Second(root, v), Spare(root))
  {
    hide Index, Slot, Present, Large, Base, Boot, Pointer, Scan, Pool, Entry, Store, FirstFree, Level;
    LevelSteps(Boot(root), root, v, 0, Scan(0));
    Constants(root);
    Pools(root);
    Apart(root);
    BootCells(root, Index(v, 0));
    BootCells(root, Index(v, 1));
    DirectoryScan(root);
  }

  lemma BootReady(root: word, v: word)
    requires Placed(root) && Index(v, 0) == 0 && Index(v, 1) != 0
    ensures Ready(Boot(root), root, v, 0, Scan(0))
  {
    hide Index, Slot, Present, Large, Base, Boot, Pointer, Scan, Pool, Fresh, Entry, Store, FirstFree, Unshared,
      Level, Second;
    Constants(root);
    Pools(root);
    Apart(root);
    BootUnshared(root);
    BootLevels(root, v);
    BootCells(root, Index(v, 0));
    BootCells(root, Index(v, 1));
    DirectoryScan(root);
    FreshSpare(root);
    SecondLevel(root, v);
    FreeAtOnce(Second(root, v), Spares(root), Scan(0));
    assert LevelReady(Stage(Boot(root), root), root, v, 0, Scan(0));
    assert LevelReady(Stage(Boot(root), P3(root)), root, v, 1, Scan(0));
    assert LevelReady(Stage(Second(root, v), Spare(root)), root, v, 2, Scan(0));
  }

  lemma FreeAtOnce(m: Memory, p: word, fuel: nat)
    ensures !Present(m(p)) ==> FirstFree(m, p, fuel) == p
  {
  }

  lemma FreshSpare(root: word)
    requires Placed(root)
    ensures Fresh(Boot(root), root, Spare(root))
  {
    hide Index, Slot, Present, Boot, Table, Aligned;
    Constants(root);
    Pools(root);
    Apart(root);
    forall i: word | i < 512
      ensures !Present(Boot(root)(Slot(Spare(root), i)))
    {
      BootCells(root, i);
    }
    forall w, k | 0 <= k < 4
      ensures Table(Boot(root), root, w, k) != Some(Spare(root))
    {
      BootTable(root, w, k);
    }
  }

  /** With the first spare table entered, its entries are absent and the pool for the next is fresh. */
  lemma SecondLevel(root: word, v: word)
    requires Placed(root) && Index(v, 0) == 0 && Index(v, 1) != 0
    ensures var m := Second(root, v);
      !Present(m(Slot(Spare(root), Index(v, 2)))) && !Present(m(Spares(root))) && Fresh(m, root, Spares(root))
  {
    hide Index, Slot, Present, Boot, Table, Aligned, Entry, Fresh, Unshared, Store;
    var a := Slot(P3(root), Index(v, 1));
    var m := Store(Boot(root), a, Entry(Spare(root), 0));
    Constants(root);
    Pools(root);
    Apart(root);
    BootUnshared(root);
    FreshSpare(root);
    BootTable(root, v, 1);
    BootCells(root, Index(v, 1));
    EmptyTable(Boot(root), root, v, 1, P3(root), Spare(root), 0, Index(v, 2));
    PoolApart(root, Index(v, 1));
    forall i: word | i < 512
      ensures !Present(m(Slot(Spares(root), i)))
    {
      BootCells(root, i);
      StoreMiss(Boot(root), a, Entry(Spare(root), 0), Slot(Spares(root), i));
    }
    forall w, k | 0 <= k < 4
      ensures Table(m, root, w, k) != Some(Spares(root))
    {
      AddedTable(Boot(root), root, v, 1, P3(root), Spare(root), 0, w, k);
      BootTable(root, w, k);
    }
    FreshIs(root, m);
  }

  lemma PoolApart(root: word, j: word)
    requires Placed(root) && j < 512
    ensures forall i: word :: i < 512 ==> Slot(Spares(root), i) != Slot(P3(root), j)
    ensures Slot(Spares(root), 0) == Spares(root)
  {
  }

  lemma FreshIs(root: word, m: Memory)
    requires Placed(root)
    requires forall i: word :: i < 512 ==> !Present(m(Slot(Spares(root), i)))
    requires forall w, k :: 0 <= k < 4 ==> Table(m, root, w, k) != Some(Spares(root))
    ensures Fresh(m, root, Spares(root))
  {
    hide Table, Slot, Present, Spares, P3, P2, Spare, Placed, Aligned;
    Constants(root);
  }

  /** The page directory given out by the first call is given out again for the next missing one, unless
      the first call happened to fill its first entry; by ReusedTableShared two gigabytes then share it. */
  lemma SecondCallShares(root: word, paddr: word, v: word)
    requires Placed(root) && Index(v, 0) == 0 && Index(v, 1) != 0
    ensures var m' := Pmap(Boot(root), root, paddr, v, 0, Scan(0));
      && (Present(m'(Spare(root))) <==> Index(v, 2) == 0)
      && (Index(v, 2) != 0 ==> FirstFree(m', P2(root), Scan(0)) == Spare(root))
  {
    hide Index, Slot, Present, Large, Base, Boot, Pointer, Scan, Pool, Fresh, Entry, Store, FirstFree, Unshared, Level;
    var f := Scan(0);
    var m' := Pmap(Boot(root), root, paddr, v, 0, f);
    Constants(root);
    Pools(root);
    Apart(root);
    BootLevels(root, v);
    SecondLevel(root, v);
    LevelSteps(Boot(root), root, v, 0, f);
    FreeAtOnce(Second(root, v), Spares(root), f);
    var m3 := Store(Second(root, v), Slot(Spare(root), Index(v, 2)), Entry(Spares(root), 0));
    assert Level(Boot(root), root, v, 3, 0, f) == Stage(m3, Spares(root));
    CellsApart(root, Index(v, 1), Index(v, 2), Index(v, 3));
    BootCells(root, 0);
    EntryPresent(Spares(root), 0);
    StoreMiss(m3, Slot(Spares(root), Index(v, 3)), Entry(Pointer(paddr), 0), Spare(root));
    StoreMiss(Second(root, v), Slot(Spare(root), Index(v, 2)), Entry(Spares(root), 0), Spare(root));
    StoreMiss(Boot(root), Slot(P3(root), Index(v, 1)), Entry(Spare(root), 0), Spare(root));
    if Index(v, 2) != 0 {
      DirectoryScan(root);
      forall a | Present(Boot(root)(a))
        ensures Present(m'(a))
      {
        PmapKeepsPresent(Boot(root), root, paddr, v, 0, f, a);
      }
      FirstStays(Boot(root), m', P2(root), f);
    }
  }

  lemma CellsApart(root: word, i: word, j: word, k: word)
    requires Placed(root) && i < 512 && j < 512 && k < 512
    ensures Slot(P3(root), i) != Spare(root) && Slot(Spares(root), k) != Spare(root) && (Slot(Spare(root), j) == Spare(root) <==> j == 0)
    ensures Slot(Spare(root), 0) == Spare(root)
  {
  }

  // Addresses from 512 GB up.

  /** Two table entries are one cell only if they are the same entry of the same table. */
  lemma StoreSlot(m: Memory, t: word, i: word, x: word, u: word, j: word)
    requires Aligned(t) && i < 512 && Aligned(u) && j < 512
    ensures Store(m, Slot(t, i), x)(Slot(u, j)) == if t == u && i == j then x else m(Slot(u, j))
  {
    hide Slot, Aligned;
    if Slot(t, i) == Slot(u, j) {
      SlotInjective(t, i, u, j);
    }
  }

  /** The table that `palloc` gives out for the top level starts inside the second-level table. */
  function Inside(root: word): word { P3(root) + 8 }

  lemma InsideFacts(root: word, i: word)
    requires Placed(root) && i < 512
    ensures Inside(root) == Slot(P3(root), 1) && !Aligned(Inside(root))
    ensures Slot(Inside(root), i) == Slot(P3(root), i + 1)
  {
  }

  lemma InsideEntry(root: word)
    requires Placed(root)
    ensures Present(Entry(Inside(root), 0)) && Base(Entry(Inside(root), 0)) == P3(root)
  {
    TablesPlaced(root);
    InsideBits(P3(root));
    hide P3;
  }

  lemma InsideBits(t: word)
    requires Aligned(t) && t <= 0xFFFF_FFFF
    ensures Present(Entry(t + 8, 0)) && Base(Entry(t + 8, 0)) == t
  {
  }

  /** `palloc` returns the second entry of the second-level table: no page. */
  lemma AstrayAlloc(root: word)
    requires Placed(root)
    ensures FirstFree(Boot(root), Pool(root, 0), Scan(0)) == Inside(root) && !Aligned(Inside(root))
  {
    hide Slot, Present, Boot, Pool, P3, P2, Placed, Aligned, Inside, Scan, FirstFree;
    Pools(root);
    Constants(root);
    BootCells(root, 0);
    BootCells(root, 1);
    NextSlot(P3(root), 0);
    InsideFacts(root, 0);
    TwoSteps(Boot(root), P3(root));
  }

  lemma TwoSteps(m: Memory, p: word)
    requires Present(m(p)) && !Present(m(p + 8))
    ensures FirstFree(m, p, Scan(0)) == p + 8
  {
    hide Present;
    assert Scan(0) == Scan(1) + 1;
  }

  function Astray(root: word, v: word): Memory { Store(Boot(root), Slot(root, Index(v, 0)), Entry(Inside(root), 0)) }

  /** The tables after the call: the table for the next level went one entry beside the one that the
      processor will read; behind the last entry lies the first large page. */
  function AstrayDirectory(root: word, v: word): (Memory, word) {
    if Index(v, 1) == 511 then (Astray(root, v), 0)
    else (Store(Astray(root, v), Slot(P3(root), Index(v, 1) + 1), Entry(Spare(root), 0)), Spare(root))
  }

  function AstrayTable(root: word, v: word): Memory {
    var (m, t) := AstrayDirectory(root, v);
    Store(m, Slot(t, Index(v, 2)), Entry(Spares(root), 0))
  }

  lemma AstrayCell(root: word, v: word, t: word, i: word)
    requires Placed(root) && Aligned(t) && i < 512
    ensures Astray(root, v)(Slot(t, i))
         == if t == root && i == Index(v, 0) then Entry(Inside(root), 0) else Boot(root)(Slot(t, i))
  {
    hide Slot, Boot, Index, Entry, Inside, Store;
    StoreSlot(Boot(root), root, Index(v, 0), Entry(Inside(root), 0), t, i);
  }

  lemma AstrayScan(root: word, v: word)
    requires Placed(root)
    ensures FirstFree(Astray(root, v), Pool(root, 1), Scan(0)) == Spare(root)
  {
    hide Slot, Present, Boot, Pool, P3, P2, Spare, Placed, Aligned, Inside, Scan, FirstFree, Astray, Large, Index;
    Pools(root);
    Constants(root);
    Apart(root);
    forall j: word | j < 512
      ensures Present(Astray(root, v)(Slot(P2(root), j)))
    {
      BootCells(root, j);
      AstrayCell(root, v, P2(root), j);
    }
    BootScan(root, Astray(root, v), 0);
    NextSlot(P2(root), 0);
  }

  lemma Absent()
    ensures !Present(0) && Present(0x83) && Pointer(0x83) == 0 && Aligned(0)
  {
  }

  /** What `pmap` meets on its way down. */
  lemma AstrayLevels(root: word, v: word)
    requires Placed(root) && Index(v, 0) != 0
    ensures Level(Boot(root), root, v, 1, 0, Scan(0)) == Stage(Astray(root, v), Inside(root))
    ensures var (m, t) := AstrayDirectory(root, v); Level(Boot(root), root, v, 2, 0, Scan(0)) == Stage(m, t)
  {
    hide Slot, Present, Boot, Pool, P3, P2, Spare, Spares, Placed, Aligned, Inside, Scan, FirstFree, Large, Index, Level,
      Entry, Store, Base, Pointer, AstrayDirectory;
    LevelSteps(Boot(root), root, v, 0, Scan(0));
    Absent();
    BootCells(root, Index(v, 0));
    AstrayAlloc(root);
    AstrayDescent(root, v);
  }

  lemma AstrayDescent(root: word, v: word)
    requires Placed(root) && Index(v, 0) != 0
    ensures var (m, t) := AstrayDirectory(root, v);
      Descend(Astray(root, v), Inside(root), Index(v, 1), Pool(root, 1), 0, Scan(0)) == Stage(m, t)
  {
    hide Slot, Present, Boot, Pool, P3, P2, Spare, Spares, Placed, Aligned, Inside, Scan, FirstFree, Large, Index,
      Entry, Store, Base, Pointer, Astray;
    var i := Index(v, 1);
    Constants(root);
    Apart(root);
    Absent();
    InsideFacts(root, i);
    if i == 511 {
      LastSlots(root);
      AstrayCell(root, v, P2(root), 0);
      BootCells(root, 0);
      FirstLarge();
    } else {
      NextIndex(i);
      AstrayCell(root, v, P3(root), i + 1);
      BootCells(root, i + 1);
      AstrayScan(root, v);
    }
  }

  /** The third table is entered, and the leaf. */
  lemma AstrayPmap(root: word, paddr: word, v: word)
    requires Placed(root) && Index(v, 0) != 0
    ensures Pmap(Boot(root), root, paddr, v, 0, Scan(0)) == SetLeaf(AstrayTable(root, v), Spares(root), paddr, v, 0)
  {
    hide Slot, Present, Boot, Pool, P3, P2, Spare, Spares, Placed, Aligned, Inside, Scan, FirstFree, Large, Index, Level,
      Entry, Store, Base, Pointer, SetLeaf, AstrayDirectory;
    var (m, t) := AstrayDirectory(root, v);
    LevelSteps(Boot(root), root, v, 0, Scan(0));
    Pools(root);
    AstrayLevels(root, v);
    AstrayNext(root, v, Index(v, 2));
    FreeAtOnce(m, Spares(root), Scan(0));
  }

  /** The third table's cell and the pool behind it are empty. */
  lemma AstrayNext(root: word, v: word, i: word)
    requires Placed(root) && Index(v, 0) != 0 && i < 512
    ensures var (m, t) := AstrayDirectory(root, v);
      Aligned(t) && t != root && t != P3(root) && t != Spares(root)
      && !Present(m(Slot(t, i))) && !Present(m(Spares(root)))
  {
    hide Slot, Present, Boot, P3, P2, Spare, Spares, Placed, Aligned, Inside, Large, Index, Entry, Store, Base, Pointer,
      Astray;
    Constants(root);
    Apart(root);
    Absent();
    NotZero(root);
    AstrayRead(root, v, AstrayDirectory(root, v).1, i);
    AstrayRead(root, v, Spares(root), 0);
    NextSlot(Spares(root), 0);
    BootCells(root, i);
    BootCells(root, 0);
    TableCell(root, 0, i);
  }

  /** A cell of a table other than the first two keeps what the boot code stored. */
  lemma AstrayRead(root: word, v: word, t: word, i: word)
    requires Placed(root) && Aligned(t) && t != root && t != P3(root) && i < 512
    ensures AstrayDirectory(root, v).0(Slot(t, i)) == Boot(root)(Slot(t, i))
  {
    hide Slot, Boot, P3, Spare, Placed, Aligned, Inside, Index, Entry, Store, Astray;
    Constants(root);
    AstrayCell(root, v, t, i);
    if Index(v, 1) != 511 {
      NextIndex(Index(v, 1));
      StoreSlot(Astray(root, v), P3(root), Index(v, 1) + 1, Entry(Spare(root), 0), t, i);
    }
  }

  lemma NextIndex(i: word)
    requires i < 512 && i != 511
    ensures i + 1 < 512 && i + 1 != 0 && i + 1 != i
  {
  }

  lemma NotZero(root: word)
    requires Placed(root)
    ensures root != 0 && P3(root) != 0 && P2(root) != 0 && Spares(root) != 0
  {
  }

  /** The cells of the first two tables after the call. */
  lemma AstrayTop(root: word, paddr: word, v: word, i: word)
    requires Placed(root) && Index(v, 0) != 0 && i < 512
    ensures var m' := Pmap(Boot(root), root, paddr, v, 0, Scan(0));
      && m'(Slot(root, i)) == (if i == Index(v, 0) then Entry(Inside(root), 0) else Boot(root)(Slot(root, i)))
      && m'(Slot(P3(root), i))
         == (if Index(v, 1) != 511 && i == Index(v, 1) + 1 then Entry(Spare(root), 0) else Boot(root)(Slot(P3(root), i)))
  {
    hide Slot, Boot, P3, P2, Spare, Spares, Placed, Aligned, Inside, Index, Entry, Store, Astray, Pmap, Pointer;
    Constants(root);
    Apart(root);
    AstrayPmap(root, paddr, v);
    AstrayNext(root, v, 0);
    LateStores(root, paddr, v, root, i);
    LateStores(root, paddr, v, P3(root), i);
    AstrayCell(root, v, root, i);
    AstrayCell(root, v, P3(root), i);
    if Index(v, 1) != 511 {
      NextIndex(Index(v, 1));
      StoreSlot(Astray(root, v), P3(root), Index(v, 1) + 1, Entry(Spare(root), 0), root, i);
      StoreSlot(Astray(root, v), P3(root), Index(v, 1) + 1, Entry(Spare(root), 0), P3(root), i);
    }
  }

  /** The last two stores go elsewhere. */
  lemma LateStores(root: word, paddr: word, v: word, t: word, i: word)
    requires Placed(root) && Index(v, 0) != 0 && Aligned(t) && i < 512 && t != Spares(root)
    requires t != AstrayDirectory(root, v).1
    ensures SetLeaf(AstrayTable(root, v), Spares(root), paddr, v, 0)(Slot(t, i)) == AstrayDirectory(root, v).0(Slot(t, i))
  {
    hide Slot, Boot, P3, Spare, Spares, Placed, Aligned, Inside, Index, Entry, Store, Pointer, AstrayDirectory;
    var (m, d) := AstrayDirectory(root, v);
    Constants(root);
    AstrayNext(root, v, 0);
    StoreSlot(m, d, Index(v, 2), Entry(Spares(root), 0), t, i);
    StoreSlot(AstrayTable(root, v), Spares(root), Index(v, 3), Entry(Pointer(paddr), 0), t, i);
  }

  /** From 512 GB up the page is not mapped: the processor reads the entry before the one that was
      filled in. In the first gigabyte of such a 512 GB it finds the boot code's large pages. */
  lemma BootAstray(root: word, paddr: word, v: word)
    requires Placed(root) && Index(v, 0) != 0
    ensures Walk(Pmap(Boot(root), root, paddr, v, 0, Scan(0)), root, v)
         == if Index(v, 1) == 0 then Some(Low(v)) else None
  {
    hide Slot, Boot, P3, P2, Spare, Spares, Placed, Aligned, Inside, Index, Entry, Store, Pmap, Pointer, Present, Large,
      Base, WalkFrom, Physical, Low;
    var m', i := Pmap(Boot(root), root, paddr, v, 0, Scan(0)), Index(v, 1);
    Constants(root);
    Apart(root);
    Absent();
    AstrayTop(root, paddr, v, Index(v, 0));
    AstrayTop(root, paddr, v, i);
    InsideEntry(root);
    WalkStep(m', root, v, 0);
    WalkStep(m', P3(root), v, 1);
    BootCells(root, i);
    if i != 511 {
      NextIndex(i);
    }
    if i == 0 {
      WalkStep(m', P2(root), v, 2);
      AstrayPmap(root, paddr, v);
      AstrayNext(root, v, 0);
      AstrayApart(root, v);
      LateStores(root, paddr, v, P2(root), Index(v, 2));
      AstrayRead(root, v, P2(root), Index(v, 2));
      BootCells(root, Index(v, 2));
      Identity(v);
    }
  }

  lemma AstrayApart(root: word, v: word)
    requires Placed(root) && Index(v, 1) != 511
    ensures P2(root) != AstrayDirectory(root, v).1
  {
    Apart(root);
    hide P3, P2, Spare, Astray, Placed, Store, Slot, Index, Entry;
  }

  lemma Identity(v: word)
    ensures Index(v, 1) == 0 ==> Physical((Index(v, 2) << 21) | 0x83, v, 2) == Low(v)
  {
  }

  /** The page that gets the mapping instead lies a gigabyte further on, in the 512 GB of the request and
      in the first 512 GB. */
  lemma BootLands(root: word, paddr: word, v: word, w: word)
    requires Placed(root) && Index(v, 0) != 0 && Index(v, 1) != 511
    requires (Index(w, 0) == 0 || Index(w, 0) == Index(v, 0)) && Index(w, 1) == Index(v, 1) + 1
    requires Index(w, 2) == Index(v, 2) && Index(w, 3) == Index(v, 3)
    ensures Walk(Pmap(Boot(root), root, paddr, v, 0, Scan(0)), root, w) == Some(Framed(paddr, w))
  {
    hide Slot, Boot, P3, P2, Spare, Spares, Placed, Aligned, Inside, Index, Entry, Store, Pmap, Pointer, Present, Large,
      Base, WalkFrom, Physical, Framed;
    var m' := Pmap(Boot(root), root, paddr, v, 0, Scan(0));
    Constants(root);
    Pools(root);
    NextIndex(Index(v, 1));
    AstrayTop(root, paddr, v, Index(w, 0));
    AstrayTop(root, paddr, v, Index(w, 1));
    AstrayLow(root, paddr, v);
    BootCells(root, 0);
    InsideEntry(root);
    TableEntry(Spare(root), 0);
    TableEntry(Spares(root), 0);
    LeafPhysical(paddr, w);
    WalkStep(m', root, w, 0);
    WalkStep(m', P3(root), w, 1);
    WalkStep(m', Spare(root), w, 2);
    WalkStep(m', Spares(root), w, 3);
  }

  lemma LeafPhysical(paddr: word, w: word)
    ensures Present(Entry(Pointer(paddr), 0)) && Physical(Entry(Pointer(paddr), 0), w, 3) == Framed(paddr, w)
  {
    LeafEntry(paddr, 0);
    hide Present, Base, Entry;
  }

  /** The cells of the two tables that were filled in below. */
  lemma AstrayLow(root: word, paddr: word, v: word)
    requires Placed(root) && Index(v, 0) != 0 && Index(v, 1) != 511
    ensures var m' := Pmap(Boot(root), root, paddr, v, 0, Scan(0));
      && m'(Slot(Spare(root), Index(v, 2))) == Entry(Spares(root), 0)
      && m'(Slot(Spares(root), Index(v, 3))) == Entry(Pointer(paddr), 0)
  {
    hide Slot, Boot, P3, P2, Spare, Spares, Placed, Aligned, Inside, Index, Entry, Store, Astray, Pmap, Pointer;
    var (m, t) := AstrayDirectory(root, v);
    Constants(root);
    Apart(root);
    AstrayPmap(root, paddr, v);
    StoreSlot(m, t, Index(v, 2), Entry(Spares(root), 0), Spare(root), Index(v, 2));
    StoreSlot(AstrayTable(root, v), Spares(root), Index(v, 3), Entry(Pointer(paddr), 0), Spare(root), Index(v, 2));
    StoreSlot(AstrayTable(root, v), Spares(root), Index(v, 3), Entry(Pointer(paddr), 0), Spares(root), Index(v, 3));
  }

  /** The address that a mapping to the frame of `paddr` gives, and the one that the boot code's large
      pages give. */
  function Framed(paddr: word, v: word): word { (paddr & ADDR) | (v & 0xFFF) }
  function Low(v: word): word { v & 0x3FFF_FFFF }

  predicate SameFrame(paddr: word, v: word) { paddr & ADDR == v & 0x3FFF_F000 }

  lemma SameFrameIff(paddr: word, v: word)
    ensures Framed(paddr, v) == Low(v) <==> SameFrame(paddr, v)
  {
    if Framed(paddr, v) == Low(v) {
      FrameBits(paddr & ADDR, v & 0xFFF);
      LowBits(v);
    }
    LowSplits(v);
  }

  lemma FrameBits(a: word, b: word)
    requires b <= 0xFFF
    ensures (a | b) & FRAME == a & FRAME
  {
  }

  lemma LowBits(v: word)
    ensures Low(v) & FRAME == v & 0x3FFF_F000
  {
  }

  lemma LowSplits(v: word)
    ensures Low(v) == (v & 0x3FFF_F000) | (v & 0xFFF)
  {
  }

  // The first gigabyte, which the boot code maps in 2-MB pages.

  /** Where the large page of an index starts; `pmap` takes it for a table. */
  function LargeBase(i: word): word { i << 21 }

  lemma LargePointer(i: word)
    requires i < 512
    ensures Pointer((i << 21) | 0x83) == LargeBase(i) && Aligned(LargeBase(i))
  {
  }

  /** What `pmap` finds in the entries that are there. */
  lemma Followed(root: word, i: word)
    requires Placed(root) && i < 512
    ensures Present(Boot(root)(Slot(root, 0))) && Pointer(Boot(root)(Slot(root, 0))) == P3(root)
    ensures Present(Boot(root)(Slot(P3(root), 0))) && Pointer(Boot(root)(Slot(P3(root), 0))) == P2(root)
    ensures Present(Boot(root)(Slot(P2(root), i))) && Pointer(Boot(root)(Slot(P2(root), i))) == LargeBase(i)
  {
    hide Slot, Present, Large, Base, Boot, Pointer, P3, P2, Spare, Spares, Placed, LargeBase;
    Constants(root);
    BootCells(root, 0);
    BootCells(root, i);
    LargePointer(i);
  }

  /** `pmap` stores one word, in the large page. */
  lemma BootLarge(root: word, paddr: word, v: word)
    requires Placed(root) && Index(v, 0) == 0 && Index(v, 1) == 0
    ensures Pmap(Boot(root), root, paddr, v, 0, Scan(0))
         == Store(Boot(root), Slot(LargeBase(Index(v, 2)), Index(v, 3)), Entry(Pointer(paddr), 0))
  {
    hide Index, Slot, Present, Boot, Pointer, Scan, Pool, Entry, Store, FirstFree, Level, P3, P2, Placed, LargeBase;
    LevelSteps(Boot(root), root, v, 0, Scan(0));
    Followed(root, Index(v, 2));
    assert Level(Boot(root), root, v, 1, 0, Scan(0)) == Stage(Boot(root), P3(root));
    assert Level(Boot(root), root, v, 2, 0, Scan(0)) == Stage(Boot(root), P2(root));
    assert Level(Boot(root), root, v, 3, 0, Scan(0)) == Stage(Boot(root), LargeBase(Index(v, 2)));
  }

  /** The walk of `w` through the boot tables reads entry `i` of table `t`. */
  predicate Reads(root: word, w: word, t: word, i: word) {
    || (t == root && Index(w, 0) == i)
    || (t == P3(root) && Index(w, 0) == 0 && Index(w, 1) == i)
    || (t == P2(root) && Index(w, 0) == 0 && Index(w, 1) == 0 && Index(w, 2) == i)
  }

  lemma BootAvoids(root: word, w: word, t: word, i: word)
    requires Placed(root) && Aligned(t) && i < 512 && !Reads(root, w, t, i)
    ensures Avoids(Boot(root), root, w, Slot(t, i))
  {
    hide Index, Slot, Boot, P3, P2, Spare, Spares, Placed, Aligned, Table;
    Constants(root);
    forall k | 0 <= k < 4 && Table(Boot(root), root, w, k).Some?
      ensures Slot(Table(Boot(root), root, w, k).value, Index(w, k)) != Slot(t, i)
    {
      BootTable(root, w, k);
      var u := Table(Boot(root), root, w, k).value;
      if Slot(u, Index(w, k)) == Slot(t, i) {
        SlotInjective(u, Index(w, k), t, i);
      }
    }
  }

  /** So every address whose walk does not read that word is translated as before: all addresses, unless
      one of the three tables in use starts where the large page does. */
  lemma BootStays(root: word, paddr: word, v: word, w: word)
    requires Placed(root) && Index(v, 0) == 0 && Index(v, 1) == 0
    requires !Reads(root, w, LargeBase(Index(v, 2)), Index(v, 3))
    ensures Walk(Pmap(Boot(root), root, paddr, v, 0, Scan(0)), root, w) == Walk(Boot(root), root, w)
  {
    hide Index, Slot, Boot, P3, P2, Placed, Aligned, Table, Pmap, Store, Entry, Pointer, LargeBase, WalkFrom, Reads, Avoids;
    var t, i := LargeBase(Index(v, 2)), Index(v, 3);
    BootLarge(root, paddr, v);
    LargePointer(Index(v, 2));
    BootAvoids(root, w, t, i);
    RootTable(Boot(root), root, w);
    WalkAvoided(Boot(root), root, w, Slot(t, i), Entry(Pointer(paddr), 0), root, 0);
  }

  /** The boot code's translation: the first gigabyte to itself. */
  lemma BootIdentity(root: word, w: word)
    requires Placed(root)
    ensures Walk(Boot(root), root, w) == if Index(w, 0) == 0 && Index(w, 1) == 0 then Some(Low(w)) else None
  {
    hide Index, Slot, Boot, P3, P2, Spare, Spares, Placed, Aligned, Present, Large, Base, WalkFrom, Physical, Low;
    Constants(root);
    Absent();
    WalkStep(Boot(root), root, w, 0);
    WalkStep(Boot(root), P3(root), w, 1);
    WalkStep(Boot(root), P2(root), w, 2);
    BootCells(root, Index(w, 0));
    BootCells(root, Index(w, 1));
    BootCells(root, Index(w, 2));
    Identity(w);
  }

  /** An address whose walk does read it is walked on through the frame, taken for a table of the next
      level. */
  lemma BootOverwritten(root: word, paddr: word, v: word, w: word)
    requires Placed(root) && Index(v, 0) == 0 && Index(v, 1) == 0
    requires Reads(root, w, LargeBase(Index(v, 2)), Index(v, 3))
    ensures var (m', t) := (Pmap(Boot(root), root, paddr, v, 0, Scan(0)), LargeBase(Index(v, 2)));
      && m'(Slot(t, Index(v, 3))) == Entry(Pointer(paddr), 0)
      && Walk(m', root, w) == WalkFrom(m', paddr & ADDR, w, if t == root then 1 else if t == P3(root) then 2 else 3)
  {
    hide Index, Slot, Boot, P3, P2, Spare, Spares, Placed, Aligned, Store, Entry, Pointer, LargeBase, Pmap, WalkFrom;
    var t, i := LargeBase(Index(v, 2)), Index(v, 3);
    TablesPlaced(root);
    Apart(root);
    BootLarge(root, paddr, v);
    LargePointer(Index(v, 2));
    StoreSlot(Boot(root), t, i, Entry(Pointer(paddr), 0), t, i);
    if t == root {
      TopHit(root, paddr, w, i);
    } else {
      LowerHit(root, paddr, w, t, i);
    }
  }

  lemma TopHit(root: word, paddr: word, w: word, i: word)
    requires Placed(root) && i < 512 && Index(w, 0) == i
    ensures var m' := Store(Boot(root), Slot(root, i), Entry(Pointer(paddr), 0));
      Walk(m', root, w) == WalkFrom(m', paddr & ADDR, w, 1)
  {
    hide Index, Slot, Boot, Aligned, Placed, Store, Entry, Pointer, WalkFrom, Present, Large, Base;
    TablesPlaced(root);
    FrameEntry(paddr);
    StoreSlot(Boot(root), root, i, Entry(Pointer(paddr), 0), root, i);
    WalkStep(Store(Boot(root), Slot(root, i), Entry(Pointer(paddr), 0)), root, w, 0);
  }

  lemma LowerHit(root: word, paddr: word, w: word, t: word, i: word)
    requires Placed(root) && i < 512 && t in {P3(root), P2(root)} && Reads(root, w, t, i) && t != root
    ensures var m' := Store(Boot(root), Slot(t, i), Entry(Pointer(paddr), 0));
      Walk(m', root, w) == WalkFrom(m', paddr & ADDR, w, if t == P3(root) then 2 else 3)
  {
    hide Index, Slot, Boot, P3, P2, Spare, Spares, Placed, Aligned, Present, Large, Base, WalkFrom, Store, Entry, Pointer;
    var x := Entry(Pointer(paddr), 0);
    var m' := Store(Boot(root), Slot(t, i), x);
    TablesPlaced(root);
    Apart(root);
    FrameEntry(paddr);
    BootLinks(root);
    StoreSlot(Boot(root), t, i, x, root, 0);
    StoreSlot(Boot(root), t, i, x, t, i);
    WalkStep(m', root, w, 0);
    WalkStep(m', P3(root), w, 1);
    if t == P2(root) {
      StoreSlot(Boot(root), t, i, x, P3(root), 0);
      WalkStep(m', P2(root), w, 2);
    }
  }

  lemma BootLinks(root: word)
    requires Placed(root)
    ensures var (e, f) := (Boot(root)(Slot(root, 0)), Boot(root)(Slot(P3(root), 0)));
      Present(e) && Base(e) == P3(root) && Present(f) && !Large(f) && Base(f) == P2(root)
  {
    hide Slot, Present, Large, Base, Boot, Pointer, P3, P2, Spare, Spares, Placed;
    Constants(root);
    BootCells(root, 0);
  }

  lemma FrameEntry(paddr: word)
    ensures var e := Entry(Pointer(paddr), 0); Present(e) && !Large(e) && Base(e) == paddr & ADDR
  {
  }

  /** The word stored is one that the walk of the page itself reads. */
  predicate Hits(root: word, v: word) {
    Index(v, 0) == 0 && Index(v, 1) == 0 && Reads(root, v, LargeBase(Index(v, 2)), Index(v, 3))
  }

  /** The exact condition: a page that is not hit (BootOverwritten) is mapped to the frame when it lies
      above the first gigabyte and below 512 GB. In the first gigabyte, of the 512 GB of any address, it
      keeps the frame of the boot code's large page, so it is mapped only when that is the frame; all other
      pages are not mapped. */
  lemma BootMapsIff(root: word, paddr: word, v: word)
    requires Placed(root) && !Hits(root, v)
    ensures Walk(Pmap(Boot(root), root, paddr, v, 0, Scan(0)), root, v) == Some(Framed(paddr, v))
       <==> if Index(v, 1) == 0 then SameFrame(paddr, v) else Index(v, 0) == 0
  {
    hide Boot, Placed, Index, Pmap, Walk, Page, Framed, Low, SameFrame, Reads;
    SameFrameIff(paddr, v);
    if Index(v, 0) != 0 {
      BootAstray(root, paddr, v);
    } else if Index(v, 1) != 0 {
      BootMaps(root, paddr, v, v);
    } else {
      BootStays(root, paddr, v, v);
      BootIdentity(root, v);
    }
  }

  /** A page can be hit only when a table in use starts at a 2-MB boundary. */
  lemma HitsAligned(root: word, v: word)
    requires Hits(root, v)
    ensures LargeBase(Index(v, 2)) in {root, P3(root), P2(root)}
  {
  }

  /** The distance at which the program loader maps. */
  const TWO_GB: word := 0x8000_0000

  /** The program loader asks for frames two gigabytes further on. For pages of the first gigabyte it never
      gets them. */
  lemma LoaderMisses(root: word, v: word)
    requires Placed(root) && v < 0x4000_0000 && !Hits(root, v)
    ensures Walk(Pmap(Boot(root), root, v + TWO_GB, v, 0, Scan(0)), root, v) == Some(v) != Some(Framed(v + TWO_GB, v))
  {
    hide Boot, Placed, Index, Pmap, Walk, Framed, Low, Reads;
    LowAddress(v);
    BootStays(root, v + TWO_GB, v, v);
    BootIdentity(root, v);
    SameFrameIff(v + TWO_GB, v);
    FarFrame(v);
  }

  lemma LowAddress(v: word)
    requires v < 0x4000_0000
    ensures Index(v, 0) == 0 && Index(v, 1) == 0 && Low(v) == v
  {
  }

  lemma FarFrame(v: word)
    requires v < 0x4000_0000
    ensures !SameFrame(v + TWO_GB, v)
  {
  }

  /** The input: with the top table at 2 MB, mapping the page at 2 MB overwrites the top table's entry 0. */
  lemma TopOverwritten(paddr: word)
    ensures var (root, v) := (0x20_0000, 0x20_0000);
      && Placed(root) && Hits(root, v)
      && Pmap(Boot(root), root, paddr, v, 0, Scan(0))(Slot(root, 0)) == Entry(Pointer(paddr), 0)
  {
    TwoMegabytes();
    hide Boot, Placed, Index, Pmap, Reads, Scan, LargeBase, Slot, Entry, Pointer;
    BootOverwritten(0x20_0000, paddr, 0x20_0000, 0x20_0000);
  }

  lemma TwoMegabytes()
    ensures var (root, v) := (0x20_0000, 0x20_0000);
      && Placed(root) && Hits(root, v) && Index(v, 0) == 0 && Index(v, 1) == 0
      && LargeBase(Index(v, 2)) == root && Index(v, 3) == 0
  {
  }

  lemma FirstLarge()
    ensures (0 as word << 21) | 0x83 == 0x83
  {
  }

  lemma LastSlots(root: word)
    ensures Slot(P3(root), 512) == Slot(P2(root), 0)
  {
  }
}
