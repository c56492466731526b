/** Bitmap allocation with its three copies of the free count, and the relation between volume
    states that every driver call is proved to respect. */
module Alloc {
  import opened Bytes
  import opened Bitmaps
  import opened Arith
  import opened Volume

  /** Not a superblock, descriptor, bitmap or inode table block, and inside the volume. */
  predicate IsData(g: Geometry, p: nat)
    requires |g.bb| == |g.ib| == |g.it|
  {
    && 2 <= p < g.blocks
    && forall k :: 0 <= k < |g.bb| ==> p != g.bb[k] && p != g.ib[k] && !g.InTable(k, p)
  }

  function BlockGroup(g: Geometry, p: nat): (k: nat)
    requires Sane(g) && p < Mul(|g.bb|, g.bpg)
    ensures k < |g.bb|
  {
    DivBelow(p, |g.bb|, g.bpg);
    Div(p, g.bpg)
  }

  predicate BlockUsed(g: Geometry, disk: seq<Block>, p: nat)
    requires Shaped(g, disk) && p < Mul(|g.bb|, g.bpg)
  {
    assert GroupOk(g, BlockGroup(g, p));
    Bit(disk[g.bb[BlockGroup(g, p)]], Mod(p, g.bpg))
  }

  predicate InodeUsed(g: Geometry, disk: seq<Block>, n: nat)
    requires Shaped(g, disk) && ValidIno(g, n)
  {
    assert GroupOk(g, InoGroup(g, n));
    Bit(disk[g.ib[InoGroup(g, n)]], Mod(n - 1, g.ipg))
  }

  /** Every block that is metadata, or past the end of the volume, is marked used. */
  ghost predicate Marked(fs: Fs)
    requires Mounted(fs)
  {
    var g := fs.g;
    forall p: nat :: p < Mul(|g.bb|, g.bpg) && !IsData(g, p) ==> BlockUsed(g, fs.disk, p)
  }

  function SumFreeBlocks(t: Block, n: nat): nat
    requires n <= MAX_GROUPS
  {
    if n == 0 then 0 else SumFreeBlocks(t, n - 1) + GroupFreeBlocks(t, n - 1)
  }

  function SumFreeInodes(t: Block, n: nat): nat
    requires n <= MAX_GROUPS
  {
    if n == 0 then 0 else SumFreeInodes(t, n - 1) + GroupFreeInodes(t, n - 1)
  }

  ghost predicate GroupCounted(g: Geometry, disk: seq<Block>, t: Block, k: nat)
    requires Shaped(g, disk) && k < |g.bb|
  {
    assert GroupOk(g, k);
    && GroupFreeBlocks(t, k) == CountClear(disk[g.bb[k]], g.bpg)
    && GroupFreeInodes(t, k) == CountClear(disk[g.ib[k]], g.ipg)
  }

  /** Conservation: each group's free counts are the numbers of clear bits in its bitmaps, and the
      superblock's counts are the sums over the groups. */
  ghost predicate CountsMatch(g: Geometry, disk: seq<Block>, sb: SbImage, t: Block)
    requires Shaped(g, disk)
  {
    && (forall k :: 0 <= k < |g.bb| ==> GroupCounted(g, disk, t, k))
    && FreeBlocks(sb) == SumFreeBlocks(t, |g.bb|)
    && FreeInodes(sb) == SumFreeInodes(t, |g.bb|)
  }

  ghost predicate Counted(fs: Fs)
    requires Mounted(fs)
  {
    CountsMatch(fs.g, fs.disk, fs.sb, fs.bgdt)
  }

  ghost predicate Good(fs: Fs) {
    Mounted(fs) && Marked(fs) && Counted(fs)
  }

  /** `b` is a good state reached from the good state `a` without changing the layout, without
      clearing a bitmap bit, and without touching a data block outside `D` or an inode outside `I`. */
  ghost predicate Touches(a: Fs, b: Fs, D: set<nat>, I: set<nat>) {
    && Good(a) && Good(b) && b.g == a.g && |b.disk| == |a.disk|
    && (forall p: nat :: p < |a.disk| && IsData(a.g, p) && p !in D ==> b.disk[p] == a.disk[p])
    && (forall n: nat :: ValidIno(a.g, n) && n !in I
          ==> InodeAt(a.g, b.disk, n) == InodeAt(a.g, a.disk, n))
    && (forall p: nat :: p < Mul(|a.g.bb|, a.g.bpg) && BlockUsed(a.g, a.disk, p)
          ==> BlockUsed(a.g, b.disk, p))
    && (forall n: nat :: ValidIno(a.g, n) && InodeUsed(a.g, a.disk, n)
          ==> InodeUsed(a.g, b.disk, n))
  }

  lemma TouchesTrans(a: Fs, b: Fs, c: Fs, D1: set<nat>, I1: set<nat>, D2: set<nat>, I2: set<nat>)
    requires Touches(a, b, D1, I1) && Touches(b, c, D2, I2)
    ensures Touches(a, c, D1 + D2, I1 + I2)
  {
    hide Good, IsData, InodeAt, BlockUsed, InodeUsed, ValidIno, Mul;
  }

  lemma TouchesWiden(a: Fs, b: Fs, D1: set<nat>, I1: set<nat>, D2: set<nat>, I2: set<nat>)
    requires Touches(a, b, D1, I1) && D1 <= D2 && I1 <= I2
    ensures Touches(a, b, D2, I2)
  {
    hide Good, IsData, InodeAt, BlockUsed, InodeUsed, ValidIno, Mul;
  }

  /** Write the descriptor table and then the superblock back to the disk. */
  function Commit(disk: seq<Block>, sb: SbImage, bgdt: Block): (r: seq<Block>)
    requires 2 <= |disk|
    ensures |r| == |disk|
  {
    var d := disk[1 := bgdt];
    d[0 := Splice(d[0], SB_OFFSET, sb)]
  }

  function Dec16(v: nat): nat { (v + 0xFFFF) % 0x1_0000 }

  function Dec32(v: nat): nat { (v + 0xFFFF_FFFF) % 0x1_0000_0000 }

  /** The state after marking bit `i` of group `k`'s block bitmap. */
  function TakeBlock(fs: Fs, k: nat, i: nat): Fs
    requires Mounted(fs) && k < |fs.g.bb| && i < 32768
  {
    assert GroupOk(fs.g, k);
    var bb := fs.g.bb[k];
    var t := PutU16(fs.bgdt, 32 * k + 12, Dec16(GroupFreeBlocks(fs.bgdt, k)));
    var s := PutU32(fs.sb, 12, Dec32(FreeBlocks(fs.sb)));
    Fs(fs.g, Commit(fs.disk[bb := SetBit(fs.disk[bb], i)], s, t), s, t)
  }

  function TakeInode(fs: Fs, k: nat, i: nat): Fs
    requires Mounted(fs) && k < |fs.g.bb| && i < 32768
  {
    assert GroupOk(fs.g, k);
    var ib := fs.g.ib[k];
    var t := PutU16(fs.bgdt, 32 * k + 14, Dec16(GroupFreeInodes(fs.bgdt, k)));
    var s := PutU32(fs.sb, 16, Dec32(FreeInodes(fs.sb)));
    Fs(fs.g, Commit(fs.disk[ib := SetBit(fs.disk[ib], i)], s, t), s, t)
  }

  function BlockNumber(g: Geometry, k: nat, i: nat): nat { Mul(k, g.bpg) + i }

  function InodeNumber(g: Geometry, k: nat, i: nat): nat { Mul(k, g.ipg) + i + 1 }

  /** `ext2_free_block_alloc`: the state afterwards and the block number, or 0. */
  function AllocBlock(fs: Fs, k: nat): (r: (Fs, nat))
    requires Mounted(fs) && k < |fs.g.bb|
  {
    var g := fs.g;
    assert GroupOk(g, k);
    var i := LowestClear(fs.disk[g.bb[k]], g.ipg);
    if i == g.ipg then (fs, 0) else (TakeBlock(fs, k, i), BlockNumber(g, k, i))
  }

  /** `ext2_free_inode_alloc`: the state afterwards and the inode number, or 0. */
  function AllocInode(fs: Fs, k: nat): (r: (Fs, nat))
    requires Mounted(fs) && k < |fs.g.bb|
  {
    var g := fs.g;
    assert GroupOk(g, k);
    var i := LowestClear(fs.disk[g.ib[k]], g.ipg);
    if i == g.ipg then (fs, 0) else (TakeInode(fs, k, i), InodeNumber(g, k, i))
  }

  /** A count stored in a descriptor does not move any region. */
  lemma CountKeepsRegions(t: Block, k: nat, o: nat, v: nat, j: nat)
    requires k < MAX_GROUPS && j < MAX_GROUPS && 12 <= o <= 14
    ensures var u := PutU16(t, 32 * k + o, v);
      && GroupBlockBitmap(u, j) == GroupBlockBitmap(t, j)
      && GroupInodeBitmap(u, j) == GroupInodeBitmap(t, j)
      && GroupInodeTable(u, j) == GroupInodeTable(t, j)
  {
  }

  lemma CountKeepsSb(s: SbImage, o: nat, v: nat)
    requires o == 12 || o == 16
    ensures var r := PutU32(s, o, v);
      && BlocksCount(r) == BlocksCount(s) && BlocksPerGroup(r) == BlocksPerGroup(s)
      && InodesPerGroup(r) == InodesPerGroup(s) && InodeSize(r) == InodeSize(s)
      && U32(r, 24) == U32(s, 24)
  {
  }

  lemma CountsKeepGeometry(g: Geometry, sb: SbImage, t: Block, k: nat, o: nat, v: nat, so: nat, w: nat)
    requires Describes(g, sb, t)
    requires k < MAX_GROUPS && 12 <= o <= 14 && (so == 12 || so == 16)
    ensures Describes(g, PutU32(sb, so, w), PutU16(t, 32 * k + o, v))
  {
    CountKeepsSb(sb, so, w);
    var u := PutU16(t, 32 * k + o, v);
    forall j | 0 <= j < |g.bb|
      ensures DescribesGroup(g, u, j)
    {
      assert DescribesGroup(g, t, j);
      CountKeepsRegions(t, k, o, v, j);
    }
  }

  /** Writing the table and the superblock back re-establishes agreement with memory. */
  lemma CommitMounts(g: Geometry, disk: seq<Block>, s: SbImage, t: Block)
    requires Shaped(g, disk) && 2 <= |disk| && Describes(g, s, t)
    ensures Mounted(Fs(g, Commit(disk, s, t), s, t))
  {
    hide Describes, Sane;
    SpliceHit(disk[0], SB_OFFSET, s);
  }

  lemma TakeBlockMounted(fs: Fs, k: nat, i: nat)
    requires Mounted(fs) && k < |fs.g.bb| && i < 32768
    ensures Mounted(TakeBlock(fs, k, i))
  {
    var r := TakeBlock(fs, k, i);
    CountsKeepGeometry(fs.g, fs.sb, fs.bgdt, k, 12, Dec16(GroupFreeBlocks(fs.bgdt, k)), 12, Dec32(FreeBlocks(fs.sb)));
    assert GroupOk(fs.g, k);
    var bb := fs.g.bb[k];
    CommitMounts(fs.g, fs.disk[bb := SetBit(fs.disk[bb], i)], r.sb, r.bgdt);
  }

  lemma TakeInodeMounted(fs: Fs, k: nat, i: nat)
    requires Mounted(fs) && k < |fs.g.bb| && i < 32768
    ensures Mounted(TakeInode(fs, k, i))
  {
    var r := TakeInode(fs, k, i);
    CountsKeepGeometry(fs.g, fs.sb, fs.bgdt, k, 14, Dec16(GroupFreeInodes(fs.bgdt, k)), 16, Dec32(FreeInodes(fs.sb)));
    assert GroupOk(fs.g, k);
    var ib := fs.g.ib[k];
    CommitMounts(fs.g, fs.disk[ib := SetBit(fs.disk[ib], i)], r.sb, r.bgdt);
  }

  lemma OtherCountsStay(t: Block, k: nat, o: nat, v: nat, l: nat)
    requires k < MAX_GROUPS && l < MAX_GROUPS && (o == 12 || o == 14)
    ensures var u := PutU16(t, 32 * k + o, v);
      && (l != k || o == 14 ==> GroupFreeBlocks(u, l) == GroupFreeBlocks(t, l))
      && (l != k || o == 12 ==> GroupFreeInodes(u, l) == GroupFreeInodes(t, l))
  {
  }

  /** A positive free-block count of one group drops by one and all other counts stay. */
  lemma {:induction false} TakeBlockSums(t: Block, k: nat, n: nat)
    requires n <= MAX_GROUPS && k < MAX_GROUPS && GroupFreeBlocks(t, k) > 0
    ensures var u := PutU16(t, 32 * k + 12, Dec16(GroupFreeBlocks(t, k)));
      && SumFreeBlocks(u, n) == SumFreeBlocks(t, n) - (if k < n then 1 else 0)
      && SumFreeInodes(u, n) == SumFreeInodes(t, n)
      && (k < n ==> SumFreeBlocks(t, n) > 0)
  {
    hide PutU16, U16;
    if n > 0 {
      TakeBlockSums(t, k, n - 1);
      OtherCountsStay(t, k, 12, Dec16(GroupFreeBlocks(t, k)), n - 1);
      PutGet16(t, 32 * k + 12, Dec16(GroupFreeBlocks(t, k)));
    }
  }

  lemma {:induction false} TakeInodeSums(t: Block, k: nat, n: nat)
    requires n <= MAX_GROUPS && k < MAX_GROUPS && GroupFreeInodes(t, k) > 0
    ensures var u := PutU16(t, 32 * k + 14, Dec16(GroupFreeInodes(t, k)));
      && SumFreeInodes(u, n) == SumFreeInodes(t, n) - (if k < n then 1 else 0)
      && SumFreeBlocks(u, n) == SumFreeBlocks(t, n)
      && (k < n ==> SumFreeInodes(t, n) > 0)
  {
    hide PutU16, U16;
    if n > 0 {
      TakeInodeSums(t, k, n - 1);
      OtherCountsStay(t, k, 14, Dec16(GroupFreeInodes(t, k)), n - 1);
      PutGet16(t, 32 * k + 14, Dec16(GroupFreeInodes(t, k)));
    }
  }

  /** An inode table block is neither a bitmap of any group nor one of the first two blocks. */
  lemma TableIsNotBitmap(g: Geometry, n: nat, l: nat)
    requires Sane(g) && ValidIno(g, n) && l < |g.bb|
    ensures 2 <= InodeBlock(g, n) && InodeBlock(g, n) != g.bb[l] && InodeBlock(g, n) != g.ib[l]
  {
    InodeBlockInTable(g, n);
    var k := InoGroup(g, n);
    assert GroupOk(g, k);
    if k != l {
      assert GroupsApart(g, l, k);
    }
  }

  /** Block `m` had bit `i` set; apart from it only blocks 0 and 1 may differ. */
  ghost predicate BitStep(a: seq<Block>, b: seq<Block>, m: nat, i: nat) {
    && |a| == |b| && 2 <= m < |a| && i < 32768
    && b[m] == SetBit(a[m], i)
    && forall p :: 2 <= p < |a| && p != m ==> b[p] == a[p]
  }

  lemma CommitStep(disk: seq<Block>, m: nat, i: nat, s: SbImage, t: Block)
    requires 2 <= m < |disk| && i < 32768
    ensures BitStep(disk, Commit(disk[m := SetBit(disk[m], i)], s, t), m, i)
  {
  }

  /** The bitmaps of the volume: `kind` selects the block or the inode bitmap of a group. */
  function BitmapOf(g: Geometry, kind: bool, k: nat): nat
    requires |g.bb| == |g.ib| && k < |g.bb|
  {
    if kind then g.bb[k] else g.ib[k]
  }

  /** Setting a bit in one bitmap changes no other bitmap. */
  lemma StepKeepsBitmaps(g: Geometry, a: seq<Block>, b: seq<Block>, kind: bool, k: nat, i: nat, kind': bool, l: nat)
    requires Shaped(g, a) && k < |g.bb| && l < |g.bb| && BitStep(a, b, BitmapOf(g, kind, k), i)
    requires kind != kind' || k != l
    ensures BitmapOf(g, kind', l) < |a| && b[BitmapOf(g, kind', l)] == a[BitmapOf(g, kind', l)]
  {
    assert GroupOk(g, k) && GroupOk(g, l);
    if l != k {
      assert GroupsApart(g, k, l);
      assert GroupsApart(g, l, k);
    }
  }

  lemma StepKeepsInodes(g: Geometry, a: seq<Block>, b: seq<Block>, kind: bool, k: nat, i: nat, n: nat)
    requires Shaped(g, a) && k < |g.bb| && BitStep(a, b, BitmapOf(g, kind, k), i)
    requires ValidIno(g, n)
    ensures InodeAt(g, b, n) == InodeAt(g, a, n)
  {
    TableIsNotBitmap(g, n, k);
    InodeBlockInTable(g, n);
  }

  lemma StepBlockBit(g: Geometry, a: seq<Block>, b: seq<Block>, kind: bool, k: nat, i: nat, p: nat)
    requires Shaped(g, a) && |b| == |a| && k < |g.bb| && BitStep(a, b, BitmapOf(g, kind, k), i)
    requires p < Mul(|g.bb|, g.bpg) && (kind ==> i < g.bpg)
    ensures BlockUsed(g, b, p) <==> (kind && p == BlockNumber(g, k, i)) || BlockUsed(g, a, p)
  {
    var l := BlockGroup(g, p);
    if kind && l == k {
      DivModUnique(k, i, g.bpg);
      SetBitBits(a[g.bb[k]], i, Mod(p, g.bpg));
      if Mod(p, g.bpg) == i {
        SameDivMod(p, BlockNumber(g, k, i), g.bpg);
      }
    } else {
      if kind {
        DivModUnique(k, i, g.bpg);
      }
      StepKeepsBitmaps(g, a, b, kind, k, i, true, l);
    }
  }

  lemma StepInodeBit(g: Geometry, a: seq<Block>, b: seq<Block>, kind: bool, k: nat, i: nat, n: nat)
    requires Shaped(g, a) && |b| == |a| && k < |g.bb| && BitStep(a, b, BitmapOf(g, kind, k), i)
    requires ValidIno(g, n) && (!kind ==> i < g.ipg)
    ensures InodeUsed(g, b, n) <==> (!kind && n == InodeNumber(g, k, i)) || InodeUsed(g, a, n)
  {
    var l := InoGroup(g, n);
    if !kind && l == k {
      DivModUnique(k, i, g.ipg);
      SetBitBits(a[g.ib[k]], i, Mod(n - 1, g.ipg));
      if Mod(n - 1, g.ipg) == i {
        SameDivMod(n - 1, Mul(k, g.ipg) + i, g.ipg);
      }
    } else {
      if !kind {
        DivModUnique(k, i, g.ipg);
      }
      StepKeepsBitmaps(g, a, b, kind, k, i, false, l);
    }
  }

  /** A positive count in the superblock goes down by one, and the other count is kept. */
  lemma SbCounts(sb: SbImage, o: nat, p: nat)
    requires {o, p} == {12, 16}
    ensures var r := PutU32(sb, o, Dec32(U32(sb, o)));
      U32(r, p) == U32(sb, p) && (U32(sb, o) > 0 ==> U32(r, o) == U32(sb, o) - 1)
  {
    hide U32, PutU32;
    assert o != p && o in {12, 16} && p in {12, 16};
    var r := PutU32(sb, o, Dec32(U32(sb, o)));
    PutGet32(sb, o, Dec32(U32(sb, o)));
    SameU32(r, sb, p);
  }

  lemma TakeBlockGroup(g: Geometry, a: seq<Block>, b: seq<Block>, t: Block, k: nat, i: nat, l: nat)
    requires Shaped(g, a) && k < |g.bb| && l < |g.bb| && i < g.bpg
    requires GroupCounted(g, a, t, l)
    requires BitStep(a, b, g.bb[k], i) && !Bit(a[g.bb[k]], i)
    ensures k == l ==> GroupFreeBlocks(t, k) > 0
    ensures GroupCounted(g, b, PutU16(t, 32 * k + 12, Dec16(GroupFreeBlocks(t, k))), l)
  {
    hide PutU16, U16;
    OtherCountsStay(t, k, 12, Dec16(GroupFreeBlocks(t, k)), l);
    StepKeepsBitmaps(g, a, b, true, k, i, false, l);
    if l == k {
      CountSetBit(a[g.bb[k]], i, g.bpg);
      PutGet16(t, 32 * k + 12, Dec16(GroupFreeBlocks(t, k)));
    } else {
      StepKeepsBitmaps(g, a, b, true, k, i, true, l);
    }
  }

  lemma TakeInodeGroup(g: Geometry, a: seq<Block>, b: seq<Block>, t: Block, k: nat, i: nat, l: nat)
    requires Shaped(g, a) && k < |g.bb| && l < |g.bb| && i < g.ipg
    requires GroupCounted(g, a, t, l)
    requires BitStep(a, b, g.ib[k], i) && !Bit(a[g.ib[k]], i)
    ensures k == l ==> GroupFreeInodes(t, k) > 0
    ensures GroupCounted(g, b, PutU16(t, 32 * k + 14, Dec16(GroupFreeInodes(t, k))), l)
  {
    hide PutU16, U16;
    OtherCountsStay(t, k, 14, Dec16(GroupFreeInodes(t, k)), l);
    StepKeepsBitmaps(g, a, b, false, k, i, true, l);
    if l == k {
      CountSetBit(a[g.ib[k]], i, g.ipg);
      PutGet16(t, 32 * k + 14, Dec16(GroupFreeInodes(t, k)));
    } else {
      StepKeepsBitmaps(g, a, b, false, k, i, false, l);
    }
  }

  lemma TakeBlockCounts(g: Geometry, a: seq<Block>, b: seq<Block>, sb: SbImage, t: Block, k: nat, i: nat)
    requires Shaped(g, a) && CountsMatch(g, a, sb, t) && k < |g.bb| && i < g.bpg
    requires BitStep(a, b, g.bb[k], i) && !Bit(a[g.bb[k]], i)
    ensures GroupFreeBlocks(t, k) > 0 && FreeBlocks(sb) > 0
    ensures CountsMatch(g, b, PutU32(sb, 12, Dec32(FreeBlocks(sb))),
                        PutU16(t, 32 * k + 12, Dec16(GroupFreeBlocks(t, k))))
  {
    hide GroupCounted, Sane, SetBit, Bit, PutU16, U16, U32, PutU32, Mul, Dec16;
    var u := PutU16(t, 32 * k + 12, Dec16(GroupFreeBlocks(t, k)));
    forall l | 0 <= l < |g.bb|
      ensures GroupCounted(g, b, u, l) && (k == l ==> GroupFreeBlocks(t, k) > 0)
    {
      TakeBlockGroup(g, a, b, t, k, i, l);
    }
    assert GroupCounted(g, b, u, k);
    TakeBlockSums(t, k, |g.bb|);
    SbCounts(sb, 12, 16);
  }

  lemma TakeInodeCounts(g: Geometry, a: seq<Block>, b: seq<Block>, sb: SbImage, t: Block, k: nat, i: nat)
    requires Shaped(g, a) && CountsMatch(g, a, sb, t) && k < |g.bb| && i < g.ipg
    requires BitStep(a, b, g.ib[k], i) && !Bit(a[g.ib[k]], i)
    ensures GroupFreeInodes(t, k) > 0 && FreeInodes(sb) > 0
    ensures CountsMatch(g, b, PutU32(sb, 16, Dec32(FreeInodes(sb))),
                        PutU16(t, 32 * k + 14, Dec16(GroupFreeInodes(t, k))))
  {
    hide GroupCounted, Sane, SetBit, Bit, PutU16, U16, U32, PutU32, Mul, Dec16;
    var u := PutU16(t, 32 * k + 14, Dec16(GroupFreeInodes(t, k)));
    forall l | 0 <= l < |g.bb|
      ensures GroupCounted(g, b, u, l) && (k == l ==> GroupFreeInodes(t, k) > 0)
    {
      TakeInodeGroup(g, a, b, t, k, i, l);
    }
    assert GroupCounted(g, b, u, k);
    TakeInodeSums(t, k, |g.bb|);
    SbCounts(sb, 16, 12);
  }

  /** The bitmap block of a group is not data, so data blocks keep their contents. */
  lemma StepKeepsData(g: Geometry, a: seq<Block>, b: seq<Block>, kind: bool, k: nat, i: nat, p: nat)
    requires Shaped(g, a) && k < |g.bb| && BitStep(a, b, BitmapOf(g, kind, k), i)
    requires p < |a| && IsData(g, p)
    ensures b[p] == a[p]
  {
  }

  /** One bit of one bitmap set, with counts that match again, is a step that touches no data block
      and no inode. */
  lemma StepTouches(a: Fs, b: Fs, kind: bool, k: nat, i: nat)
    requires Good(a) && Mounted(b) && Counted(b) && b.g == a.g && k < |a.g.bb|
    requires BitStep(a.disk, b.disk, BitmapOf(a.g, kind, k), i) && i < if kind then a.g.bpg else a.g.ipg
    ensures Touches(a, b, {}, {})
    ensures forall p: nat :: p < Mul(|a.g.bb|, a.g.bpg) ==>
      (BlockUsed(a.g, b.disk, p) <==> (kind && p == BlockNumber(a.g, k, i)) || BlockUsed(a.g, a.disk, p))
    ensures forall m: nat :: ValidIno(a.g, m) ==>
      (InodeUsed(a.g, b.disk, m) <==> (!kind && m == InodeNumber(a.g, k, i)) || InodeUsed(a.g, a.disk, m))
  {
    hide Sane, Describes, CountsMatch, BitStep, IsData, InodeAt, BitmapOf, BlockNumber, InodeNumber, Mul;
    var g := a.g;
    forall p: nat | p < Mul(|g.bb|, g.bpg)
      ensures BlockUsed(g, b.disk, p) <==> (kind && p == BlockNumber(g, k, i)) || BlockUsed(g, a.disk, p)
    {
      StepBlockBit(g, a.disk, b.disk, kind, k, i, p);
    }
    forall m: nat | ValidIno(g, m)
      ensures InodeUsed(g, b.disk, m) <==> (!kind && m == InodeNumber(g, k, i)) || InodeUsed(g, a.disk, m)
      ensures InodeAt(g, b.disk, m) == InodeAt(g, a.disk, m)
    {
      StepInodeBit(g, a.disk, b.disk, kind, k, i, m);
      StepKeepsInodes(g, a.disk, b.disk, kind, k, i, m);
    }
    forall p: nat | p < |a.disk| && IsData(g, p)
      ensures b.disk[p] == a.disk[p]
    {
      StepKeepsData(g, a.disk, b.disk, kind, k, i, p);
    }
  }

  lemma TakeBlockKeeps(fs: Fs, k: nat, i: nat)
    requires Good(fs) && k < |fs.g.bb| && GroupOk(fs.g, k) && i < fs.g.bpg && !Bit(fs.disk[fs.g.bb[k]], i)
    ensures var r := TakeBlock(fs, k, i);
      && BitStep(fs.disk, r.disk, BitmapOf(fs.g, true, k), i)
      && Mounted(r) && Counted(r) && r.g == fs.g
  {
    var r := TakeBlock(fs, k, i);
    TakeBlockMounted(fs, k, i);
    CommitStep(fs.disk, fs.g.bb[k], i, r.sb, r.bgdt);
    TakeBlockCounts(fs.g, fs.disk, r.disk, fs.sb, fs.bgdt, k, i);
  }

  lemma TakeInodeKeeps(fs: Fs, k: nat, i: nat)
    requires Good(fs) && k < |fs.g.bb| && GroupOk(fs.g, k) && i < fs.g.ipg && !Bit(fs.disk[fs.g.ib[k]], i)
    ensures var r := TakeInode(fs, k, i);
      && BitStep(fs.disk, r.disk, BitmapOf(fs.g, false, k), i)
      && Mounted(r) && Counted(r) && r.g == fs.g
  {
    var r := TakeInode(fs, k, i);
    TakeInodeMounted(fs, k, i);
    CommitStep(fs.disk, fs.g.ib[k], i, r.sb, r.bgdt);
    TakeInodeCounts(fs.g, fs.disk, r.disk, fs.sb, fs.bgdt, k, i);
  }

  /** Every bit that the allocator scans in group `k`'s block bitmap is set. */
  ghost predicate NoFreeBlock(fs: Fs, k: nat)
    requires Mounted(fs) && k < |fs.g.bb|
  {
    assert GroupOk(fs.g, k);
    forall i :: 0 <= i < fs.g.ipg ==> Bit(fs.disk[fs.g.bb[k]], i)
  }

  ghost predicate NoFreeInode(fs: Fs, k: nat)
    requires Mounted(fs) && k < |fs.g.bb|
  {
    assert GroupOk(fs.g, k);
    forall i :: 0 <= i < fs.g.ipg ==> Bit(fs.disk[fs.g.ib[k]], i)
  }

  /** `n` is a free data block of group `k` in `a`; in `b` it is used and no other bit changed. */
  ghost predicate TookBlock(a: Fs, b: Fs, k: nat, n: nat)
    requires Mounted(a) && Mounted(b) && a.g == b.g
  {
    var g := a.g;
    && n < Mul(|g.bb|, g.bpg) && IsData(g, n) && BlockGroup(g, n) == k
    && !BlockUsed(g, a.disk, n)
    && (forall p: nat :: p < Mul(|g.bb|, g.bpg) ==> (BlockUsed(g, b.disk, p) <==> p == n || BlockUsed(g, a.disk, p)))
    && (forall m: nat :: ValidIno(g, m) ==> (InodeUsed(g, b.disk, m) <==> InodeUsed(g, a.disk, m)))
  }

  ghost predicate TookInode(a: Fs, b: Fs, k: nat, n: nat)
    requires Mounted(a) && Mounted(b) && a.g == b.g
  {
    var g := a.g;
    && ValidIno(g, n) && InoGroup(g, n) == k
    && !InodeUsed(g, a.disk, n)
    && (forall m: nat :: ValidIno(g, m) ==> (InodeUsed(g, b.disk, m) <==> m == n || InodeUsed(g, a.disk, m)))
    && (forall p: nat :: p < Mul(|g.bb|, g.bpg) ==> (BlockUsed(g, b.disk, p) <==> BlockUsed(g, a.disk, p)))
  }

  /** A block allocation fails, changing nothing, exactly when every scanned bit is set. Otherwise it
      returns a data block that was free, marks exactly that block, lowers the three counts with it
      and touches no data block and no inode. */
  lemma AllocBlockKeeps(fs: Fs, k: nat)
    requires Good(fs) && k < |fs.g.bb|
    ensures var (r, n) := AllocBlock(fs, k);
      && Touches(fs, r, {}, {})
      && (n == 0 <==> NoFreeBlock(fs, k))
      && (n == 0 ==> r == fs)
      && (n != 0 ==> TookBlock(fs, r, k, n))
  {
    hide Sane, Describes, CountsMatch, TakeBlock, BitStep;
    var g := fs.g;
    SaneGroup(g, k);
    var i := LowestClear(fs.disk[g.bb[k]], g.ipg);
    if i < g.ipg {
      var (r, n) := AllocBlock(fs, k);
      TakeBlockKeeps(fs, k, i);
      StepTouches(fs, r, true, k, i);
      FreshBlock(fs, k, i);
    }
  }

  lemma SaneGroup(g: Geometry, k: nat)
    requires Tabled(g) && Sane(g) && k < |g.bb|
    ensures GroupOk(g, k) && 0 < g.ipg <= g.bpg <= 32768
  {
  }

  /** A clear bit of the block bitmap stands for a data block, never for block 0. */
  lemma FreshBlock(fs: Fs, k: nat, i: nat)
    requires Good(fs) && k < |fs.g.bb| && GroupOk(fs.g, k) && i < fs.g.bpg && !Bit(fs.disk[fs.g.bb[k]], i)
    ensures var n := BlockNumber(fs.g, k, i);
      && 0 < n < Mul(|fs.g.bb|, fs.g.bpg) && IsData(fs.g, n) && BlockGroup(fs.g, n) == k
      && !BlockUsed(fs.g, fs.disk, n)
  {
    hide Describes, CountsMatch, Bit;
    var g := fs.g;
    DivModUnique(k, i, g.bpg);
    MulApart(k, |g.bb|, g.bpg);
    assert !BlockUsed(g, fs.disk, BlockNumber(g, k, i));
  }

  lemma FreshInode(fs: Fs, k: nat, i: nat)
    requires Good(fs) && k < |fs.g.bb| && GroupOk(fs.g, k) && i < fs.g.ipg && !Bit(fs.disk[fs.g.ib[k]], i)
    ensures var n := InodeNumber(fs.g, k, i);
      ValidIno(fs.g, n) && InoGroup(fs.g, n) == k && !InodeUsed(fs.g, fs.disk, n)
  {
    hide Describes, CountsMatch, Bit;
    var g := fs.g;
    DivModUnique(k, i, g.ipg);
    MulApart(k, |g.bb|, g.ipg);
  }

  /** An inode allocation likewise. */
  lemma AllocInodeKeeps(fs: Fs, k: nat)
    requires Good(fs) && k < |fs.g.bb|
    ensures var (r, n) := AllocInode(fs, k);
      && Touches(fs, r, {}, {})
      && (n == 0 <==> NoFreeInode(fs, k))
      && (n == 0 ==> r == fs)
      && (n != 0 ==> TookInode(fs, r, k, n))
  {
    hide Sane, Describes, CountsMatch, TakeInode, BitStep;
    var g := fs.g;
    SaneGroup(g, k);
    var i := LowestClear(fs.disk[g.ib[k]], g.ipg);
    if i < g.ipg {
      var (r, n) := AllocInode(fs, k);
      TakeInodeKeeps(fs, k, i);
      StepTouches(fs, r, false, k, i);
      FreshInode(fs, k, i);
    }
  }

  /** The lowest free block of the group is taken: the blocks of the group below it were used. */
  lemma LowestBlock(fs: Fs, k: nat, i: nat)
    requires Good(fs) && k < |fs.g.bb|
    requires AllocBlock(fs, k).1 != 0 && BlockNumber(fs.g, k, i) < AllocBlock(fs, k).1
    ensures BlockNumber(fs.g, k, i) < Mul(|fs.g.bb|, fs.g.bpg) && BlockGroup(fs.g, BlockNumber(fs.g, k, i)) == k
    ensures BlockUsed(fs.g, fs.disk, BlockNumber(fs.g, k, i))
  {
    hide Describes, CountsMatch, Bit, TakeBlock;
    var g := fs.g;
    SaneGroup(g, k);
    DivModUnique(k, i, g.bpg);
    MulApart(k, |g.bb|, g.bpg);
  }

  lemma LowestInode(fs: Fs, k: nat, i: nat)
    requires Good(fs) && k < |fs.g.bb|
    requires AllocInode(fs, k).1 != 0 && InodeNumber(fs.g, k, i) < AllocInode(fs, k).1
    ensures ValidIno(fs.g, InodeNumber(fs.g, k, i)) && InoGroup(fs.g, InodeNumber(fs.g, k, i)) == k
    ensures InodeUsed(fs.g, fs.disk, InodeNumber(fs.g, k, i))
  {
    hide Describes, CountsMatch, Bit, TakeInode;
    var g := fs.g;
    SaneGroup(g, k);
    DivModUnique(k, i, g.ipg);
    MulApart(k, |g.bb|, g.ipg);
  }

  /** Writing a block that is none of the superblock, the descriptor table and the bitmaps keeps the
      volume good and all allocation bits. */
  lemma PlainWriteGood(fs: Fs, p: nat, blk: Block)
    requires Good(fs) && 2 <= p < |fs.disk|
    requires forall k :: 0 <= k < |fs.g.bb| ==> p != fs.g.bb[k] && p != fs.g.ib[k]
    ensures var b := fs.(disk := fs.disk[p := blk]);
      && Good(b)
      && (forall q: nat :: q < Mul(|fs.g.bb|, fs.g.bpg) ==> (BlockUsed(fs.g, b.disk, q) <==> BlockUsed(fs.g, fs.disk, q)))
      && (forall m: nat :: ValidIno(fs.g, m) ==> (InodeUsed(fs.g, b.disk, m) <==> InodeUsed(fs.g, fs.disk, m)))
  {
    hide Sane, Describes, IsData, Bit, Mul, SumFreeBlocks, SumFreeInodes, CountClear, InoGroup;
    var g, b := fs.g, fs.(disk := fs.disk[p := blk]);
    forall k | 0 <= k < |g.bb|
      ensures GroupCounted(g, b.disk, fs.bgdt, k)
    {
      assert GroupCounted(g, fs.disk, fs.bgdt, k);
      SaneGroup(g, k);
    }
    forall q: nat | q < Mul(|g.bb|, g.bpg)
      ensures BlockUsed(g, b.disk, q) <==> BlockUsed(g, fs.disk, q)
    {
      SaneGroup(g, BlockGroup(g, q));
    }
    forall m: nat | ValidIno(g, m)
      ensures InodeUsed(g, b.disk, m) <==> InodeUsed(g, fs.disk, m)
    {
      SaneGroup(g, InoGroup(g, m));
    }
  }

  function SetInode(fs: Fs, n: nat, x: InodeImage): Fs
    requires Mounted(fs) && ValidIno(fs.g, n)
  {
    fs.(disk := PutInode(fs.g, fs.disk, n, x))
  }

  function SetData(fs: Fs, p: nat, blk: Block): Fs
    requires p < |fs.disk|
  {
    fs.(disk := fs.disk[p := blk])
  }

  /** An inode write changes that inode and nothing else. */
  lemma SetInodeTouches(fs: Fs, n: nat, x: InodeImage)
    requires Good(fs) && ValidIno(fs.g, n)
    ensures Touches(fs, SetInode(fs, n, x), {}, {n})
    ensures InodeAt(fs.g, SetInode(fs, n, x).disk, n) == x
  {
    hide Sane, Marked, CountsMatch, Describes, BlockUsed, InodeUsed, InodeAt, Mul, InodeOffset;
    var g, p := fs.g, InodeBlock(fs.g, n);
    InodeBlockInTable(g, n);
    TableIsNotBitmap(g, n, InoGroup(g, n));
    forall k | 0 <= k < |g.bb|
      ensures p != g.bb[k] && p != g.ib[k]
    {
      TableIsNotBitmap(g, n, k);
    }
    PlainWriteGood(fs, p, SetInode(fs, n, x).disk[p]);
    assert SetInode(fs, n, x) == fs.(disk := fs.disk[p := SetInode(fs, n, x).disk[p]]);
    forall m: nat | ValidIno(g, m)
      ensures InodeAt(g, SetInode(fs, n, x).disk, m) == if m == n then x else InodeAt(g, fs.disk, m)
    {
      InodeRoundTrip(g, fs.disk, n, x, m);
    }
  }

  /** A data block write changes that block and nothing else. */
  lemma SetDataTouches(fs: Fs, p: nat, blk: Block)
    requires Good(fs) && p < |fs.disk| && IsData(fs.g, p)
    ensures Touches(fs, SetData(fs, p, blk), {p}, {})
  {
    hide Sane, Marked, CountsMatch, Describes, BlockUsed, InodeUsed, Mul;
    PlainWriteGood(fs, p, blk);
    forall m: nat | ValidIno(fs.g, m)
      ensures InodeAt(fs.g, SetData(fs, p, blk).disk, m) == InodeAt(fs.g, fs.disk, m)
    {
      InodeBlockInTable(fs.g, m);
    }
  }

  datatype Request = WantBlock(group: nat) | WantInode(group: nat)

  ghost predicate Served(g: Geometry, reqs: seq<Request>) {
    forall i :: 0 <= i < |reqs| ==> reqs[i].group < |g.bb|
  }

  /** A run of allocations: the final state and the numbers handed out. */
  ghost function Serve(fs: Fs, reqs: seq<Request>): (r: (Fs, seq<nat>))
    requires Good(fs) && Served(fs.g, reqs)
    ensures |r.1| == |reqs|
    decreases |reqs|
  {
    hide Sane, Marked, CountsMatch, Describes, One;
    if reqs == [] then (fs, [])
    else
      var (next, n) := One(fs, reqs[0]);
      OneGood(fs, reqs[0]);
      var (last, ns) := Serve(next, reqs[1..]);
      (last, [n] + ns)
  }

  ghost function One(fs: Fs, q: Request): (Fs, nat)
    requires Mounted(fs) && q.group < |fs.g.bb|
  {
    match q
    case WantBlock(k) => AllocBlock(fs, k)
    case WantInode(k) => AllocInode(fs, k)
  }

  lemma OneKeeps(fs: Fs, q: Request)
    requires Good(fs) && q.group < |fs.g.bb|
    ensures Touches(fs, One(fs, q).0, {}, {})
  {
    hide Good;
    match q
    case WantBlock(k) => AllocBlockKeeps(fs, k);
    case WantInode(k) => AllocInodeKeeps(fs, k);
  }

  /** `n`, handed out for `q`, is free in `a` and taken in `b`. */
  ghost predicate Granted(a: Fs, b: Fs, q: Request, n: nat)
    requires Mounted(a) && Mounted(b) && a.g == b.g
  {
    if q.WantBlock? then
      && n < Mul(|a.g.bb|, a.g.bpg) && IsData(a.g, n)
      && !BlockUsed(a.g, a.disk, n) && BlockUsed(a.g, b.disk, n)
    else
      && ValidIno(a.g, n)
      && !InodeUsed(a.g, a.disk, n) && InodeUsed(a.g, b.disk, n)
  }

  lemma OneGood(fs: Fs, q: Request)
    requires Good(fs) && q.group < |fs.g.bb|
    ensures Good(One(fs, q).0) && One(fs, q).0.g == fs.g
  {
    hide Good, One;
    OneKeeps(fs, q);
  }

  /** A grant of a later step is a grant of the whole run, and so is one of an earlier step. */
  lemma GrantedAcross(a: Fs, b: Fs, c: Fs, q: Request, n: nat)
    requires Touches(a, b, {}, {}) && Touches(b, c, {}, {})
    ensures Granted(b, c, q, n) ==> Granted(a, c, q, n)
    ensures Granted(a, b, q, n) ==> Granted(a, c, q, n)
    ensures !(Granted(a, b, q, n) && Granted(b, c, q, n))
  {
    hide Sane, Marked, CountsMatch, Describes, BlockUsed, InodeUsed, Mul, IsData, InodeAt, ValidIno;
  }

  /** No double allocation, over every run of requests to any groups in any order: what is handed out
      was free before the run and is used after it, no two block requests get the same block and no
      two inode requests the same inode, and conservation holds at the end. */
  lemma {:induction false} NoDoubleAllocation(fs: Fs, reqs: seq<Request>)
    requires Good(fs) && Served(fs.g, reqs)
    ensures var (r, ns) := Serve(fs, reqs);
      && Touches(fs, r, {}, {})
      && (forall i :: 0 <= i < |reqs| && ns[i] != 0 ==> Granted(fs, r, reqs[i], ns[i]))
      && (forall i, j :: 0 <= i < j < |reqs| && ns[i] != 0 && reqs[i].WantBlock? == reqs[j].WantBlock?
            ==> ns[i] != ns[j])
    decreases |reqs|
  {
    hide Sane, Marked, CountsMatch, Describes, BlockUsed, InodeUsed, Mul, IsData, InodeAt, ValidIno, One, Granted;
    var (r, ns) := Serve(fs, reqs);
    if reqs != [] {
      var (next, n) := One(fs, reqs[0]);
      OneKeeps(fs, reqs[0]);
      OneGranted(fs, reqs[0]);
      var rest := reqs[1..];
      var ms := Serve(next, rest).1;
      NoDoubleAllocation(next, rest);
      TouchesTrans(fs, next, r, {}, {}, {}, {});
      assert ns == [n] + ms;
      hide Touches;
      forall i | 0 <= i < |reqs| && ns[i] != 0
        ensures Granted(fs, r, reqs[i], ns[i])
        ensures 0 < i && reqs[i].WantBlock? == reqs[0].WantBlock? ==> ns[i] != ns[0]
      {
        GrantedAcross(fs, next, r, reqs[i], ns[i]);
        SameKind(fs, next, reqs[0], reqs[i], ns[i]);
        if i > 0 {
          assert Granted(next, r, rest[i - 1], ms[i - 1]);
        }
      }
      forall i, j | 0 <= i < j < |reqs| && ns[i] != 0 && reqs[i].WantBlock? == reqs[j].WantBlock?
        ensures ns[i] != ns[j]
      {
        if i > 0 {
          assert ns[i] == ms[i - 1] && ns[j] == ms[j - 1];
        }
      }
    }
  }

  lemma SameKind(a: Fs, b: Fs, p: Request, q: Request, n: nat)
    requires Mounted(a) && Mounted(b) && a.g == b.g
    ensures p.WantBlock? == q.WantBlock? && Granted(a, b, p, n) ==> Granted(a, b, q, n)
  {
    hide Mounted;
  }

  lemma OneGranted(fs: Fs, q: Request)
    requires Good(fs) && q.group < |fs.g.bb|
    requires Touches(fs, One(fs, q).0, {}, {})
    ensures One(fs, q).1 != 0 ==> Granted(fs, One(fs, q).0, q, One(fs, q).1)
  {
    hide Sane, Marked, CountsMatch, Describes, BlockUsed, InodeUsed, Mul, IsData, InodeAt;
    match q
    case WantBlock(k) => AllocBlockKeeps(fs, k);
    case WantInode(k) => AllocInodeKeeps(fs, k);
  }
}
