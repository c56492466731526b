/** The mounted volume: the block image together with the in-memory superblock and group descriptor
    table, the geometry they describe, and the whole-disk layout invariant. */
module Volume {
  import opened Bytes
  import opened Bitmaps
  import opened Arith

  const SB_SIZE: nat := 92
  const SB_OFFSET: nat := 1024
  const INODE_SIZE: nat := 128
  const MAX_GROUPS: nat := 128
  const NDIR_BLOCKS: nat := 12

  type SbImage = s: seq<byte> | |s| == 92 witness seq(92, _ => 0)
  type InodeImage = x: seq<byte> | |x| == 128 witness seq(128, _ => 0)

  // Superblock fields.
  function BlocksCount(sb: SbImage): nat { U32(sb, 4) }
  function FreeBlocks(sb: SbImage): nat { U32(sb, 12) }
  function FreeInodes(sb: SbImage): nat { U32(sb, 16) }
  function BlocksPerGroup(sb: SbImage): nat { U32(sb, 32) }
  function InodesPerGroup(sb: SbImage): nat { U32(sb, 40) }
  function Magic(sb: SbImage): nat { U16(sb, 56) }
  function InodeSize(sb: SbImage): nat { U16(sb, 88) }
  function BlockSize(sb: SbImage): nat { 1024 * Pow2(U32(sb, 24)) }

  // Group descriptor fields; a descriptor is 32 bytes and the table fills one block.
  function GroupBlockBitmap(t: Block, k: nat): nat requires k < MAX_GROUPS { U32(t, 32 * k) }
  function GroupInodeBitmap(t: Block, k: nat): nat requires k < MAX_GROUPS { U32(t, 32 * k + 4) }
  function GroupInodeTable(t: Block, k: nat): nat requires k < MAX_GROUPS { U32(t, 32 * k + 8) }
  function GroupFreeBlocks(t: Block, k: nat): nat requires k < MAX_GROUPS { U16(t, 32 * k + 12) }
  function GroupFreeInodes(t: Block, k: nat): nat requires k < MAX_GROUPS { U16(t, 32 * k + 14) }

  // Inode fields.
  function TypePerm(x: InodeImage): nat { U16(x, 0) }
  function LowerSize(x: InodeImage): nat { U32(x, 4) }
  function Sectors(x: InodeImage): nat { U32(x, 28) }
  function Ptr(x: InodeImage, i: nat): nat requires i < 15 { U32(x, 40 + 4 * i) }
  predicate IsDir(x: InodeImage) { TypePerm(x) / 0x4000 % 2 == 1 }
  predicate IsFile(x: InodeImage) { TypePerm(x) / 0x8000 % 2 == 1 }

  /** `ext2_sectors_to_blocks`, with its 32-bit product. */
  function SectorsToBlocks(sectors: nat): nat {
    sectors * 512 % 0x1_0000_0000 / BLOCK_SIZE
  }

  /** The number of direct blocks attached to an inode. */
  function Attached(x: InodeImage): (r: nat)
    ensures r <= NDIR_BLOCKS
  {
    var n := SectorsToBlocks(Sectors(x));
    if n < NDIR_BLOCKS then n else NDIR_BLOCKS
  }

  /** Where things are: block bitmap, inode bitmap and inode table of each group. */
  datatype Geometry = Geometry(blocks: nat, bpg: nat, ipg: nat, isz: nat,
                               bb: seq<nat>, ib: seq<nat>, it: seq<nat>)
  {
    /** Blocks taken by one group's inode table. */
    function TableBlocks(): nat { (Mul(ipg, isz) + 4095) / BLOCK_SIZE }

    predicate InTable(k: nat, b: nat)
      requires k < |it|
    {
      it[k] <= b < it[k] + TableBlocks()
    }
  }

  function GroupCount(sb: SbImage): nat {
    if BlocksPerGroup(sb) == 0 then 0
    else Div(BlocksCount(sb) + BlocksPerGroup(sb) - 1, BlocksPerGroup(sb))
  }

  /** The superblock and the descriptor table spell out the geometry `g`. */
  ghost predicate Describes(g: Geometry, sb: SbImage, t: Block) {
    && g.blocks == BlocksCount(sb) && g.bpg == BlocksPerGroup(sb)
    && g.ipg == InodesPerGroup(sb) && g.isz == InodeSize(sb)
    && BlockSize(sb) == BLOCK_SIZE
    && |g.bb| == |g.ib| == |g.it| == GroupCount(sb) <= MAX_GROUPS
    && forall k :: 0 <= k < |g.bb| ==> DescribesGroup(g, t, k)
  }

  ghost predicate DescribesGroup(g: Geometry, t: Block, k: nat)
    requires |g.bb| == |g.ib| == |g.it| <= MAX_GROUPS && k < |g.bb|
  {
    && g.bb[k] == GroupBlockBitmap(t, k)
    && g.ib[k] == GroupInodeBitmap(t, k)
    && g.it[k] == GroupInodeTable(t, k)
  }

  /** The block image, the in-memory superblock and descriptor table, and the geometry `g` that
      these two describe; it is fixed from mounting on. */
  datatype Fs = Fs(g: Geometry, disk: seq<Block>, sb: SbImage, bgdt: Block)

  ghost predicate GroupOk(g: Geometry, k: nat)
    requires |g.bb| == |g.ib| == |g.it| && k < |g.bb|
  {
    && 2 <= g.bb[k] < g.blocks
    && 2 <= g.ib[k] < g.blocks
    && 2 <= g.it[k] && g.it[k] + g.TableBlocks() <= g.blocks
    && g.bb[k] != g.ib[k]
    && !g.InTable(k, g.bb[k])
    && !g.InTable(k, g.ib[k])
  }

  ghost predicate GroupsApart(g: Geometry, k: nat, l: nat)
    requires |g.bb| == |g.ib| == |g.it| && k < |g.bb| && l < |g.bb|
  {
    && g.bb[k] != g.bb[l]
    && g.bb[k] != g.ib[l]
    && g.ib[k] != g.ib[l]
    && !g.InTable(l, g.bb[k])
    && !g.InTable(l, g.ib[k])
    && (g.it[k] + g.TableBlocks() <= g.it[l] || g.it[l] + g.TableBlocks() <= g.it[k])
  }

  ghost predicate Tabled(g: Geometry) {
    0 < |g.bb| == |g.ib| == |g.it| <= MAX_GROUPS
  }

  /** The metadata regions lie inside the volume and do not overlap. The scan bound of the block
      allocator is the number of inodes in a group, hence `ipg <= bpg`. */
  ghost predicate Sane(g: Geometry) {
    && Tabled(g)
    && 0 < g.ipg <= g.bpg <= 32768
    && INODE_SIZE <= g.isz && Mod(BLOCK_SIZE, g.isz) == 0
    && g.blocks <= Mul(|g.bb|, g.bpg)
    && (forall k :: 0 <= k < |g.bb| ==> GroupOk(g, k))
    && (forall k, l :: 0 <= k < |g.bb| && 0 <= l < |g.bb| && k != l ==> GroupsApart(g, k, l))
  }

  /** Memory and disk agree on a volume whose layout is sane. */
  ghost predicate Mounted(fs: Fs) {
    && Shaped(fs.g, fs.disk)
    && 2 <= |fs.disk|
    && Describes(fs.g, fs.sb, fs.bgdt)
    && fs.disk[1] == fs.bgdt
    && fs.disk[0][SB_OFFSET..SB_OFFSET + SB_SIZE] == fs.sb
  }

  ghost predicate Shaped(g: Geometry, disk: seq<Block>) {
    Tabled(g) && Sane(g) && |disk| == g.blocks
  }

  predicate ValidIno(g: Geometry, n: nat) {
    1 <= n <= Mul(|g.bb|, g.ipg)
  }

  function InoGroup(g: Geometry, n: nat): (k: nat)
    requires Sane(g) && ValidIno(g, n)
    ensures k < |g.bb|
  {
    DivBelow(n - 1, |g.bb|, g.ipg);
    Div(n - 1, g.ipg)
  }

  /** The block of the inode table holding inode `n`, and the byte offset in it. */
  function InodeBlock(g: Geometry, n: nat): nat
    requires Sane(g) && ValidIno(g, n)
  {
    g.it[InoGroup(g, n)] + Mul(Mod(n - 1, g.ipg), g.isz) / BLOCK_SIZE
  }

  function InodeOffset(g: Geometry, n: nat): (o: nat)
    requires Sane(g) && ValidIno(g, n)
    ensures o < BLOCK_SIZE
  {
    Mul(Mod(n - 1, g.ipg), g.isz) % BLOCK_SIZE
  }

  lemma InodeBlockInTable(g: Geometry, n: nat)
    requires Sane(g) && ValidIno(g, n)
    ensures g.InTable(InoGroup(g, n), InodeBlock(g, n))
    ensures InodeOffset(g, n) + INODE_SIZE <= BLOCK_SIZE
    ensures InodeBlock(g, n) < g.blocks
  {
    var idx := Mod(n - 1, g.ipg);
    MulDivMod(BLOCK_SIZE, g.isz);
    SlotFits(g.isz, Div(BLOCK_SIZE, g.isz), idx);
    MulApart(idx, g.ipg, g.isz);
    assert GroupOk(g, InoGroup(g, n));
  }

  /** Two inode numbers never share table bytes. */
  lemma InodeSlotsDisjoint(g: Geometry, n: nat, m: nat)
    requires Sane(g) && ValidIno(g, n) && ValidIno(g, m) && n != m
    ensures InodeBlock(g, n) != InodeBlock(g, m)
         || InodeOffset(g, n) + INODE_SIZE <= InodeOffset(g, m)
         || InodeOffset(g, m) + INODE_SIZE <= InodeOffset(g, n)
  {
    InodeBlockInTable(g, n);
    InodeBlockInTable(g, m);
    var kn, km := InoGroup(g, n), InoGroup(g, m);
    if kn != km {
      assert GroupsApart(g, kn, km);
    } else {
      var i, j := Mod(n - 1, g.ipg), Mod(m - 1, g.ipg);
      if i == j {
        SameDivMod(n - 1, m - 1, g.ipg);
        assert false;
      }
      SlotsDisjoint(i, j, g.isz);
    }
  }

  /** `ext2_extract_inode`. */
  function InodeAt(g: Geometry, disk: seq<Block>, n: nat): InodeImage
    requires Shaped(g, disk) && ValidIno(g, n)
  {
    InodeBlockInTable(g, n);
    disk[InodeBlock(g, n)][InodeOffset(g, n)..InodeOffset(g, n) + INODE_SIZE]
  }

  /** `ext2_inode_write`. */
  function PutInode(g: Geometry, disk: seq<Block>, n: nat, x: InodeImage): (r: seq<Block>)
    requires Shaped(g, disk) && ValidIno(g, n)
    ensures |r| == |disk|
  {
    InodeBlockInTable(g, n);
    var b := InodeBlock(g, n);
    disk[b := Splice(disk[b], InodeOffset(g, n), x)]
  }

  /** Inode table round trip and frame: the written inode is read back, every other inode of any
      group keeps its bytes. */
  lemma InodeRoundTrip(g: Geometry, disk: seq<Block>, n: nat, x: InodeImage, m: nat)
    requires Shaped(g, disk) && ValidIno(g, n) && ValidIno(g, m)
    ensures InodeAt(g, PutInode(g, disk, n, x), m) == if m == n then x else InodeAt(g, disk, m)
  {
    InodeBlockInTable(g, n);
    InodeBlockInTable(g, m);
    var b, o := InodeBlock(g, n), InodeOffset(g, n);
    assert GroupOk(g, InoGroup(g, n));
    if m == n {
      SpliceHit(disk[b], o, x);
    } else {
      InodeSlotsDisjoint(g, n, m);
      if InodeBlock(g, m) == b {
        SpliceMiss(disk[b], o, x, InodeOffset(g, m), INODE_SIZE);
      }
    }
  }
}
