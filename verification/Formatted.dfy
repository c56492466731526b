/** A small formatted volume: the invariant is not empty, and a file can be created on it. */
module Formatted {
  import opened Bytes
  import opened Bitmaps
  import opened Arith
  import opened Volume
  import opened Alloc
  import opened Records
  import opened Slots
  import opened Namespace
  import opened Ownership
  import opened Files
  import opened Creation
  import opened Calls

  // One group of 16 blocks and 16 inodes: superblock, descriptors, two bitmaps, one table block, the
  // root directory's block, ten free blocks.
  const GEO: Geometry := Geometry(16, 16, 16, 128, [2], [3], [4])

  function Sb(): SbImage {
    var s1 := PutU32(PutU32(PutU32(Zeros(92), 4, 16), 12, 10), 16, 14);
    var s2 := PutU32(PutU32(PutU32(s1, 24, 2), 32, 16), 40, 16);
    PutU16(PutU16(s2, 56, 0xEF53), 88, 128)
  }

  function Table(): Block {
    PutU16(PutU16(PutU32(PutU32(PutU32(ZERO_BLOCK, 0, 2), 4, 3), 8, 4), 12, 10), 14, 14)
  }

  /** A directory of one block. */
  function DirImage(p: nat): InodeImage
    requires p < 0x1_0000_0000
  {
    PutU32(PutU32(PutU16(ZERO_INODE, 0, 0x41ED), 28, 8), 40, p)
  }

  function Root(): InodeImage { DirImage(5) }

  /** A directory that holds the entry "." alone. */
  function DotBlock(n: nat): Block
    requires n < 0x1_0000_0000
  {
    PutRecord(ZERO_BLOCK, 0, n, 4096, [46])
  }

  function RootBlock(): Block { DotBlock(ROOT) }

  function Blank(n: nat): (r: seq<Block>)
    ensures |r| == n
  {
    if n == 0 then [] else Blank(n - 1) + [ZERO_BLOCK]
  }

  function Disk(): (r: seq<Block>)
    ensures |r| == 16
  {
    [Splice(ZERO_BLOCK, SB_OFFSET, Sb()), Table(), ZERO_BLOCK[0 := 63], ZERO_BLOCK[0 := 3],
     Splice(ZERO_BLOCK, 128, Root()), RootBlock()] + Blank(10)
  }

  function Volume0(): Fs {
    Fs(GEO, Disk(), Sb(), Table())
  }

  lemma GeoIsSane()
    ensures Sane(GEO) && Mul(1, 16) == 16 && GEO.TableBlocks() == 1
  {
    MulIs(1, 16);
    MulIs(16, 128);
    ModIs(4096, 128);
    assert GroupOk(GEO, 0);
  }

  lemma SbFields()
    ensures BlocksCount(Sb()) == 16 && FreeBlocks(Sb()) == 10 && FreeInodes(Sb()) == 14 && U32(Sb(), 24) == 2
    ensures BlocksPerGroup(Sb()) == 16 && InodesPerGroup(Sb()) == 16 && InodeSize(Sb()) == 128 && Magic(Sb()) == 0xEF53
  {
    var a1 := PutU32(Zeros(92), 4, 16);
    var a2 := PutU32(a1, 12, 10);
    var a3 := PutU32(a2, 16, 14);
    var a4 := PutU32(a3, 24, 2);
    var a5 := PutU32(a4, 32, 16);
    var a6 := PutU32(a5, 40, 16);
    var a7 := PutU16(a6, 56, 0xEF53);
    hide PutU32, PutU16, U32, U16;
    Field32(Zeros(92), 4, 16, Sb());
    Field32(a1, 12, 10, Sb());
    Field32(a2, 16, 14, Sb());
    Field32(a3, 24, 2, Sb());
    Field32(a4, 32, 16, Sb());
    Field32(a5, 40, 16, Sb());
    Field16(a6, 56, 0xEF53, Sb());
    Field16(a7, 88, 128, Sb());
  }

  /** A stored field is still there in an image that agrees on its bytes. */
  lemma Field32(b: seq<byte>, o: nat, v: nat, r: seq<byte>)
    requires o + 4 <= |b| == |r| && v < 0x1_0000_0000
    requires forall i :: o <= i < o + 4 ==> r[i] == PutU32(b, o, v)[i]
    ensures U32(r, o) == v
  {
    PutGet32(b, o, v);
    SameU32(PutU32(b, o, v), r, o);
  }

  lemma Field16(b: seq<byte>, o: nat, v: nat, r: seq<byte>)
    requires o + 2 <= |b| == |r| && v < 0x1_0000
    requires forall i :: o <= i < o + 2 ==> r[i] == PutU16(b, o, v)[i]
    ensures U16(r, o) == v
  {
    PutGet16(b, o, v);
    SameU16(PutU16(b, o, v), r, o);
  }

  lemma TableFields()
    ensures GroupBlockBitmap(Table(), 0) == 2 && GroupInodeBitmap(Table(), 0) == 3 && GroupInodeTable(Table(), 0) == 4
    ensures GroupFreeBlocks(Table(), 0) == 10 && GroupFreeInodes(Table(), 0) == 14
  {
    var a1 := PutU32(ZERO_BLOCK, 0, 2);
    var a2 := PutU32(a1, 4, 3);
    var a3 := PutU32(a2, 8, 4);
    var a4 := PutU16(a3, 12, 10);
    hide PutU32, PutU16, U32, U16;
    Field32(ZERO_BLOCK, 0, 2, Table());
    Field32(a1, 4, 3, Table());
    Field32(a2, 8, 4, Table());
    Field16(a3, 12, 10, Table());
    Field16(a4, 14, 14, Table());
  }

  lemma DirFields(p: nat)
    requires p < 0x1_0000_0000
    ensures var x := DirImage(p);
      TypePerm(x) == 0x41ED && Sectors(x) == 8 && Ptr(x, 0) == p && forall j :: 1 <= j < 15 ==> Ptr(x, j) == 0
  {
    var a1 := PutU16(ZERO_INODE, 0, 0x41ED);
    var a2 := PutU32(a1, 28, 8);
    var x := DirImage(p);
    forall j | 1 <= j < 15
      ensures Ptr(x, j) == 0
    {
      var o := 40 + 4 * j;
      assert x[o] == 0 && x[o + 1] == 0 && x[o + 2] == 0 && x[o + 3] == 0;
    }
    hide PutU32, PutU16, U32, U16;
    Field16(ZERO_INODE, 0, 0x41ED, x);
    Field32(a1, 28, 8, x);
    Field32(a2, 40, p, x);
  }

  lemma RootFields()
    ensures TypePerm(Root()) == 0x41ED && Sectors(Root()) == 8 && Ptr(Root(), 0) == 5
    ensures forall j :: 1 <= j < 15 ==> Ptr(Root(), j) == 0
  {
    DirFields(5);
    hide DirImage;
  }

  lemma DiskBlocks()
    ensures var d := Disk();
      && d[0] == Splice(ZERO_BLOCK, SB_OFFSET, Sb()) && d[1] == Table()
      && d[2] == ZERO_BLOCK[0 := 63] && d[3] == ZERO_BLOCK[0 := 3]
      && d[4] == Splice(ZERO_BLOCK, 128, Root()) && d[5] == RootBlock()
  {
    hide Splice, Root, RootBlock, Sb, Table, Blank;
  }

  lemma Described0()
    ensures Describes(GEO, Sb(), Table())
  {
    SbFields();
    TableFields();
    DivIs(31, 16);
    assert Pow2(2) == 4;
    hide U16, U32, Root, RootBlock, Sb, Table, Blank, Disk, Div, Sane;
    assert DescribesGroup(GEO, Table(), 0);
  }

  lemma Mounted0()
    ensures Shaped(GEO, Disk()) && Mounted(Volume0())
  {
    GeoIsSane();
    Described0();
    DiskBlocks();
    SpliceHit(ZERO_BLOCK, SB_OFFSET, Sb());
    hide Sane, Splice, Root, RootBlock, Sb, Table, Blank, Disk, Describes;
  }

  /** Which bits are set: 0 to 5 in the block bitmap, 0 and 1 in the inode bitmap. */
  lemma Bits(i: nat)
    requires i < 16
    ensures Bit(ZERO_BLOCK[0 := 63], i) <==> i < 6
    ensures Bit(ZERO_BLOCK[0 := 3], i) <==> i < 2
  {
    Small(i % 8);
  }

  lemma Small(k: nat)
    requires k < 8
    ensures NatBit(63, k) <==> k < 6
    ensures NatBit(3, k) <==> k < 2
    ensures !NatBit(0, k)
  {
    Halves(63, k, 6);
    Halves(3, k, 2);
    Halves(0, k, 0);
  }

  /** A number of `n` ones has exactly its low `n` bits set. */
  lemma {:induction false} Halves(x: nat, k: nat, n: nat)
    requires x + 1 == Pow2(n)
    ensures NatBit(x, k) <==> k < n
  {
    if n == 0 {
      if k > 0 {
        Halves(0, k - 1, 0);
      }
    } else {
      assert x + 1 == 2 * Pow2(n - 1) && x == 2 * (Pow2(n - 1) - 1) + 1;
      assert x % 2 == 1 && x / 2 == Pow2(n - 1) - 1;
      if k > 0 {
        Halves(x / 2, k - 1, n - 1);
      }
    }
  }

  lemma {:induction false} Counts(n: nat)
    requires n <= 16
    ensures CountClear(ZERO_BLOCK[0 := 63], n) == if n < 6 then 0 else n - 6
    ensures CountClear(ZERO_BLOCK[0 := 3], n) == if n < 2 then 0 else n - 2
  {
    if n > 0 {
      Counts(n - 1);
      Bits(n - 1);
    }
  }

  lemma Marked0(p: nat)
    requires p < 16 && Shaped(GEO, Disk()) && Mul(1, 16) == 16
    ensures BlockUsed(GEO, Disk(), p) <==> p < 6
    ensures GEO.TableBlocks() == 1 && !IsData(GEO, p) ==> p < 6
  {
    hide Sane, Root, RootBlock, Sb, Table, Blank, Disk, Bit;
    DiskBlocks();
    Bits(p);
    DivIs(p, 16);
    ModIs(p, 16);
  }

  lemma Counted0()
    requires Shaped(GEO, Disk())
    ensures CountsMatch(GEO, Disk(), Sb(), Table())
  {
    hide Sane, Root, RootBlock, Sb, Table, Blank, Disk, Bit, CountClear, U16, U32;
    DiskBlocks();
    SbFields();
    TableFields();
    Counts(16);
    assert GroupCounted(GEO, Disk(), Table(), 0);
    assert SumFreeBlocks(Table(), 0) == 0 && SumFreeInodes(Table(), 0) == 0;
  }

  lemma Good0()
    ensures Good(Volume0())
  {
    hide Sane, Root, RootBlock, Sb, Table, Blank, Disk, Bit, CountsMatch, BlockUsed, IsData, Describes;
    Mounted0();
    GeoIsSane();
    Counted0();
    forall p: nat | p < Mul(1, 16) && !IsData(GEO, p)
      ensures BlockUsed(GEO, Disk(), p)
    {
      Marked0(p);
    }
  }

  lemma RootImage()
    requires Shaped(GEO, Disk())
    ensures ValidIno(GEO, ROOT) && InodeAt(GEO, Disk(), ROOT) == Root() && InodeUsed(GEO, Disk(), ROOT)
  {
    MulIs(1, 128);
    MulIs(1, 16);
    SpliceHit(ZERO_BLOCK, 128, Root());
    DiskBlocks();
    Bits(1);
    hide Splice, Root, RootBlock, Sb, Table, Blank, Disk, Sane, Bit;
    InodeBlockInTable(GEO, ROOT);
    assert Div(1, 16) == 0 && Mod(1, 16) == 1;
    assert InodeBlock(GEO, ROOT) == 4 && InodeOffset(GEO, ROOT) == 128;
  }

  lemma DotRecord(n: nat)
    requires 0 < n < 0x1_0000_0000
    ensures var b := DotBlock(n);
      && RecInode(b, 0) == n && RecLen(b, 0) == 4096 && NameLen(b, 0) == 1
      && EntryAt(b, 0).ino == n && EntryAt(b, 0).name == [46] && Tiled(b, 0)
      && Parse(b, 0, MAX_SUBDIRS) == [EntryAt(b, 0)] && Count(b, 0) == 1 && LastOffset(b, 0) == 0
  {
    PutRecordFields(ZERO_BLOCK, 0, n, 4096, [46]);
    hide U32, U16, PutRecord, Paths.CString;
    assert Tiled(DotBlock(n), BLOCK_SIZE);
    assert Count(DotBlock(n), 4096) == 0;
    ParseEnd(DotBlock(n), MAX_SUBDIRS - 1);
  }

  /** The invariant holds of the formatted volume, with the root directory as the only tracked inode,
      and of the driver that has just mounted it. */
  lemma FormattedIsSound()
    ensures Sound(Volume0(), {ROOT})
    ensures Inv(World(Volume0(), {ROOT}, CLOSED))
  {
    hide Root, RootBlock, Sb, Table, Blank, Disk, Describes, Sane, Marked, CountsMatch, InodeAt, Ptr, ListFrom,
      ListReadable, BlockUsed,
      IsData, InodeUsed, TypePerm, Sectors;
    Good0();
    GeoIsSane();
    RootImage();
    RootFields();
    ListingOfRoot();
    RootHolds();
    assert Attached(Root()) == 1;
    assert InodeOwned(Volume0(), ROOT);
    assert DirOk(Volume0(), {ROOT}, ROOT);
  }

  lemma RootHolds()
    requires Shaped(GEO, Disk())
    ensures Held(GEO, Disk(), 5)
  {
    GeoIsSane();
    Marked0(5);
    hide Disk, Sane, BlockUsed;
  }

  lemma ListingOfRoot()
    ensures Ptr(Root(), 0) == 5 && Ptr(Root(), 1) == 0
    ensures ListReadable(Disk(), Root(), 0, MAX_SUBDIRS)
    ensures forall e :: e in ListFrom(Disk(), Root(), 0, MAX_SUBDIRS) ==> e.ino == ROOT
  {
    RootFields();
    DotRecord(ROOT);
    ReadableTiled(RootBlock(), 0, MAX_SUBDIRS);
    DiskBlocks();
    hide U32, U16, Root, DotBlock, Sb, Table, Blank, Ptr, EntryAt, Disk, Parse, Tiled, Count, LastOffset;
    assert ListFrom(Disk(), Root(), 1, MAX_SUBDIRS - 1) == [];
  }

  /** Any single component is a creatable path on this volume. */
  lemma AnyNameCreatable(name: seq<byte>)
    requires 1 <= |name| <= Paths.NAME_LEN && Paths.NoNul(name) && Paths.NoSlash(name)
    ensures Sound(Volume0(), {ROOT}) && CanCreate(Volume0(), {ROOT}, [Paths.SLASH] + name)
  {
    hide Root, RootBlock, Sb, Table, Blank, Disk, Sound, Ptr, TypePerm, Accepts, Roomy, Paths.Parsable,
      Paths.Rows, Find, Sane, InodeAt;
    FormattedIsSound();
    Mounted0();
    RootImage();
    RootFields();
    RootAccepts(name);
    AcceptsIsRoomy(Disk(), Root(), name);
    PathOf(name);
    RootFound();
  }

  lemma RootFound()
    requires Shaped(GEO, Disk()) && ValidIno(GEO, ROOT)
    ensures Find(GEO, Disk(), [Paths.SLASH]) == ROOT
  {
    hide Disk, Sane, Fresh, Paths.Rows;
    RootRows();
  }

  /** On this volume the first creation succeeds, whatever the name, and leaves a file that can be used. */
  lemma FirstCreateSucceeds(w: World, name: seq<byte>, junk: InodeImage)
    requires w.fs == Volume0() && w.tracked == {ROOT} && w.f.path == [Paths.SLASH] + name
    requires w.f.open && !w.f.exist && w.f.pos == 0 && !w.f.dirty
    requires 1 <= |name| <= Paths.NAME_LEN && |w.f.path| <= Paths.MAX_PATH_LEN
    requires Paths.NoNul(name) && Paths.NoSlash(name)
    ensures Inv(w) && CreateFine(w) && Create(w, junk).1 == 0 && Usable(Create(w, junk).0)
  {
    hide Root, RootBlock, Sb, Table, Blank, Disk, Sound, Ptr, TypePerm, Accepts, Roomy, Paths.Parsable,
      Paths.Rows, NoFreeInode, NoFreeBlock, Create, Usable, Mounted, Sane, InodeAt, Find, CanCreate, BaseName, ParentPath,
      Paths.NoNul, Paths.NoSlash, Paths.Split, DirFull;
    FirstIsFine(w, name);
    hide FileOk, IsDir, IsFile, Inv, CreateFine;
    FreeLeft();
    CreateSucceedsIff(w, junk);
    CreateInv(w, junk);
  }

  /** The root takes the name. */
  lemma FirstIsFine(w: World, name: seq<byte>)
    requires w.fs == Volume0() && w.tracked == {ROOT} && w.f.path == [Paths.SLASH] + name
    requires w.f.open && !w.f.exist && w.f.pos == 0 && !w.f.dirty
    requires 1 <= |name| <= Paths.NAME_LEN && |w.f.path| <= Paths.MAX_PATH_LEN
    requires Paths.NoNul(name) && Paths.NoSlash(name)
    ensures Inv(w) && Mounted(w.fs) && ValidIno(w.fs.g, ROOT) && CanCreate(w.fs, w.tracked, w.f.path) && CreateFine(w)
    ensures Find(w.fs.g, w.fs.disk, ParentPath(w.f.path)) == ROOT && IsDir(Image(w.fs, ROOT))
    ensures Roomy(w.fs.disk, Image(w.fs, ROOT), BaseName(w.f.path))
  {
    hide Root, RootBlock, Sb, Table, Blank, Disk, Sound, Ptr, TypePerm, Accepts, Roomy, Paths.Parsable,
      Paths.Rows, Mounted, Sane, InodeAt, Find, BaseName, ParentPath, Paths.NoNul, Paths.NoSlash, Paths.Split, DirFull;
    FormattedIsSound();
    AnyNameCreatable(name);
    Mounted0();
    RootImage();
    RootFields();
    RootAccepts(name);
    AcceptsIsRoomy(Disk(), Root(), name);
    PathOf(name);
    RootFound();
  }

  /** Inode 3 and block 6 are free. */
  lemma FreeLeft()
    ensures Mounted(Volume0()) && ValidIno(GEO, ROOT) && InoGroup(GEO, ROOT) == 0
    ensures !NoFreeInode(Volume0(), 0) && !NoFreeBlock(Volume0(), 0)
  {
    hide Root, RootBlock, Sb, Table, Blank, Disk, Bit, Describes, Sane;
    Mounted0();
    RootImage();
    GeoIsSane();
    DiskBlocks();
    Bits(2);
    Bits(6);
    assert Div(1, 16) == 0;
    assert !Bit(Disk()[GEO.ib[0]], 2) && !Bit(Disk()[GEO.bb[0]], 6);
    assert Volume0().disk == Disk() && Volume0().g == GEO;
  }

  lemma RootAccepts(name: seq<byte>)
    requires 1 <= |name| <= Paths.NAME_LEN && Paths.NoNul(name)
    ensures Accepts(Disk(), Root(), name)
  {
    RootFields();
    DiskBlocks();
    hide Root, DotBlock, Sb, Table, Blank, Ptr, Disk, Paths.NoNul, Accepts;
    DotAccepts(Disk(), Root(), ROOT, name);
  }

  /** A directory that holds "." takes every name. */
  lemma DotAccepts(disk: seq<Block>, x: InodeImage, n: nat, name: seq<byte>)
    requires 1 <= |name| <= Paths.NAME_LEN && Paths.NoNul(name) && 0 < n < 0x1_0000_0000
    requires IsDir(x) && 0 < Ptr(x, 0) < |disk| && disk[Ptr(x, 0)] == DotBlock(n)
    ensures Accepts(disk, x, name)
  {
    DotRecord(n);
    RecSizeFacts(name);
    hide U32, U16, DotBlock, Ptr, RecSize, Paths.NoNul, Count, LastOffset, Tiled;
  }

  lemma RootRows()
    ensures Paths.Split([Paths.SLASH]) == [[], []] && Paths.Rows([Paths.SLASH]) == [[Paths.SLASH]]
  {
    var e: seq<byte>, root: seq<byte> := [], [Paths.SLASH];
    assert root[..0] == [];
    assert Paths.Split(root) == [e, e];
    assert [e, e][..1] == [e];
    assert e + root == root;
  }

  lemma NameRows(name: seq<byte>)
    requires name != [] && Paths.NoSlash(name)
    ensures var path := [Paths.SLASH] + name;
      Paths.Split(path) == [[], name] && Paths.Rows(path) == [[Paths.SLASH], name]
  {
    var e: seq<byte>, root: seq<byte> := [], [Paths.SLASH];
    var path := root + name;
    assert [e, name][..1] == [e] && Paths.Join([e]) == e;
    assert Paths.Join([e, name]) == path;
    Paths.SplitJoin([e, name]);
    hide Paths.Split, Paths.Join;
    assert !Paths.EndsInSlash(path);
    assert e + root == root;
    assert [e, name][0 := e + root] == [root, name];
  }

  lemma PathOf(name: seq<byte>)
    requires 1 <= |name| <= Paths.NAME_LEN && Paths.NoNul(name) && Paths.NoSlash(name)
    ensures var path := [Paths.SLASH] + name;
      && |Paths.Rows(path)| == 2 && Paths.Parsable(path) && BaseName(path) == name
      && ParentPath(path) == [Paths.SLASH] && Paths.Parsable(ParentPath(path)) && Components(ParentPath(path)) == []
  {
    RootRows();
    NameRows(name);
    hide Paths.Split, Paths.Rows;
    var root: seq<byte> := [Paths.SLASH];
    assert [root, name][..1] == [root] && [root][..0] == [];
    assert Concat([root]) == root;
    assert Paths.NoNul(root + name);
  }
}
