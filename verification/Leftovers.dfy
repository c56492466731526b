/** A directory in the root, and a file created in it: what the driver finds there, name by name. */
module Leftovers {
  import opened Bytes
  import opened Arith
  import opened Volume
  import opened Alloc
  import opened Records
  import opened Slots
  import opened Namespace
  import opened Ownership
  import opened Files
  import opened Creation
  import opened Calls
  import opened Space
  import opened Finding
  import opened Formatted
  import opened Examples
  import opened Paths
  import opened Strings

  // How a slot reads after two listings.

  /** The second name, and behind it what a longer first one left. */
  function Over(first: seq<byte>, second: seq<byte>): seq<byte> {
    second + if |second| < |first| then first[|second|..] else []
  }

  lemma OverReads(first: seq<byte>, second: seq<byte>)
    requires |first| <= NAME_LEN && |second| <= NAME_LEN && NoNul(first) && NoNul(second)
    ensures CString(Splice(Splice(EMPTY.name, 0, first), 0, second)) == Over(first, second)
  {
    var s, r := Splice(Splice(EMPTY.name, 0, first), 0, second), Over(first, second);
    var n := |r|;
    hide CString, NoNul;
    assert n < SLOT_LEN && s[n] == 0;
    forall i | 0 <= i < n
      ensures s[i] == r[i] != 0
    {
      NameByte(if i < |second| then second else first, i);
    }
    CStringIs(s, n);
    assert s[..n] == r;
  }

  // Turning a file into a directory.

  ghost function MakeDir(fs: Fs, n: nat): Fs
    requires Mounted(fs) && ValidIno(fs.g, n) && n < 0x1_0000_0000
    requires var p := Ptr(Image(fs, n), 0);
      p < |fs.disk| && p < 0x1_0000_0000 && Mounted(SetData(fs, p, DotBlock(n)))
  {
    var p := Ptr(Image(fs, n), 0);
    SetInode(SetData(fs, p, DotBlock(n)), n, DirImage(p))
  }

  /** A tracked file of one block. */
  ghost predicate OneBlock(fs: Fs, T: set<nat>, n: nat) {
    && Sound(fs, T) && n in T && ValidIno(fs.g, n) && 0 < n < 0x1_0000_0000
    && !IsDir(Image(fs, n)) && Attached(Image(fs, n)) == 1
  }

  lemma MakeDirTouches(fs: Fs, T: set<nat>, n: nat)
    requires OneBlock(fs, T, n)
    ensures var p := Ptr(Image(fs, n), 0);
      && 0 < p < |fs.disk| && p < 0x1_0000_0000 && Held(fs.g, fs.disk, p) && Mounted(SetData(fs, p, DotBlock(n)))
      && var b := MakeDir(fs, n);
         && Touches(fs, b, {p}, {n}) && Took(fs, b, {}, {})
         && Image(b, n) == DirImage(p) && b.disk[p] == DotBlock(n)
  {
    hide Sane, Describes, Marked, CountsMatch, BlockUsed, InodeUsed, Mul, InodeAt, IsDir, Attached, DirOk, DirImage,
      DotBlock, Ptr;
    assert InodeOwned(fs, n);
    var p := Ptr(Image(fs, n), 0);
    assert Held(fs.g, fs.disk, PtrOf(fs.g, fs.disk, n, 0));
    NumbersFit(fs);
    SetDataTouches(fs, p, DotBlock(n));
    SetDataTakes(fs, p, DotBlock(n));
    var c := SetData(fs, p, DotBlock(n));
    SetInodeTouches(c, n, DirImage(p));
    SetInodeTakes(c, n, DirImage(p));
    var none: set<nat> := {};
    assert {p} + none == {p} && none + {n} == {n} && none + none == none;
    TouchesTrans(fs, c, MakeDir(fs, n), {p}, none, none, {n});
    TookTrans(fs, c, MakeDir(fs, n), none, none, none, none);
    hide Held;
  }

  lemma DirKind(p: nat)
    requires 0 < p < 0x1_0000_0000
    ensures IsDir(DirImage(p)) && KindOk(DirImage(p)) && Attached(DirImage(p)) == 1
  {
    DirFields(p);
    hide DirImage, Ptr, TypePerm, Sectors;
  }

  /** The listing of a directory that holds "." alone. */
  lemma DotListing(disk: seq<Block>, p: nat, n: nat)
    requires 0 < p < 0x1_0000_0000 && p < |disk| && 0 < n < 0x1_0000_0000 && disk[p] == DotBlock(n)
    ensures ListReadable(disk, DirImage(p), 0, MAX_SUBDIRS)
    ensures ListFrom(disk, DirImage(p), 0, MAX_SUBDIRS) == [EntryAt(DotBlock(n), 0)]
  {
    DirFields(p);
    DotRecord(n);
    ReadableTiled(DotBlock(n), 0, MAX_SUBDIRS);
    hide U32, U16, DirImage, DotBlock, Ptr, EntryAt, Parse, Tiled, Count, LastOffset;
    assert ListFrom(disk, DirImage(p), 1, MAX_SUBDIRS - 1) == [];
  }

  /** The directory is owned like the file was; it lists itself, and everything else lists as before. */
  lemma MadeDir(fs: Fs, T: set<nat>, n: nat)
    requires OneBlock(fs, T, n)
    ensures var p := Ptr(Image(fs, n), 0);
      && 0 < p < |fs.disk| && p < 0x1_0000_0000 && Mounted(SetData(fs, p, DotBlock(n)))
      && var b := MakeDir(fs, n);
         && Sound(b, T) && b.g == fs.g && Image(b, n) == DirImage(p) && p < |b.disk| && b.disk[p] == DotBlock(n)
         && Took(fs, b, {}, {})
         && List(b.g, b.disk, n) == [EntryAt(DotBlock(n), 0)]
         && forall m :: m in T && m != n ==>
              ValidIno(b.g, m) && Image(b, m) == Image(fs, m) && List(b.g, b.disk, m) == List(fs.g, fs.disk, m)
  {
    hide Sane, Describes, Marked, CountsMatch, BlockUsed, InodeUsed, Mul, InodeAt, IsDir, Attached, KindOk,
      DirImage, DotBlock, Ptr, Took, ListFrom, ListReadable, MakeDir, Held, IsData, EntryAt;
    MakeDirTouches(fs, T, n);
    var p, b := Ptr(Image(fs, n), 0), MakeDir(fs, n);
    assert InodeOwned(fs, n);
    DirKind(p);
    DotListing(b.disk, p, n);
    DotRecord(n);
    DirFields(p);
    forall m | m in T
      ensures InodeOwned(b, m) && DirOk(b, T, m)
      ensures m != n ==> Image(b, m) == Image(fs, m) && List(b.g, b.disk, m) == List(fs.g, fs.disk, m)
      ensures Attach(b.g, b.disk, m) == Attach(fs.g, fs.disk, m)
      ensures forall i :: 0 <= i < Attach(fs.g, fs.disk, m) ==> PtrOf(b.g, b.disk, m, i) == PtrOf(fs.g, fs.disk, m, i)
    {
      assert InodeOwned(fs, m);
      if m != n {
        OwnedStays(fs, b, {p}, {n}, m);
        forall i | 0 <= i < Attach(fs.g, fs.disk, m)
          ensures PtrOf(fs.g, fs.disk, m, i) !in {p}
        {
          assert Apart(fs, n, 0, m, i);
        }
        DirStays(fs, b, T, T, {p}, {n}, m);
      } else {
        HeldStays(fs, b, {p}, {n}, p);
      }
    }
    forall m, k, i: nat, j: nat | m in T && k in T
      ensures Apart(b, m, i, k, j)
    {
      assert InodeOwned(fs, m) && InodeOwned(fs, k);
      assert Apart(fs, m, i, k, j);
    }
  }

  // The volume: a directory `d` of the given name in the root.

  /** A directory of one block that holds "." alone. */
  ghost predicate OneDot(disk: seq<Block>, x: InodeImage, d: nat) {
    var p := Ptr(x, 0);
    0 < p < |disk| && p < 0x1_0000_0000 && x == DirImage(p) && d < 0x1_0000_0000 && disk[p] == DotBlock(d)
  }

  ghost predicate TwoLevels(b: Fs, d: nat, name: seq<byte>) {
    hide Marked, CountsMatch, Describes, Sane, Owned, DirOk, List, NoFreeBlock, NoFreeInode, TookOne, OneDot, DotBlock,
      EntryAt, InodeAt;
    && Sound(b, {ROOT, d}) && b.g == GEO && ValidIno(GEO, ROOT) && ValidIno(GEO, d)
    && d != ROOT && 0 < d < 0x1_0000_0000 && InoGroup(GEO, d) == 0
    && OneDot(b.disk, Image(b, d), d)
    && List(GEO, b.disk, d) == [EntryAt(DotBlock(d), 0)]
    && List(GEO, b.disk, ROOT) == [EntryAt(DotBlock(ROOT), 0), Entry(d, 0, name)]
    && !NoFreeBlock(b, 0) && !NoFreeInode(b, 0) && TookOne(Volume0(), b, d)
  }

  /** One block and the inode `n` were taken. */
  ghost predicate TookOne(a: Fs, b: Fs, n: nat) {
    exists p: nat :: Took(a, b, {p}, {n})
  }

  lemma TookOneStays(b: Fs, c: Fs, d: nat)
    requires TookOne(Volume0(), b, d) && Took(b, c, {}, {})
    ensures TookOne(Volume0(), c, d) && Mounted(c) && c.g == GEO && !NoFreeInode(c, 0)
  {
    hide Took, Disk, Sane, Describes, NoFreeInode;
    var p: nat :| Took(Volume0(), b, {p}, {d});
    var none: set<nat> := {};
    TookTrans(Volume0(), b, c, {p}, {d}, none, none);
    assert {d} + none == {d} && {p} + none == {p};
    InodeLeft(c, {p}, d);
  }

  /** Inodes 3 and 4 are free on the formatted volume, so one is left after a creation. */
  lemma InodeLeft(b: Fs, D: set<nat>, d: nat)
    requires Took(Volume0(), b, D, {d})
    ensures Mounted(b) && b.g == GEO && !NoFreeInode(b, 0)
  {
    hide Root, DotBlock, Sb, Table, Blank, Disk, Bitmaps.Bit, Describes, Sane, BlockUsed;
    GeoIsSane();
    DiskBlocks();
    InodeBit(2);
    InodeBit(3);
    assert Volume0().disk == Disk() && Volume0().g == GEO;
    var i := if d == 3 then 3 else 2;
    assert GroupOk(GEO, 0);
    assert !InodeUsed(GEO, b.disk, i + 1);
    assert !Bitmaps.Bit(b.disk[GEO.ib[0]], i);
  }

  lemma InodeBit(i: nat)
    requires i < 16 && Sane(GEO)
    ensures ValidIno(GEO, i + 1) && InoGroup(GEO, i + 1) == 0 && Mod(i, GEO.ipg) == i
    ensures Bitmaps.Bit(ZERO_BLOCK[0 := 3], i) <==> i < 2
  {
    GeoIsSane();
    Bits(i);
    DivIs(i, 16);
    ModIs(i, 16);
  }

  /** The state after the file was created in the root. */
  lemma CreatedInRoot(name: seq<byte>)
    requires Name(name) && name != DOT
    ensures Inv(New(name)) && CreateFine(New(name))
    ensures var (w1, d) := (Create(New(name), ZERO_INODE).0, Create(New(name), ZERO_INODE).0.f.inodeNum);
      && OneBlock(w1.fs, w1.tracked, d) && w1.tracked == {ROOT, d} && d != ROOT && w1.fs.g == GEO
      && ValidIno(GEO, ROOT) && InoGroup(GEO, d) == 0 && !NoFreeBlock(w1.fs, 0)
      && List(GEO, w1.fs.disk, ROOT) == [EntryAt(DotBlock(ROOT), 0), Entry(d, 0, name)]
      && TookOne(Volume0(), w1.fs, d)
  {
    hide Root, DotBlock, Sb, Table, Blank, Disk, Sane, InodeAt, EntryAt, Describes, IsFile, Rows, List,
      CreateIn, NoFreeBlock, Attached, LowerSize, Roomy, Find, Ptr, DirImage, Took, ParentPath, BaseName,
      Accepts, Owned, DirOk, CanCreate, TwoFree, Reserve, IsDir, Split, Good, Lookup, Front;
    var w := New(name);
    NewCreated(name, ZERO_INODE);
    Facts0();
    PathOf(name);
    FindRoot(ParentPath(w.f.path));
    RootAccepts(name);
    AcceptsIsRoomy(Disk(), Root(), name);
    CreateInSound(w, ROOT, ZERO_INODE);
    StagedKeeps(w, ROOT, ZERO_INODE);
    Space.CreateLeaves(w, ZERO_INODE);
    RootFront();
    var back := CreatedListing(w, ROOT, ZERO_INODE);
    RootGained(w, name, ZERO_INODE);
    assert ([EntryAt(DotBlock(ROOT), 0)] + back)[1..] == back;
    assert back == [];
  }

  lemma RootFront()
    ensures Mounted(Volume0()) && ValidIno(GEO, ROOT) && Ptr(Image(Volume0(), ROOT), 0) < |Disk()|
    ensures Front(Volume0(), ROOT) == [EntryAt(DotBlock(ROOT), 0)]
  {
    hide DirImage, Sb, Table, Blank, Disk, Sane, InodeAt, EntryAt, Describes, DotBlock, Ptr, Parse, Tiled, Count, LastOffset,
      Inv, Clean, IsDir, IsFile;
    Facts0();
    RootFields();
    DiskBlocks();
    DotRecord(ROOT);
  }

  lemma SoundIs(w: World)
    requires Inv(w)
    ensures Sound(w.fs, w.tracked)
  {
  }

  /** There is such a volume for every name. */
  lemma TwoLevelsExist(name: seq<byte>) returns (b: Fs, d: nat)
    requires Name(name) && name != DOT
    ensures TwoLevels(b, d, name)
  {
    hide Root, DotBlock, Sb, Table, Blank, Disk, Sane, InodeAt, EntryAt, Describes, IsDir, List, Create, CanCreate,
      NoFreeBlock, NoFreeInode, Attached, Ptr, DirImage, Sound, FileOk, MakeDir;
    CreatedInRoot(name);
    SoundIs(New(name));
    var w1 := Create(New(name), ZERO_INODE).0;
    d := w1.f.inodeNum;
    MadeDir(w1.fs, w1.tracked, d);
    DirFields(Ptr(Image(w1.fs, d), 0));
    b := MakeDir(w1.fs, d);
    SameFree(w1.fs, b, 0, {});
    hide TookOne, Took;
    TookOneStays(w1.fs, b, d);
  }

  // Creating a file in the directory.

  /** The state before: a new file `second` in the directory `first` of the root. */
  ghost predicate Before(w: World, d: nat, first: seq<byte>, second: seq<byte>) {
    && TwoLevels(w.fs, d, first) && w.tracked == {ROOT, d} && w.f.open && !w.f.exist && w.f.pos == 0 && !w.f.dirty
    && Name(first) && Name(second) && first != DOT && second != DOT && w.f.path == PathTo([first, second])
  }

  lemma TwoRows(first: seq<byte>, second: seq<byte>)
    requires Name(first) && Name(second)
    ensures var path := PathTo([first, second]);
      && |path| <= MAX_PATH_LEN && Parsable(path) && |Rows(path)| == 3 && BaseName(path) == second
      && Components(path) == [first, second] && ParentPath(path) == PathTo([first])
    ensures Parsable(PathTo([first])) && Components(PathTo([first])) == [first]
  {
    hide Parsable, Split, PathTo;
    PathFacts([first, second]);
    PathFacts([first]);
    OneComponentPath(first);
    var root: seq<byte> := [SLASH];
    assert [root] + [first, second] == [root, first, second];
    assert [root, first, second][..2] == [root, first] && [root, first][..1] == [root] && [root][..0] == [];
    assert Concat([root]) == root;
  }

  /** The directory is found, and takes the file. */
  lemma BeforeFine(w: World, d: nat, first: seq<byte>, second: seq<byte>)
    requires Before(w, d, first, second)
    ensures Inv(w) && |w.f.path| <= MAX_PATH_LEN && CanCreate(w.fs, w.tracked, w.f.path)
    ensures Find(w.fs.g, w.fs.disk, ParentPath(w.f.path)) == d && BaseName(w.f.path) == second
    ensures IsDir(Image(w.fs, d)) && Accepts(w.fs.disk, Image(w.fs, d), second)
    ensures Roomy(w.fs.disk, Image(w.fs, d), second)
  {
    hide Sane, Describes, Marked, CountsMatch, Owned, DirOk, Rows, Find, IsDir, IsFile, DirImage, DotBlock, EntryAt, InodeAt,
      List, NoFreeBlock, NoFreeInode, Ptr, PathTo, Accepts, Roomy, Split, BaseName, ParentPath;
    TwoRows(first, second);
    var p := Ptr(Image(w.fs, d), 0);
    DirKind(p);
    DotAccepts(w.fs.disk, DirImage(p), d, second);
    AcceptsIsRoomy(w.fs.disk, DirImage(p), second);
    FindsFirst(w.fs, d, first);
  }

  lemma FindsFirst(fs: Fs, d: nat, first: seq<byte>)
    requires Mounted(fs) && fs.g == GEO && ValidIno(GEO, ROOT) && ValidIno(GEO, d) && Name(first) && first != DOT && d != ROOT
    requires List(GEO, fs.disk, ROOT) == [EntryAt(DotBlock(ROOT), 0), Entry(d, 0, first)]
    ensures Find(fs.g, fs.disk, PathTo([first])) == d && Child(fs.g, fs.disk, ROOT, first) == d
  {
    hide Sane, Describes, DotBlock, EntryAt, InodeAt, List, PathTo, Fresh, Components, Seen, Lookup;
    PathFacts([first]);
    TwoLookup(ROOT, d, first, first);
    FreshSees(List(fs.g, fs.disk, ROOT), first);
    assert SeenChild(GEO, fs.disk, ROOT, Fresh(), first) == d;
    assert Walk(GEO, fs.disk, [], d, Overlay(Fresh(), List(GEO, fs.disk, ROOT))) == d;
    assert Walk(GEO, fs.disk, [first], ROOT, Fresh()) == d;
    assert [first][1..] == [];
  }

  /** The creation succeeds, and both directories list what they should. */
  lemma CreatedSecond(w: World, d: nat, first: seq<byte>, second: seq<byte>, junk: InodeImage)
    requires Before(w, d, first, second)
    ensures Inv(w) && CreateFine(w)
    ensures var (w2, err) := Create(w, junk);
      && err == 0 && Mounted(w2.fs) && w2.fs.g == GEO && ValidIno(GEO, w2.f.inodeNum) && w2.f.inodeNum !in {ROOT, d, 0}
      && List(GEO, w2.fs.disk, ROOT) == [EntryAt(DotBlock(ROOT), 0), Entry(d, 0, first)]
      && List(GEO, w2.fs.disk, d) == [EntryAt(DotBlock(d), 0), Entry(w2.f.inodeNum, 0, second)]
  {
    hide Sane, Describes, Marked, CountsMatch, Owned, DirOk, Rows, Find, IsDir, IsFile, DirImage, DotBlock, EntryAt, InodeAt,
      List, NoFreeBlock, NoFreeInode, Ptr, PathTo, Accepts, Roomy, CanCreate, CreateIn, BaseName, ParentPath, Reserve,
      Front, Preview, Before, Parse;
    BeforeFine(w, d, first, second);
    BeforeIs(w, d, first, second);
    CreateSucceedsIff(w, junk);
    TwoRows(first, second);
    DirFront(w.fs, d, first);
    CreateInSound(w, d, junk);
    StagedKeeps(w, d, junk);
    var back := CreatedListing(w, d, junk);
    assert ([EntryAt(DotBlock(d), 0)] + back)[1..] == back;
    assert back == [];
    PreviewLists(w, d, junk, ROOT);
  }

  lemma BeforeIs(w: World, d: nat, first: seq<byte>, second: seq<byte>)
    requires Before(w, d, first, second)
    ensures TwoLevels(w.fs, d, first) && w.tracked == {ROOT, d} && w.f.path == PathTo([first, second])
    ensures Name(first) && Name(second)
  {
    hide TwoLevels, Name;
  }

  lemma DirFront(fs: Fs, d: nat, first: seq<byte>)
    requires TwoLevels(fs, d, first)
    ensures Mounted(fs) && ValidIno(fs.g, d) && Ptr(Image(fs, d), 0) < |fs.disk|
    ensures Front(fs, d) == [EntryAt(DotBlock(d), 0)]
  {
    hide Sane, Describes, Marked, CountsMatch, Owned, DirOk, DirImage, DotBlock, EntryAt, InodeAt, List, NoFreeBlock,
      NoFreeInode, Ptr, Parse, Tiled, Count, LastOffset;
    DotRecord(d);
  }

  /** What the slots read as in the second directory: its "." over the root's ".", and the new name over the
      directory's own. */
  lemma SlotsRead(d: nat, ino: nat, first: seq<byte>, second: seq<byte>, y: seq<byte>)
    requires Name(first) && Name(second) && 0 < d < 0x1_0000_0000 && ino != 0
    ensures var top := [EntryAt(DotBlock(ROOT), 0), Entry(d, 0, first)];
      var inner := [EntryAt(DotBlock(d), 0), Entry(ino, 0, second)];
      && Short(top) && Short(inner)
      && Seen(Overlay(Fresh(), top), inner, y) == if y == DOT then d else if y == Over(first, second) then ino else 0
  {
    hide DotBlock, EntryAt, Fresh, Overlay, Lookup, Splice, CString, NoNul, NoSlash, Over;
    DotRecord(ROOT);
    DotRecord(d);
    var top := [EntryAt(DotBlock(ROOT), 0), Entry(d, 0, first)];
    var inner := [EntryAt(DotBlock(d), 0), Entry(ino, 0, second)];
    var seen := Overlay(Overlay(Fresh(), top), inner)[..2];
    assert NoNul(DOT) by { DotNoNul(); }
    OverReads(DOT, DOT);
    OverDot();
    OverReads(first, second);
    assert CString(seen[0].name) == DOT && seen[0].ino == d;
    assert CString(seen[1].name) == Over(first, second) && seen[1].ino == ino;
    if y == DOT {
      LookupHit(seen, 0, y);
    } else if y == Over(first, second) {
      LookupHit(seen, 1, y);
    } else {
      LookupMiss(seen, y);
    }
  }

  lemma DotNoNul()
    ensures NoNul(DOT)
  {
  }

  lemma OverDot()
    ensures Over(DOT, DOT) == DOT
  {
  }

  /** After the file `second` was created in the directory `first`, the driver finds it under exactly one
      name there: its own, followed by what is left over of the directory's name when that is longer. Under
      any other name it gives the directory. */
  lemma LeftoverFind(w: World, d: nat, first: seq<byte>, second: seq<byte>, junk: InodeImage, y: seq<byte>)
    requires Before(w, d, first, second) && Name(y)
    ensures Inv(w) && CreateFine(w)
    ensures var (w2, err) := Create(w, junk);
      var (path, ino) := (PathTo([first, y]), w2.f.inodeNum);
      && err == 0 && Mounted(w2.fs) && w2.fs.g == GEO && ValidIno(GEO, ROOT) && ino != d
      && Find(GEO, w2.fs.disk, path) == (if y == Over(first, second) then ino else d)
      && Resolve(GEO, w2.fs.disk, Components(path), ROOT) == if y == second then ino else if y == DOT then d else 0
  {
    hide Sane, Describes, DirImage, DotBlock, EntryAt, InodeAt, List, Before, Create, CanCreate, Sound, FileOk, PathTo, Over,
      Components, Resolve, Walk, Name, Fresh, Seen, Child, SeenChild, Slotted;
    CreatedSecond(w, d, first, second, junk);
    BeforeIs(w, d, first, second);
    BeforeNames(w, d, first, second);
    PathFacts([first, y]);
    TwoStepWalk(Create(w, junk).0.fs, d, Create(w, junk).0.f.inodeNum, first, second, y);
  }

  lemma TwoStepWalk(b: Fs, d: nat, ino: nat, first: seq<byte>, second: seq<byte>, y: seq<byte>)
    requires Mounted(b) && b.g == GEO && ValidIno(GEO, ROOT) && ValidIno(GEO, d) && ValidIno(GEO, ino)
    requires d != ROOT && ino !in {ROOT, d, 0} && 0 < d < 0x1_0000_0000
    requires Name(first) && Name(second) && Name(y) && first != DOT && second != DOT
    requires List(GEO, b.disk, ROOT) == [EntryAt(DotBlock(ROOT), 0), Entry(d, 0, first)]
    requires List(GEO, b.disk, d) == [EntryAt(DotBlock(d), 0), Entry(ino, 0, second)]
    ensures Walk(GEO, b.disk, [first, y], ROOT, Fresh()) == if y == Over(first, second) then ino else d
    ensures Resolve(GEO, b.disk, [first, y], ROOT) == if y == second then ino else if y == DOT then d else 0
  {
    hide Sane, Describes, DirImage, DotBlock, EntryAt, InodeAt, List, Fresh, Overlay, Over, Lookup, Seen;
    var comps := [first, y];
    assert comps[1..] == [y] && [y][1..] == [];
    TwoLookup(ROOT, d, first, first);
    TwoLookup(d, ino, second, y);
    FreshSees(List(GEO, b.disk, ROOT), first);
    SlotsRead(d, ino, first, second, y);
    OverNotDot(first, second);
    assert Child(GEO, b.disk, ROOT, first) == d == SeenChild(GEO, b.disk, ROOT, Fresh(), first);
    assert Resolve(GEO, b.disk, [y], d) == Child(GEO, b.disk, d, y);
    var slots := Overlay(Fresh(), List(GEO, b.disk, ROOT));
    assert SeenChild(GEO, b.disk, d, slots, y) == Seen(slots, List(GEO, b.disk, d), y);
    assert Walk(GEO, b.disk, [y], d, slots) == if y == Over(first, second) then ino else d;
  }

  lemma OverNotDot(first: seq<byte>, second: seq<byte>)
    requires Name(first) && Name(second) && second != DOT
    ensures Over(first, second) != DOT
  {
    assert |Over(first, second)| == 1 ==> Over(first, second) == second;
  }

  lemma TwoLookup(n: nat, m: nat, name: seq<byte>, y: seq<byte>)
    requires 0 < n < 0x1_0000_0000 && Name(name) && name != DOT
    ensures Lookup([EntryAt(DotBlock(n), 0), Entry(m, 0, name)], y) == if y == DOT then n else if y == name then m else 0
  {
    hide DotBlock, EntryAt, Lookup, CString, Parse, Tiled, Count, LastOffset;
    DotRecord(n);
    CStringOf(DOT);
    CStringOf(name);
    var l := [EntryAt(DotBlock(n), 0), Entry(m, 0, name)];
    if y == DOT {
      LookupHit(l, 0, y);
    } else if y == name {
      LookupHit(l, 1, y);
    } else {
      LookupMiss(l, y);
    }
  }

  lemma BeforeNames(w: World, d: nat, first: seq<byte>, second: seq<byte>)
    requires Before(w, d, first, second)
    ensures first != DOT && second != DOT && d != ROOT && 0 < d < 0x1_0000_0000 && ValidIno(GEO, d) && ValidIno(GEO, ROOT)
  {
    hide Sane, Describes, DirImage, DotBlock, EntryAt, InodeAt, List, Sound;
  }

  /** So the new file is found under its own path exactly when its name is at least as long as the
      directory's; otherwise it is found under a path that does not resolve. */
  lemma FoundIff(w: World, d: nat, first: seq<byte>, second: seq<byte>, junk: InodeImage)
    requires Before(w, d, first, second)
    ensures Inv(w) && CreateFine(w) && ValidIno(GEO, ROOT) && Create(w, junk).1 == 0 && Mounted(Create(w, junk).0.fs)
    ensures var (b, ino) := (Create(w, junk).0.fs, Create(w, junk).0.f.inodeNum);
      && b.g == GEO && Resolve(GEO, b.disk, Components(w.f.path), ROOT) == ino
      && (Find(GEO, b.disk, w.f.path) == ino <==> |second| >= |first|)
      && (|second| < |first| ==>
            && Find(GEO, b.disk, w.f.path) == d
            && Find(GEO, b.disk, PathTo([first, Over(first, second)])) == ino
            && Resolve(GEO, b.disk, Components(PathTo([first, Over(first, second)])), ROOT) == 0)
  {
    hide Before, Create, CreateFine, Inv, PathTo, Components, Resolve, Find, TwoLevels;
    BeforeIs(w, d, first, second);
    LeftoverFind(w, d, first, second, junk, second);
    assert |second| >= |first| <==> Over(first, second) == second;
    if |second| < |first| {
      OverName(first, second);
      LeftoverFind(w, d, first, second, junk, Over(first, second));
    }
  }

  lemma OverName(first: seq<byte>, second: seq<byte>)
    requires Name(first) && Name(second) && |second| < |first|
    ensures Name(Over(first, second)) && Over(first, second) !in {DOT, second}
  {
  }

  const DOCS: seq<byte> := [100, 111, 99, 115]
  const XOCS: seq<byte> := [120, 111, 99, 115]

  /** The state before creating "/docs/x" in a directory "docs" of the root. */
  lemma DocsBefore() returns (w: World, d: nat)
    ensures Before(w, d, DOCS, [120])
  {
    hide TwoLevels, Name, PathTo;
    DocsNames();
    var fs;
    fs, d := TwoLevelsExist(DOCS);
    w := World(fs, {ROOT, d}, File(d, MODE_W, true, 0, 0, false, false, PathTo([DOCS, [120]]), ZERO_BLOCK, ZERO_INODE));
  }

  /** The input: with a directory "docs" in the root, creating "/docs/x" succeeds; then "/docs/x" gives the
      directory, and "/docs/xocs" the new file. */
  lemma DocsExample(junk: InodeImage) returns (w: World, d: nat)
    ensures Inv(w) && CreateFine(w) && w.f.path == PathTo([DOCS, [120]])
    ensures ValidIno(w.fs.g, d) && IsDir(Image(w.fs, d))
    ensures ValidIno(GEO, ROOT) && Create(w, junk).1 == 0 && Mounted(Create(w, junk).0.fs)
    ensures var (b, ino) := (Create(w, junk).0.fs, Create(w, junk).0.f.inodeNum);
      && b.g == GEO && ino != d
      && Resolve(GEO, b.disk, Components(w.f.path), ROOT) == ino && Find(GEO, b.disk, w.f.path) == d
      && Find(GEO, b.disk, PathTo([DOCS, XOCS])) == ino
      && Resolve(GEO, b.disk, Components(PathTo([DOCS, XOCS])), ROOT) == 0
  {
    hide Create, CreateFine, Inv, PathTo, Components, Resolve, Find, TwoLevels, Sound, Name, Over, Before;
    DocsNames();
    w, d := DocsBefore();
    BeforeIs(w, d, DOCS, [120]);
    FoundIff(w, d, DOCS, [120], junk);
    BeforeFine(w, d, DOCS, [120]);
    LeftoverFind(w, d, DOCS, [120], junk, [120]);
  }

  lemma DocsNames()
    ensures Name(DOCS) && Name([120]) && DOCS != DOT && [120] != DOT && Over(DOCS, [120]) == XOCS
  {
  }
}
