/** What the left-over bytes lead to in the end: the same file is created twice. */
module Duplicates {
  import opened Bytes
  import opened Arith
  import opened Volume
  import opened Alloc
  import opened Paths
  import opened Records
  import opened Slots
  import opened Namespace
  import opened Ownership
  import opened Files
  import opened Creation
  import opened Finding
  import opened Calls
  import opened Space
  import opened Keeping
  import opened Formatted
  import opened Examples
  import opened Closing
  import opened Leftovers

  /** The block of a directory after one name was added. */
  function Grown(d: nat, ino: nat, name: seq<byte>): Block
    requires d < 0x1_0000_0000 && |name| <= NAME_LEN
  {
    RecSizeFacts(name);
    Insert(DotBlock(d), 0, ino, name)
  }

  lemma GrownIs(d: nat, ino: nat, name: seq<byte>)
    requires 0 < d < 0x1_0000_0000 && 0 < ino < 0x1_0000_0000 && 1 <= |name| <= NAME_LEN
    ensures var b := Grown(d, ino, name);
      && Tiled(b, 0) && LastOffset(b, 0) == RecSize(name) && Count(b, 0) == 2
      && NameLen(b, RecSize(name)) == |name|
      && Parse(b, 0, MAX_SUBDIRS) == [EntryAt(DotBlock(d), 0), Entry(ino, 0, name)]
  {
    DotRecord(d);
    RecSizeFacts(name);
    var o := DotBlock(d);
    assert Fits(0, name);
    hide U16, U32, Insert, PutRecord, EntryAt, Parse, DotBlock, Tiled, LastOffset, Count, RecSize;
    InsertTiled(o, ino, name);
    InsertMovesLast(o, ino, name);
    InsertListed(o, ino, name, MAX_SUBDIRS);
    InsertBytes(o, 0, ino, name);
  }

  /** It takes the same name again. */
  lemma GrownAccepts(disk: seq<Block>, x: InodeImage, d: nat, ino: nat, name: seq<byte>)
    requires 0 < d < 0x1_0000_0000 && 0 < ino < 0x1_0000_0000 && 1 <= |name| <= NAME_LEN && NoNul(name)
    requires IsDir(x) && 0 < Ptr(x, 0) < |disk| && disk[Ptr(x, 0)] == Grown(d, ino, name)
    ensures Accepts(disk, x, name)
  {
    GrownIs(d, ino, name);
    RecSizeFacts(name);
    hide Grown, Ptr, Tiled, LastOffset, Count, NoNul, Parse, RecSize, NameLen;
  }

  /** After the first creation: the directory's block, and what was taken. */
  lemma FirstTime(w: World, d: nat, first: seq<byte>, second: seq<byte>, junk: InodeImage)
    requires Before(w, d, first, second)
    ensures Inv(w) && CreateFine(w)
    ensures var (w1, p) := (Create(w, junk).0, Ptr(Image(w.fs, d), 0));
      && Mounted(w1.fs) && w1.fs.g == GEO && Image(w1.fs, d) == Image(w.fs, d) && 0 < w1.f.inodeNum < 0x1_0000_0000
      && 0 < p < |w1.fs.disk| && w1.fs.disk[p] == Grown(d, w1.f.inodeNum, second)
      && w1.tracked == {ROOT, d, w1.f.inodeNum} && TookOne(w.fs, w1.fs, w1.f.inodeNum)
  {
    hide Sane, Describes, Marked, CountsMatch, Owned, DirOk, Rows, Find, IsDir, IsFile, DirImage, DotBlock, EntryAt, InodeAt,
      List, NoFreeBlock, NoFreeInode, Ptr, PathTo, Accepts, Roomy, CanCreate, CreateIn, BaseName, ParentPath, Reserve,
      Before, Parse, Insert, FindLast, TwoLevels, Took, TwoFree, Tiled, Count, LastOffset, Good, Staged, Touches;
    CreatedSecond(w, d, first, second, junk);
    BeforeFine(w, d, first, second);
    BeforeIs(w, d, first, second);
    BeforeDir(w, d, first, second);
    AcceptsIsRoomy(w.fs.disk, Image(w.fs, d), second);
    DotRecord(d);
    TwoRows(first, second);
    CreateInSound(w, d, junk);
    var (fs3, ino) := Staged(w, d, junk);
    StagedKeeps(w, d, junk);
    StagedFirst(w, d, junk, second);
    AddTouches(fs3, w.tracked + {ino}, d, ino, second);
    SameInode(fs3, Create(w, junk).0.fs, {Ptr(Image(fs3, d), 0)}, d);
    Space.CreateLeaves(w, junk);
  }

  lemma BeforeDir(w: World, d: nat, first: seq<byte>, second: seq<byte>)
    requires Before(w, d, first, second)
    ensures Mounted(w.fs) && ValidIno(w.fs.g, d) && w.fs.g == GEO && 0 < d < 0x1_0000_0000 && d != ROOT
    ensures ValidIno(GEO, ROOT) && InoGroup(GEO, d) == 0 && TookOne(Volume0(), w.fs, d)
    ensures var p := Ptr(Image(w.fs, d), 0); 0 < p < |w.fs.disk| && w.fs.disk[p] == DotBlock(d)
  {
    hide Sane, Describes, Marked, CountsMatch, Owned, DirOk, DirImage, DotBlock, InodeAt, List, EntryAt, Ptr, TookOne;
  }

  /** Three blocks and three inodes were free on the formatted volume, so one of each is left. */
  lemma OneLeft(b: Fs, c: Fs, d: nat, ino: nat)
    requires TookOne(Volume0(), b, d) && TookOne(b, c, ino)
    ensures Mounted(c) && c.g == GEO && !NoFreeBlock(c, 0) && !NoFreeInode(c, 0)
  {
    hide Root, DotBlock, Sb, Table, Blank, Disk, Bitmaps.Bit, Describes, Sane, NoFreeBlock, NoFreeInode, Took;
    var p: nat :| Took(Volume0(), b, {p}, {d});
    var q: nat :| Took(b, c, {q}, {ino});
    TookTrans(Volume0(), b, c, {p}, {d}, {q}, {ino});
    BlockLeft(c, p, q, {d} + {ino});
    ThirdInode(c, {p} + {q}, d, ino);
  }

  lemma BlockLeft(c: Fs, p: nat, q: nat, I: set<nat>)
    requires Took(Volume0(), c, {p} + {q}, I)
    ensures Mounted(c) && c.g == GEO && !NoFreeBlock(c, 0)
  {
    hide Root, DotBlock, Sb, Table, Blank, Disk, Bitmaps.Bit, Describes, Sane, InodeUsed, BlockUsed;
    GeoIsSane();
    Mounted0();
    var i := if 6 !in {p, q} then 6 else if 7 !in {p, q} then 7 else 8;
    assert i !in {p} + {q} && 6 <= i <= 8;
    Marked0(i);
    FreeBit(c, i);
  }

  lemma FreeBit(c: Fs, i: nat)
    requires Mounted(c) && c.g == GEO && i < 16 && Mul(1, 16) == 16 && !BlockUsed(GEO, c.disk, i)
    ensures !NoFreeBlock(c, 0)
  {
    hide Bitmaps.Bit, Describes, Sane, InodeUsed, BlockUsed;
    GeoIsSane();
    assert BlockNumber(GEO, 0, i) == i;
    BitIsMark(GEO, c.disk, 0, i);
  }

  lemma ThirdInode(c: Fs, D: set<nat>, d: nat, ino: nat)
    requires Took(Volume0(), c, D, {d} + {ino})
    ensures !NoFreeInode(c, 0)
  {
    hide Root, DotBlock, Sb, Table, Blank, Disk, Bitmaps.Bit, Describes, Sane, BlockUsed;
    GeoIsSane();
    DiskBlocks();
    InodeBit(2);
    InodeBit(3);
    InodeBit(4);
    assert Volume0().disk == Disk() && Volume0().g == GEO;
    var i := if 3 !in {d, ino} then 2 else if 4 !in {d, ino} then 3 else 4;
    assert GroupOk(GEO, 0);
    assert !InodeUsed(GEO, c.disk, i + 1);
    assert !Bitmaps.Bit(c.disk[GEO.ib[0]], i);
  }

  /** The file structure after closing the new file and opening its path again: the driver finds the
      directory, so the file counts as missing. */
  ghost function Again(w1: World, d: nat): World
    requires Mounted(w1.fs) && ValidIno(w1.fs.g, d)
  {
    w1.(f := File(d, MODE_W, true, 0, 0, false, false, w1.f.path, ZERO_BLOCK, Image(w1.fs, d)))
  }

  lemma Reopens(w: World, d: nat, first: seq<byte>, second: seq<byte>, junk: InodeImage)
    requires Before(w, d, first, second) && |second| < |first|
    ensures Inv(w) && CreateFine(w) && Create(w, junk).1 == 0
    ensures var w1 := Create(w, junk).0;
      && Mounted(w1.fs) && ValidIno(w1.fs.g, d) && w1.f.path == w.f.path && Inv(Again(w1, d)) && Clean(Again(w1, d))
      && OpensTo(w1.(f := CLOSED), w.f.path, 119, Again(w1, d))
  {
    hide Sane, Describes, Marked, CountsMatch, Owned, DirOk, Rows, Find, IsDir, IsFile, DirImage, DotBlock, InodeAt,
      List, Ptr, PathTo, CanCreate, Create, Before, TwoLevels, Parsable, Resolve, Components, Over, Sound;
    FirstTime(w, d, first, second, junk);
    FoundIff(w, d, first, second, junk);
    BeforeIs(w, d, first, second);
    BeforeDir(w, d, first, second);
    BeforeKind(w, d, first, second);
    TwoRows(first, second);
    CreateInv(w, junk);
    CloseInv(Create(w, junk).0, junk);
    OpenInv(Create(w, junk).0.(f := CLOSED), w.f.path, MODE_W);
  }

  lemma BeforeKind(w: World, d: nat, first: seq<byte>, second: seq<byte>)
    requires Before(w, d, first, second)
    ensures ValidIno(w.fs.g, d) && Mounted(w.fs) && IsDir(Image(w.fs, d)) && !IsFile(Image(w.fs, d))
    ensures w.f.open && !w.f.exist && !w.f.dirty
  {
    hide Sane, Describes, Marked, CountsMatch, Owned, DirOk, DirImage, DotBlock, InodeAt, List, EntryAt, Ptr, TookOne,
      IsDir, IsFile, Attached;
    DirKind(Ptr(Image(w.fs, d), 0));
  }

  /** The second creation finds its directory and the room it needs. */
  lemma AgainFine(w: World, d: nat, first: seq<byte>, second: seq<byte>, junk: InodeImage)
    requires Before(w, d, first, second) && |second| < |first|
    ensures Inv(w) && CreateFine(w) && Mounted(Create(w, junk).0.fs) && ValidIno(Create(w, junk).0.fs.g, d)
    ensures var w3 := Again(Create(w, junk).0, d);
      && Inv(w3) && |w3.f.path| <= MAX_PATH_LEN && CanCreate(w3.fs, w3.tracked, w3.f.path) && w3.f.path == w.f.path
      && Find(w3.fs.g, w3.fs.disk, ParentPath(w3.f.path)) == d && BaseName(w3.f.path) == second
      && Accepts(w3.fs.disk, Image(w3.fs, d), second) && Roomy(w3.fs.disk, Image(w3.fs, d), second)
      && w3.fs.g == GEO && IsDir(Image(w3.fs, d))
  {
    hide Sane, Describes, Marked, CountsMatch, Owned, DirOk, Rows, Find, IsDir, IsFile, DirImage, DotBlock, InodeAt,
      List, Ptr, PathTo, Create, Before, TwoLevels, Split, Accepts, Roomy, Grown, TookOne, ParentPath, BaseName, Good, FileOk,
      EntryAt;
    FirstTime(w, d, first, second, junk);
    CreatedSecond(w, d, first, second, junk);
    Reopens(w, d, first, second, junk);
    BeforeIs(w, d, first, second);
    BeforeDir(w, d, first, second);
    BeforeKind(w, d, first, second);
    BeforeNames(w, d, first, second);
    TwoRows(first, second);
    var w1 := Create(w, junk).0;
    GrownAccepts(w1.fs.disk, Image(w1.fs, d), d, w1.f.inodeNum, second);
    AcceptsIsRoomy(w1.fs.disk, Image(w1.fs, d), second);
    FindsFirst(w1.fs, d, first);
  }

  /** It succeeds, and the directory lists the name twice. */
  lemma SecondTime(w: World, d: nat, first: seq<byte>, second: seq<byte>, junk: InodeImage, w3: World, junk3: InodeImage)
    requires Before(w, d, first, second) && |second| < |first|
    requires Inv(w) && CreateFine(w) && Mounted(Create(w, junk).0.fs) && ValidIno(Create(w, junk).0.fs.g, d)
    requires w3 == Again(Create(w, junk).0, d)
    ensures Inv(w3) && CreateFine(w3) && Create(w3, junk3).1 == 0
    ensures var (b, was, ino) := (Create(w3, junk3).0.fs, Create(w, junk).0.f.inodeNum, Create(w3, junk3).0.f.inodeNum);
      && Mounted(b) && b.g == GEO && ValidIno(GEO, ROOT) && ValidIno(GEO, ino) && ino !in {0, ROOT, d, was}
      && List(GEO, b.disk, ROOT) == [EntryAt(DotBlock(ROOT), 0), Entry(d, 0, first)]
      && List(GEO, b.disk, d) == [EntryAt(DotBlock(d), 0), Entry(was, 0, second), Entry(ino, 0, second)]
      && SamePaths(w3.fs, b, ino)
  {
    hide Sane, Describes, Marked, CountsMatch, Owned, DirOk, Rows, Find, IsDir, IsFile, DirImage, DotBlock, InodeAt,
      List, Ptr, PathTo, CanCreate, CreateIn, Before, TwoLevels, Split, Accepts, Roomy, Grown, TookOne, ParentPath, BaseName,
      EntryAt, NoFreeBlock, NoFreeInode, Reserve, Good, FileOk, SamePaths, Child, FirstLookup, Front, Preview;
    var was := Create(w, junk).0.f.inodeNum;
    AgainFine(w, d, first, second, junk);
    FirstTime(w, d, first, second, junk);
    CreatedSecond(w, d, first, second, junk);
    BeforeIs(w, d, first, second);
    BeforeDir(w, d, first, second);
    BeforeNames(w, d, first, second);
    TwoRows(first, second);
    OneLeft(w.fs, w3.fs, d, was);
    CreateSucceedsIff(w3, junk3);
    CreateInSound(w3, d, junk3);
    StagedKeeps(w3, d, junk3);
    GrownFront(w3.fs, d, was, second);
    var back := CreatedListing(w3, d, junk3);
    var front := [EntryAt(DotBlock(d), 0), Entry(was, 0, second)];
    assert (front + back)[2..] == back;
    assert back == [];
    PreviewLists(w3, d, junk3, ROOT);
    CreateExisting(w3, d, junk3);
  }

  /** What the directory lists before the second creation is its first block, and the name is there. */
  lemma GrownFront(fs: Fs, d: nat, was: nat, name: seq<byte>)
    requires Mounted(fs) && fs.g == GEO && ValidIno(GEO, d) && 0 < d < 0x1_0000_0000 && 0 < was < 0x1_0000_0000
    requires ValidIno(GEO, was) && Name(name) && name != DOT
    requires Ptr(Image(fs, d), 0) < |fs.disk| && fs.disk[Ptr(Image(fs, d), 0)] == Grown(d, was, name)
    requires List(GEO, fs.disk, d) == [EntryAt(DotBlock(d), 0), Entry(was, 0, name)]
    ensures Front(fs, d) == [EntryAt(DotBlock(d), 0), Entry(was, 0, name)]
    ensures FirstLookup(fs.disk, Image(fs, d), name) == was && Child(fs.g, fs.disk, d, name) == was
  {
    hide Sane, Describes, Ptr, Grown, List, Lookup, Parse, DotBlock, EntryAt, InodeAt, Tiled, Count, LastOffset;
    GrownIs(d, was, name);
    TwoLookup(d, was, name, name);
  }

  /** The slots of the third listing: the first name's slot keeps the left-over bytes, the second one was not
      used before. */
  lemma ThreeSeen(d: nat, was: nat, ino: nat, first: seq<byte>, second: seq<byte>)
    requires Name(first) && Name(second) && second != DOT && |second| < |first| && 0 < d < 0x1_0000_0000 && ino != 0
    ensures var top := [EntryAt(DotBlock(ROOT), 0), Entry(d, 0, first)];
      var inner := [EntryAt(DotBlock(d), 0), Entry(was, 0, second), Entry(ino, 0, second)];
      Short(top) && Short(inner) && Seen(Overlay(Fresh(), top), inner, second) == ino
  {
    hide DotBlock, EntryAt, Fresh, Overlay, Lookup, Splice, CString, NoNul, NoSlash, Over;
    DotRecord(ROOT);
    DotRecord(d);
    var top := [EntryAt(DotBlock(ROOT), 0), Entry(d, 0, first)];
    var inner := [EntryAt(DotBlock(d), 0), Entry(was, 0, second), Entry(ino, 0, second)];
    var seen := Overlay(Overlay(Fresh(), top), inner)[..3];
    DotNoNul();
    OverReads(DOT, DOT);
    OverDot();
    OverReads(first, second);
    OverName(first, second);
    CStringOf(second);
    EmptyReads(Entry(ino, 0, second));
    assert CString(seen[0].name) == DOT && CString(seen[1].name) == Over(first, second);
    assert CString(seen[2].name) == second && seen[2].ino == ino;
    LookupHit(seen, 2, second);
  }

  /** The path still resolves to the first inode, and the driver finds the second. */
  lemma SecondFound(w: World, d: nat, first: seq<byte>, second: seq<byte>, junk: InodeImage, w3: World, junk3: InodeImage)
    requires Before(w, d, first, second) && |second| < |first|
    requires Inv(w) && CreateFine(w) && Mounted(Create(w, junk).0.fs) && ValidIno(Create(w, junk).0.fs.g, d)
    requires w3 == Again(Create(w, junk).0, d)
    ensures Inv(w3) && CreateFine(w3) && Create(w3, junk3).1 == 0
    ensures var (b, was, ino) := (Create(w3, junk3).0.fs, Create(w, junk).0.f.inodeNum, Create(w3, junk3).0.f.inodeNum);
      && SamePaths(w3.fs, b, ino) && Mounted(b) && ValidIno(b.g, ROOT)
      && Resolve(b.g, b.disk, Components(w.f.path), ROOT) == was
      && Find(b.g, b.disk, w.f.path) == ino
  {
    hide Sane, Describes, Before, Create, CanCreate, Sound, FileOk, PathTo, Over, Components, Resolve, Walk, List, TwoLevels,
      OpensTo, EntryAt, DotBlock, Fresh, InodeAt;
    SecondTime(w, d, first, second, junk, w3, junk3);
    Reopens(w, d, first, second, junk);
    FoundIff(w, d, first, second, junk);
    BeforeIs(w, d, first, second);
    BeforeNames(w, d, first, second);
    TwoRows(first, second);
    DuplicateWalk(Create(w3, junk3).0.fs, d, Create(w, junk).0.f.inodeNum, Create(w3, junk3).0.f.inodeNum, first, second);
  }

  /** Closing the missing file adds the regular file `ino` to the tracked inodes. */
  ghost predicate ClosesAdding(w: World, junk: InodeImage, w2: World, ino: nat) {
    && ClosesTo(w, junk, w2) && ino !in w.tracked && w2.tracked == w.tracked + {ino}
    && Mounted(w2.fs) && ValidIno(w2.fs.g, ino) && NewFile(Image(w2.fs, ino))
  }

  lemma ClosingAdds(w: World, junk: InodeImage)
    requires Inv(w) && !w.f.dirty && w.f.open && !w.f.exist && CreateFine(w) && Create(w, junk).1 == 0
    ensures var w1 := Create(w, junk).0; ClosesAdding(w, junk, w1.(f := CLOSED), w1.f.inodeNum)
  {
    hide CreateFine, HasPlace, Create, Image, NewFile, RecordAdded, TakesListed, SameList, Find, Sound, FileOk, IsFile,
      IsDir, Attached, SectorsToBlocks, Close, Accepts;
    CreateCall(w, junk);
    PlaceShort(w);
    CloseOfCreate(w, junk);
  }

  /** Creating "/docs/x" twice: when a new file's name is shorter than its directory's, opening its path again
      for writing finds the directory, so closing creates a second file of the name. The path still resolves to
      the first inode and no path to the second, which is the one that the driver finds from then on. */
  lemma CreatedTwice(w: World, d: nat, first: seq<byte>, second: seq<byte>, junk: InodeImage, junk3: InodeImage)
      returns (w2: World, w3: World, w4: World, was: nat, ino: nat)
    requires Before(w, d, first, second) && |second| < |first|
    ensures ClosesAdding(w, junk, w2, was) && OpensTo(w2, w.f.path, 119, w3) && ClosesAdding(w3, junk3, w4, ino)
    ensures ino != was && SamePaths(w2.fs, w4.fs, ino) && ValidIno(w4.fs.g, ROOT)
    ensures Resolve(w4.fs.g, w4.fs.disk, Components(w.f.path), ROOT) == was
    ensures Find(w4.fs.g, w4.fs.disk, w.f.path) == ino
  {
    hide Before, Create, Sound, FileOk, PathTo, Over, Components, Resolve, Find, List, TwoLevels,
      ClosesAdding, SamePaths, OpensTo, InodeAt, CanCreate;
    CreatedSecond(w, d, first, second, junk);
    BeforeKind(w, d, first, second);
    ClosingAdds(w, junk);
    Reopens(w, d, first, second, junk);
    w2 := Create(w, junk).0.(f := CLOSED);
    was := Create(w, junk).0.f.inodeNum;
    w3 := Again(Create(w, junk).0, d);
    SecondFound(w, d, first, second, junk, w3, junk3);
    ClosingAdds(w3, junk3);
    w4 := Create(w3, junk3).0.(f := CLOSED);
    ino := Create(w3, junk3).0.f.inodeNum;
    NotTwice(w, junk, w2, was, w3, junk3, w4, ino);
  }

  lemma NotTwice(w: World, junk: InodeImage, w2: World, was: nat, w3: World, junk3: InodeImage, w4: World, ino: nat)
    requires ClosesAdding(w, junk, w2, was) && ClosesAdding(w3, junk3, w4, ino) && w3.tracked == w2.tracked
    ensures ino != was && Mounted(w4.fs)
  {
    hide ClosesTo, NewFile, Image;
  }

  lemma DuplicateWalk(b: Fs, d: nat, was: nat, ino: nat, first: seq<byte>, second: seq<byte>)
    requires Mounted(b) && b.g == GEO && ValidIno(GEO, ROOT) && ValidIno(GEO, d) && ValidIno(GEO, ino)
    requires d != ROOT && ino !in {0, ROOT, d, was} && 0 < d < 0x1_0000_0000
    requires Name(first) && Name(second) && first != DOT && second != DOT && |second| < |first|
    requires List(GEO, b.disk, ROOT) == [EntryAt(DotBlock(ROOT), 0), Entry(d, 0, first)]
    requires List(GEO, b.disk, d) == [EntryAt(DotBlock(d), 0), Entry(was, 0, second), Entry(ino, 0, second)]
    ensures Walk(GEO, b.disk, [first, second], ROOT, Fresh()) == ino
  {
    hide Sane, Describes, DotBlock, EntryAt, InodeAt, List, Fresh, Overlay, Lookup, Seen;
    var comps := [first, second];
    assert comps[1..] == [second] && [second][1..] == [];
    TwoLookup(ROOT, d, first, first);
    FreshSees(List(GEO, b.disk, ROOT), first);
    ThreeSeen(d, was, ino, first, second);
    var slots := Overlay(Fresh(), List(GEO, b.disk, ROOT));
    assert SeenChild(GEO, b.disk, ROOT, Fresh(), first) == d;
    assert SeenChild(GEO, b.disk, d, slots, second) == ino;
    assert Walk(GEO, b.disk, [second], d, slots) == ino;
  }

  /** The input: "/docs/x" opened for writing and closed, twice. */
  lemma DocsTwice(junk: InodeImage, junk3: InodeImage)
      returns (w: World, w2: World, w3: World, w4: World, was: nat, ino: nat)
    ensures w.f.path == [47, 100, 111, 99, 115, 47, 120]
    ensures ClosesAdding(w, junk, w2, was) && OpensTo(w2, w.f.path, 119, w3) && ClosesAdding(w3, junk3, w4, ino)
    ensures ino != was && ValidIno(w4.fs.g, ROOT)
    ensures Resolve(w4.fs.g, w4.fs.disk, Components(w.f.path), ROOT) == was
    ensures Find(w4.fs.g, w4.fs.disk, w.f.path) == ino
  {
    hide Before, Sound, FileOk, PathTo, Components, Resolve, Find, Name, ClosesAdding, OpensTo, TwoLevels;
    var d;
    w, d := DocsBefore();
    DocsNames();
    BeforeIs(w, d, DOCS, [120]);
    DocsPath();
    w2, w3, w4, was, ino := CreatedTwice(w, d, DOCS, [120], junk, junk3);
  }

  lemma DocsPath()
    ensures PathTo([DOCS, [120]]) == [47, 100, 111, 99, 115, 47, 120]
  {
    var rows := [[], DOCS, [120]];
    assert [[]] + [DOCS, [120]] == rows && rows[..2] == [[], DOCS] && [[], DOCS][..1] == [[]];
    assert Join([[], DOCS]) == [] + [SLASH] + DOCS;
  }
}
