/** What each call does, branch by branch: its code, the file structure, and what is on the volume. */
module Closing {
  import opened Bytes
  import opened Arith
  import opened Volume
  import opened Alloc
  import opened Paths
  import opened Records
  import opened Slots
  import opened Namespace
  import opened Ownership
  import opened Files
  import opened Creation
  import opened Finding
  import opened Space
  import opened Writing
  import opened Session
  import opened Refinement
  import opened Calls
  import opened Keeping
  import opened Layout

  /** The structure of a file that is not open. */
  predicate Blanked(f: File) {
    f == File(0, 0, false, 0, 0, false, false, [], Zeros(4096), Zeros(128))
  }

  /** The bytes of a new regular file: type word 0x81A4, size 0, one link, eight sectors. */
  predicate NewFile(x: InodeImage) {
    && x[0] == 0xA4 && x[1] == 0x81 && x[4] == x[5] == x[6] == x[7] == 0
    && x[26] == 1 && x[27] == 0 && x[28] == 8 && x[29] == x[30] == x[31] == 0
  }

  /** The parent is a directory with room for the record, and its group has a free inode and block. */
  ghost predicate HasPlace(w: World)
    requires Inv(w) && CreateFine(w)
  {
    |w.f.path| <= 4096 &&
    var d := Find(w.fs.g, w.fs.disk, ParentPath(w.f.path));
    && IsDir(Image(w.fs, d)) && Roomy(w.fs.disk, Image(w.fs, d), BaseName(w.f.path))
    && !NoFreeInode(w.fs, InoGroup(w.fs.g, d)) && !NoFreeBlock(w.fs, InoGroup(w.fs.g, d))
  }

  /** The volume has gained one regular file, inode `ino`, and its record in directory `d`. */
  ghost predicate FileAdded(a: Fs, T: set<nat>, b: Fs, U: set<nat>, d: nat, name: seq<byte>, ino: nat) {
    && Mounted(a) && Mounted(b) && b.g == a.g && ValidIno(a.g, d) && ValidIno(a.g, ino)
    && ino !in T && U == T + {ino} && NewFile(Image(b, ino))
    && Image(b, d) == Image(a, d)
    && RecordAdded(a.disk, b.disk, Ptr(Image(a, d), 0), name, ino)
    && (TakesListed(a, d) ==> Entry(ino, 0, name) in List(b.g, b.disk, d))
    && (Accepts(a.disk, Image(a, d), name) && |List(a.g, a.disk, d)| < 128 && Lookup(List(a.g, a.disk, d), name) == 0 ==>
          Child(b.g, b.disk, d, name) == ino)
    && forall n :: n in T && n != d ==> SameList(a, b, n) && Untouched(a, b, n)
  }

  /** The record lies behind the old last one, at twice its offset and the size of the new one. */
  predicate RecordAdded(a: seq<Block>, b: seq<Block>, p: nat, name: seq<byte>, ino: nat) {
    && p < |a| && p < |b| && FindLast(a[p], 0, 0) >= 0
    && var q := 2 * FindLast(a[p], 0, 0) + (8 + |name| + 3) / 4 * 4;
       q + 8 <= 4096 && Inside(b[p], q) && EntryAt(b[p], q) == Entry(ino, 0, name)
  }

  /** The directory's first block is tiled by records and not full. */
  ghost predicate TakesListed(a: Fs, d: nat)
    requires Mounted(a) && ValidIno(a.g, d)
  {
    var p := Ptr(Image(a, d), 0);
    p < |a.disk| && Tiled(a.disk[p], 0) && Count(a.disk[p], 0) < 128
  }

  /** Nothing that the driver can name has changed. */
  ghost predicate Unchanged(a: Fs, T: set<nat>, b: Fs, U: set<nat>) {
    && (T <= U) && forall n :: n in T ==> SameList(a, b, n) && Untouched(a, b, n)
  }

  // Creating, as the calls see it.

  lemma NewIsFile(junk: InodeImage, blk: nat)
    ensures NewFile(NewInode(junk, blk))
  {
    NewInodeBytes(junk, blk);
  }

  /** The record of an entry added to a directory. */
  lemma AddedRecord(disk: seq<Block>, x: InodeImage, ino: nat, name: seq<byte>)
    requires Roomy(disk, x, name) && 0 < ino < 0x1_0000_0000
    ensures RecordAdded(disk, Added(disk, x, ino, name), Ptr(x, 0), name, ino)
  {
    hide Spaced, Ptr, FindLast, Insert, U16, U32;
    var b := disk[Ptr(x, 0)];
    InsertBytes(b, FindLast(b, 0, 0), ino, name);
  }

  lemma AddedIsListed(disk: seq<Block>, x: InodeImage, ino: nat, name: seq<byte>)
    requires Roomy(disk, x, name) && 0 < ino < 0x1_0000_0000
    requires SameDirBlocks(disk, Added(disk, x, ino, name), x, 1)
    requires Ptr(x, 0) < |disk| && Tiled(disk[Ptr(x, 0)], 0) && Count(disk[Ptr(x, 0)], 0) < 128
    ensures Entry(ino, 0, name) in ListFrom(Added(disk, x, ino, name), x, 0, MAX_SUBDIRS)
  {
    hide Spaced, Ptr, Tiled, Count, ListFrom, SameDirBlocks, FindLast, Insert, U16, U32, Parse, Added, EntryAt;
    var b := disk[Ptr(x, 0)];
    RecSizeFacts(name);
    AddedLists(disk, x, ino, name);
    InMiddle(Swapped(Parse(b, 0, MAX_SUBDIRS), Count(b, 0) - 1,
                     Entry(RecInode(b, LastOffset(b, 0)), b[LastOffset(b, 0) + 7], Misread(b, LastOffset(b, 0), ino, name))),
             Entry(ino, 0, name), Take(Others(disk, x), MAX_SUBDIRS - Count(b, 0) - 1));
  }

  lemma InMiddle(a: seq<Entry>, e: Entry, b: seq<Entry>)
    ensures e in a + [e] + b
  {
    assert (a + [e] + b)[|a|] == e;
  }

  lemma CreateInGives(w: World, d: nat, junk: InodeImage)
    requires Sound(w.fs, w.tracked) && ValidIno(w.fs.g, d) && |Rows(w.f.path)| > 0
    requires IsDir(Image(w.fs, d)) && d in w.tracked && Roomy(w.fs.disk, Image(w.fs, d), BaseName(w.f.path))
    requires CreateIn(w, d, junk).1 == 0
    ensures var w2 := CreateIn(w, d, junk).0;
      && FileAdded(w.fs, w.tracked, w2.fs, w2.tracked, d, BaseName(w.f.path), w2.f.inodeNum)
      && w2.f.inode == Image(w2.fs, w2.f.inodeNum)
  {
    hide Sane, Describes, Marked, CountsMatch, BlockUsed, InodeUsed, Mul, InodeAt, IsDir, Attached, Ptr, DirOk, Owned,
      Reserve, NewInode, Roomy, DirFull, AddEntry, Rows, Added, PutInode, Staged, ListFrom, BaseName, RecordAdded, NewFile,
      Tiled, Count, Untouched, SameDirBlocks, Accepts, Child, Lookup;
    var w2, name := CreateIn(w, d, junk).0, BaseName(w.f.path);
    CreateInSound(w, d, junk);
    StagedKeeps(w, d, junk);
    StagedFirst(w, d, junk, name);
    StagedDir(w, d, junk, d);
    var (fs3, ino) := Staged(w, d, junk);
    var T := w.tracked + {ino};
    AddTouches(fs3, T, d, ino, name);
    FirstBlock(fs3, T, d, name);
    AddedRecord(fs3.disk, Image(fs3, d), ino, name);
    if TakesListed(fs3, d) {
      AddedIsListed(fs3.disk, Image(fs3, d), ino, name);
    }
    SameInode(fs3, w2.fs, {Ptr(Image(fs3, d), 0)}, d);
    SameInode(fs3, w2.fs, {Ptr(Image(fs3, d), 0)}, ino);
    StagedInode(w, d, junk);
    NameLeads(w, d, junk);
    RecordSame(w.fs.disk, fs3.disk, w2.fs.disk, Ptr(Image(w.fs, d), 0), name, ino);
    forall n | n in w.tracked && n != d
      ensures SameList(w.fs, w2.fs, n) && Untouched(w.fs, w2.fs, n)
    {
      StagedDir(w, d, junk, n);
      OtherList(fs3, T, d, ino, name, n);
      CreateIsolated(w, d, junk, n);
    }
  }

  /** A new name leads to the new inode. */
  lemma NameLeads(w: World, d: nat, junk: InodeImage)
    requires Sound(w.fs, w.tracked) && ValidIno(w.fs.g, d) && |Rows(w.f.path)| > 0 && d in w.tracked
    requires CreateIn(w, d, junk).1 == 0
    ensures var (w2, name) := (CreateIn(w, d, junk).0, BaseName(w.f.path));
      Accepts(w.fs.disk, Image(w.fs, d), name) && |List(w.fs.g, w.fs.disk, d)| < 128
      && Lookup(List(w.fs.g, w.fs.disk, d), name) == 0 ==>
        Mounted(w2.fs) && w2.fs.g == w.fs.g && Child(w2.fs.g, w2.fs.disk, d, name) == w2.f.inodeNum
  {
    hide Sane, Describes, Marked, CountsMatch, Mul, InodeAt, IsDir, DirOk, Owned, Accepts, Rows, CreateIn, List, Lookup,
      BaseName, FirstLookup, Child;
    var name := BaseName(w.f.path);
    if Accepts(w.fs.disk, Image(w.fs, d), name) && |List(w.fs.g, w.fs.disk, d)| < 128
      && Lookup(List(w.fs.g, w.fs.disk, d), name) == 0 {
      CreatedAdded(w, d, junk);
      AcceptsDir(w.fs.disk, Image(w.fs, d), name);
      NewIsNotFirst(w.fs, d, name);
      assert AddedAt(w.fs, CreateIn(w, d, junk).0.fs, d, CreateIn(w, d, junk).0.f.inodeNum, name, d);
    }
  }

  lemma RecordSame(a: seq<Block>, b: seq<Block>, c: seq<Block>, p: nat, name: seq<byte>, ino: nat)
    requires RecordAdded(b, c, p, name, ino) && p < |a| && a[p] == b[p]
    ensures RecordAdded(a, c, p, name, ino)
  {
    hide FindLast, U16, U32;
  }

  lemma StagedInode(w: World, d: nat, junk: InodeImage)
    requires Sound(w.fs, w.tracked) && ValidIno(w.fs.g, d)
    requires Reserve(w.fs, InoGroup(w.fs.g, d)).2 != 0
    ensures var ((fs3, ino), blk) := (Staged(w, d, junk), Reserve(w.fs, InoGroup(w.fs.g, d)).2);
      && Mounted(fs3) && ValidIno(fs3.g, ino) && ino == Reserve(w.fs, InoGroup(w.fs.g, d)).1
      && Image(fs3, ino) == NewInode(junk, blk) && NewFile(Image(fs3, ino))
  {
    hide Sane, Describes, Marked, CountsMatch, BlockUsed, InodeUsed, Mul, InodeAt, DirOk, Owned, Reserve, NewInode,
      PutInode, NewFile;
    var k := InoGroup(w.fs.g, d);
    ReserveKeeps(w.fs, k);
    ReserveMounted(w.fs, k);
    var (r, ino, blk) := Reserve(w.fs, k);
    SetInodeTouches(r, ino, NewInode(junk, blk));
    NewIsFile(junk, blk);
  }

  /** What creating the open file does, exactly when it succeeds, and otherwise. */
  lemma CreateCall(w: World, junk: InodeImage)
    requires Inv(w) && w.f.open && !w.f.exist && CreateFine(w)
    ensures var (w2, err) := Create(w, junk);
      && Inv(w2) && (err == 0 <==> HasPlace(w)) && err <= 1
      && w2.f == w.f.(inodeNum := w2.f.inodeNum, inode := w2.f.inode, exist := HasPlace(w))
      && (if HasPlace(w) then Usable(w2) && AddedBy(w, w2, w2.f.inodeNum) && w2.f.inode == Image(w2.fs, w2.f.inodeNum)
          else Unchanged(w.fs, w.tracked, w2.fs, w2.tracked))
  {
    hide Sane, Describes, Marked, CountsMatch, Mul, InodeAt, IsDir, DirOk, Owned, Roomy, DirFull, Rows, CreateIn, NoFreeInode,
      NoFreeBlock, Parsable, Find, FileOk, FileAdded, SameList, Untouched, BaseName, ParentPath, Attached, LowerSize;
    CreateInv(w, junk);
    if |w.f.path| <= 4096 {
      var d := Find(w.fs.g, w.fs.disk, ParentPath(w.f.path));
      CreateSucceedsIff(w, junk);
      CreateInCode(w, d, junk);
      if HasPlace(w) {
        CreateInGives(w, d, junk);
      } else {
        FailedUnchanged(w, d, junk);
      }
    } else {
      UnchangedSelf(w);
    }
  }

  /** The file was added to the directory that the parent's path leads to, under the last component. */
  ghost predicate AddedBy(w: World, w2: World, ino: nat)
    requires Inv(w) && CreateFine(w) && |w.f.path| <= 4096
  {
    FileAdded(w.fs, w.tracked, w2.fs, w2.tracked, Find(w.fs.g, w.fs.disk, ParentPath(w.f.path)), BaseName(w.f.path), ino)
  }

  lemma CreateInCode(w: World, d: nat, junk: InodeImage)
    requires Sound(w.fs, w.tracked) && ValidIno(w.fs.g, d) && |Rows(w.f.path)| > 0
    requires IsDir(Image(w.fs, d)) ==>
      d in w.tracked && (DirFull(w.fs.disk, Image(w.fs, d)) || Roomy(w.fs.disk, Image(w.fs, d), BaseName(w.f.path)))
    ensures CreateIn(w, d, junk).1 <= 1
  {
    hide CreateIn;
    CreatedInode(w, d, junk);
  }

  lemma UnchangedSelf(w: World)
    requires Inv(w)
    ensures Unchanged(w.fs, w.tracked, w.fs, w.tracked)
  {
    hide Sane, Describes, Marked, CountsMatch, Mul, InodeAt, DirOk, Owned, List, FileOk;
    forall n | n in w.tracked
      ensures SameList(w.fs, w.fs, n) && Untouched(w.fs, w.fs, n)
    {
      Tracked(w.fs, w.tracked, n);
    }
  }

  lemma FailedUnchanged(w: World, d: nat, junk: InodeImage)
    requires Sound(w.fs, w.tracked) && ValidIno(w.fs.g, d) && |Rows(w.f.path)| > 0
    requires IsDir(Image(w.fs, d)) ==>
      d in w.tracked && (DirFull(w.fs.disk, Image(w.fs, d)) || Roomy(w.fs.disk, Image(w.fs, d), BaseName(w.f.path)))
    requires CreateIn(w, d, junk).1 != 0
    ensures Unchanged(w.fs, w.tracked, CreateIn(w, d, junk).0.fs, CreateIn(w, d, junk).0.tracked)
  {
    hide Sane, Describes, Marked, CountsMatch, Mul, InodeAt, IsDir, DirOk, Owned, Rows, CreateIn, Roomy, DirFull, SameList,
      Untouched, BaseName;
    FailedTracks(w, d, junk);
    forall n | n in w.tracked
      ensures SameList(w.fs, CreateIn(w, d, junk).0.fs, n) && Untouched(w.fs, CreateIn(w, d, junk).0.fs, n)
    {
      FailedLists(w, d, junk, n);
      FailedBytes(w, d, junk, n);
    }
  }

  lemma FailedTracks(w: World, d: nat, junk: InodeImage)
    requires Sound(w.fs, w.tracked) && ValidIno(w.fs.g, d) && |Rows(w.f.path)| > 0
    ensures w.tracked <= CreateIn(w, d, junk).0.tracked
  {
    hide Sane, Describes, Marked, CountsMatch, Mul, InodeAt, IsDir, DirOk, Owned, Rows, Reserve, AddEntry, NewInode, PutInode;
  }

  /** A failed creation leaves every tracked inode and its contents alone, the parent's included. */
  lemma FailedBytes(w: World, d: nat, junk: InodeImage, n: nat)
    requires Sound(w.fs, w.tracked) && ValidIno(w.fs.g, d) && |Rows(w.f.path)| > 0 && n in w.tracked
    requires IsDir(Image(w.fs, d)) ==>
      d in w.tracked && (DirFull(w.fs.disk, Image(w.fs, d)) || Roomy(w.fs.disk, Image(w.fs, d), BaseName(w.f.path)))
    requires CreateIn(w, d, junk).1 != 0
    ensures Untouched(w.fs, CreateIn(w, d, junk).0.fs, n)
  {
    hide Sane, Describes, Marked, CountsMatch, BlockUsed, InodeUsed, Mul, InodeAt, IsDir, DirOk, Owned, Reserve, NewInode,
      Roomy, DirFull, Rows, PutInode, AddEntry, List, Touches, Staged, BaseName, Attached, Ptr, Untouched;
    var k := InoGroup(w.fs.g, d);
    Tracked(w.fs, w.tracked, n);
    CreateInSound(w, d, junk);
    ReserveKeeps(w.fs, k);
    ReserveMounted(w.fs, k);
    var (r, ino, blk) := Reserve(w.fs, k);
    if !IsDir(Image(w.fs, d)) {
      TouchesSelf(w.fs, {});
      KeptByTouches(w.fs, w.fs, w.tracked, {}, {}, n);
    } else if blk == 0 {
      KeptByTouches(w.fs, r, w.tracked, {}, {}, n);
    } else {
      StagedKeeps(w, d, junk);
      KeptByTouches(w.fs, Staged(w, d, junk).0, w.tracked, {}, {ino}, n);
    }
  }

  // Closing.

  /** Closing a missing file creates it when there is a place for it, and otherwise leaves everything that has
      a name as it was; the code is 0 and the structure is cleared in both cases. */
  lemma CloseMissing(w: World, junk: InodeImage)
    requires Inv(w) && Clean(w) && w.f.open && !w.f.exist && CreateFine(w)
    ensures var (w2, err) := Close(w, junk);
      && Inv(w2) && err == 0 && Blanked(w2.f)
      && (if HasPlace(w) then exists ino :: AddedBy(w, w2, ino)
          else Unchanged(w.fs, w.tracked, w2.fs, w2.tracked))
  {
    hide Sound, FileOk, CanCreate, HasPlace, Create, AddedBy, Unchanged, IsFile, IsDir, Attached, SectorsToBlocks, Flush;
    CreateCall(w, junk);
    CloseInv(w, junk);
    var w1 := Create(w, junk).0;
    if HasPlace(w) {
      PlaceShort(w);
      assert AddedBy(w, Close(w, junk).0, w1.f.inodeNum) by { AddedSame(w, w1, Close(w, junk).0, w1.f.inodeNum); }
    }
  }

  lemma PlaceShort(w: World)
    requires Inv(w) && CreateFine(w) && HasPlace(w)
    ensures |w.f.path| <= 4096
  {
  }

  /** What is left after closing a file that could be created. */
  lemma CloseOfCreate(w: World, junk: InodeImage)
    requires Inv(w) && !w.f.dirty && w.f.open && !w.f.exist && CreateFine(w) && Create(w, junk).1 == 0
    ensures Close(w, junk) == (Create(w, junk).0.(f := CLOSED), 0)
  {
    hide Sound, FileOk, CanCreate, Create, IsFile, IsDir, Attached, SectorsToBlocks, Flush;
    CreateInv(w, junk);
  }

  lemma AddedSame(w: World, w1: World, w2: World, ino: nat)
    requires Inv(w) && CreateFine(w) && |w.f.path| <= 4096 && AddedBy(w, w1, ino)
    requires w2.fs == w1.fs && w2.tracked == w1.tracked
    ensures AddedBy(w, w2, ino)
  {
    hide Inv, CreateFine, FileAdded;
  }

  /** Closing when nothing is open is an error and does nothing. Closing an existing file leaves the volume as
      it is. */
  lemma CloseExists(w: World, junk: InodeImage)
    requires Inv(w) && Clean(w) && (w.f.open ==> w.f.exist)
    ensures var (w2, err) := Close(w, junk);
      && w2.fs == w.fs && w2.tracked == w.tracked && Blanked(w2.f) && err == (if w.f.open then 0 else 1)
  {
    hide Sound, IsFile, IsDir, Attached, SectorsToBlocks, Flush, Create;
    CloseInv(w, junk);
  }

  // Opening.

  /** Opening: nothing while a file is open or for too long a path. Otherwise the file is opened exactly when
      the mode is 'w' or what the driver finds under the path is a regular file; it exists in the second case
      only. The volume is not touched, and a refused call changes nothing. */
  lemma OpenCall(w: World, path: seq<byte>, mode: byte)
    requires Inv(w) && CanOpen(w, path)
    ensures w.f.open || |path| > 4096 ==> Open(w, path, mode) == w
    ensures !w.f.open && |path| <= 4096 ==>
      var (w2, n) := (Open(w, path, mode), Find(w.fs.g, w.fs.disk, path));
      var there := Image(w.fs, n)[1] >= 128;
      && (w2.f.open <==> mode == 119 || there)
      && w2.fs == w.fs && w2.tracked == w.tracked
      && (w2.f.open ==> w2.f == File(n, mode, true, 0, 0, false, there, path, Zeros(4096), Image(w.fs, n)))
      && (!w2.f.open ==> w2 == w)
  {
    hide Sane, Describes, Marked, CountsMatch, Mul, InodeAt, Find, DirOk, Owned, SectorsToBlocks, Attached, IsFile, Parsable,
      FileOk;
    if !w.f.open && |path| <= 4096 {
      InodeKind(Image(w.fs, Find(w.fs.g, w.fs.disk, path)));
    }
  }

  // Writing.

  /** A write when nothing is open, or of more than a block, is an error and does nothing. Any other write to an
      existing file succeeds when it stays in one block, or finds its second block, or can attach one; the contents
      then hold the data at the position, which stays. */
  lemma WriteExists(w: World, data: seq<byte>, junk: InodeImage)
    requires Inv(w) && Clean(w) && WriteFine(w, data) && (w.f.open ==> w.f.exist)
    ensures !w.f.open || |data| > 4096 ==> Write(w, data, junk) == (w, 1)
    ensures w.f.open && |data| <= 4096 ==>
      var (w2, err) := Write(w, data, junk);
      && err <= 1 && w2.tracked == w.tracked && w2.f.open && w2.f.exist && w2.f.pos == w.f.pos
      && (err == 0 <==> w.f.pos % 4096 + |data| <= 4096 || w.f.pos / 4096 + 1 < Attached(w.f.inode)
                        || (Attached(w.f.inode) < 12 && FreeIn(w)))
      && (err == 0 ==> w.f.pos + |data| <= |Content(w2)| && Content(w2)[w.f.pos..w.f.pos + |data|] == data)
  {
    hide Sane, Describes, Marked, CountsMatch, DirOk, Owned, Create, Attached, WriteExisting, IsFile, IsDir,
      SectorsToBlocks, NoFreeBlock, ByteAt, Content, Mul;
    if w.f.open && |data| <= 4096 {
      WriteSucceedsIff(w, data);
      WriteTouches(w, data);
      if WriteExisting(w, data).1 == 0 {
        WriteLength(w, data);
        UsableAttached(w);
        LengthCovers(|Content(w)|, w.f.pos, |data|);
        WrittenContent(w, data, WriteExisting(w, data).0);
      }
    }
  }

  /** The group of the open file's inode has a free block among the scanned bits. */
  ghost predicate FreeIn(w: World)
    requires Inv(w)
  {
    ValidIno(w.fs.g, w.f.inodeNum) && !NoFreeBlock(w.fs, InoGroup(w.fs.g, w.f.inodeNum))
  }

  /** A write to a missing file creates it first: without a place for it nothing happens; a write of more than a
      block fails after the creation; any other write succeeds. */
  lemma WriteMissing(w: World, data: seq<byte>, junk: InodeImage)
    requires Inv(w) && Clean(w) && WriteFine(w, data) && w.f.open && !w.f.exist
    ensures CreateFine(w)
    ensures var (w2, err) := Write(w, data, junk);
      && (err == 0 <==> HasPlace(w) && |data| <= 4096) && err <= 1 && w2.f.open && w2.f.pos == 0
      && (w2.f.exist <==> HasPlace(w))
      && (!HasPlace(w) ==> Unchanged(w.fs, w.tracked, w2.fs, w2.tracked))
      && (HasPlace(w) && |data| > 4096 ==> AddedBy(w, w2, w2.f.inodeNum))
      && (err == 0 ==>
            && w2.f.inodeNum !in w.tracked && w2.tracked == w.tracked + {w2.f.inodeNum}
            && LowerSize(w2.f.inode) == |data| && |data| <= |Content(w2)| && Content(w2)[..|data|] == data)
  {
    hide Sound, Create, CanCreate, HasPlace, AddedBy, Unchanged, Attached, WriteExisting, IsFile, IsDir, SectorsToBlocks, LowerSize,
      Content;
    CreateCall(w, junk);
    var w1 := Create(w, junk).0;
    if HasPlace(w) {
      PlaceShort(w);
      AddedNumbers(w, w1, w1.f.inodeNum);
      if |data| <= 4096 {
        FirstWriteIs(w1, data);
      }
    }
  }

  lemma AddedNumbers(w: World, w1: World, ino: nat)
    requires Inv(w) && CreateFine(w) && |w.f.path| <= 4096 && AddedBy(w, w1, ino)
    ensures ino !in w.tracked && w1.tracked == w.tracked + {ino} && Mounted(w1.fs) && ValidIno(w1.fs.g, ino)
    ensures LowerSize(Image(w1.fs, ino)) == 0
  {
    hide Inv, CreateFine, Image, RecordAdded, TakesListed, SameList, Untouched, Find;
    NewIsEmpty(Image(w1.fs, ino));
  }

  lemma NewIsEmpty(x: InodeImage)
    requires NewFile(x)
    ensures LowerSize(x) == 0
  {
  }

  lemma FirstWriteIs(w: World, data: seq<byte>)
    requires Usable(w) && w.f.pos == 0 && LowerSize(w.f.inode) == 0 && |data| <= 4096
    ensures var (w2, err) := WriteExisting(w, data);
      && err == 0 && w2.tracked == w.tracked && w2.f.open && w2.f.exist && w2.f.pos == 0 && w2.f.inodeNum == w.f.inodeNum
      && LowerSize(w2.f.inode) == |data| && |data| <= |Content(w2)| && Content(w2)[..|data|] == data
  {
    hide Inv, Attached, WriteExisting, NoFreeBlock, LowerSize, Content, ByteAt;
    WriteSucceedsIff(w, data);
    WriteTouches(w, data);
    WriteInode(w, data);
    WriteLength(w, data);
    UsableAttached(w);
    WrittenContent(w, data, WriteExisting(w, data).0);
  }

  // Seeking.

  /** A seek when nothing is open is an error, and one to the position of the file succeeds; neither does anything.
      Any other seek in an existing file moves the position, also when it fails; it succeeds when the position is in
      an attached block or a block can be attached. */
  lemma SeekExists(w: World, p: nat, junk: InodeImage)
    requires Inv(w) && Clean(w) && SeekFine(w, p) && (w.f.open ==> w.f.exist || p == w.f.pos)
    ensures !w.f.open || p == w.f.pos ==> Seek(w, p, junk) == (w, if w.f.open then 0 else 1)
    ensures w.f.open && p != w.f.pos ==>
      var (w2, err) := Seek(w, p, junk);
      && err <= 1 && w2.f.open && w2.f.exist && w2.f.pos == p && w2.tracked == w.tracked && Clean(w2)
      && (err == 0 <==> p / 4096 < Attached(w.f.inode) || (Attached(w.f.inode) < 12 && FreeIn(w)))
  {
    hide Sound, FileOk, Create, Attached, SeekExisting, IsFile, IsDir, SectorsToBlocks, NoFreeBlock;
    if w.f.open && p != w.f.pos {
      SeekSucceedsIff(w, p);
      SeekInv(w, p);
      SeekTouches(w, p);
      SeekCode(w, p);
    }
  }

  lemma SeekCode(w: World, p: nat)
    requires Inv(w) && w.f.open && w.f.exist && p < 0x1_0000_0000
    ensures SeekExisting(w, p).1 <= 1
  {
    hide Sane, Describes, Marked, CountsMatch, Mul, InodeAt, Ptr, IsData, Attached, Sound, Moved, AttachNew;
    MovedInv(w, p);
  }

  /** A seek in a missing file creates it first; without a place for it nothing happens and the position stays.
      The code is 0 when the position is in the first block or a second free block is left. */
  lemma SeekMissing(w: World, p: nat, junk: InodeImage)
    requires Inv(w) && Clean(w) && SeekFine(w, p) && w.f.open && !w.f.exist && p != w.f.pos
    ensures CreateFine(w)
    ensures var (w2, err) := Seek(w, p, junk);
      && err <= 1 && w2.f.open && (w2.f.exist <==> HasPlace(w)) && w2.f.pos == (if HasPlace(w) then p else w.f.pos)
      && (!HasPlace(w) ==> err == 1 && Unchanged(w.fs, w.tracked, w2.fs, w2.tracked))
      && (HasPlace(w) ==>
            && w2.f.inodeNum !in w.tracked && w2.tracked == w.tracked + {w2.f.inodeNum}
            && (err == 0 <==> p < 4096 || TwoPlaces(w)))
  {
    hide Sound, Create, CanCreate, HasPlace, AddedBy, Unchanged, Attached, SeekExisting, IsFile, IsDir, SectorsToBlocks,
      NoFreeBlock, TwoFree, Find, InoGroup;
    CreateCall(w, junk);
    CreateInv(w, junk);
    var w1 := Create(w, junk).0;
    if HasPlace(w) {
      PlaceShort(w);
      AddedNumbers(w, w1, w1.f.inodeNum);
      PlacesLeft(w, junk);
      SeekSucceedsIff(w1, p);
      SeekInv(w1, p);
      SeekTouches(w1, p);
      SeekCode(w1, p);
    }
  }

  /** The parent's group has two free blocks among the scanned bits. */
  ghost predicate TwoPlaces(w: World)
    requires Inv(w) && CreateFine(w) && |w.f.path| <= 4096
  {
    var d := Find(w.fs.g, w.fs.disk, ParentPath(w.f.path));
    TwoFree(w.fs, InoGroup(w.fs.g, d))
  }

  lemma PlacesLeft(w: World, junk: InodeImage)
    requires Inv(w) && CreateFine(w) && |w.f.path| <= 4096 && Create(w, junk).1 == 0
    ensures var w1 := Create(w, junk).0;
      Good(w1.fs) && ValidIno(w1.fs.g, w1.f.inodeNum)
      && (!NoFreeBlock(w1.fs, InoGroup(w1.fs.g, w1.f.inodeNum)) <==> TwoPlaces(w))
  {
    hide Sane, Describes, Marked, CountsMatch, Mul, InodeAt, DirOk, Owned, NoFreeBlock, TwoFree, CreateIn, Find, Took, Parsable,
      FileOk, Roomy, DirFull;
    CreateLeaves(w, junk);
    CreateInSound(w, Find(w.fs.g, w.fs.disk, ParentPath(w.f.path)), junk);
  }

  // Writing back.

  /** The buffer is in the block of the position; with new bytes the size is the end of them, in memory and on
      disk. Nothing else has changed. */
  ghost predicate StoredBack(w: World, w2: World)
    requires InFile(w.f)
  {
    var p, n := Ptr(w.f.inode, w.f.pos / 4096), w.f.inodeNum;
    && Mounted(w2.fs) && Touches(w.fs, w2.fs, {p}, {n}) && p < |w2.fs.disk| && w2.fs.disk[p] == w.f.buff
    && w2.f == w.f.(inode := w2.f.inode) && ValidIno(w2.fs.g, n) && Image(w2.fs, n) == w2.f.inode
    && (forall i :: 0 <= i < 128 && !(4 <= i < 8) ==> w2.f.inode[i] == w.f.inode[i])
    && Le4(w2.f.inode, 4)
       == if w.f.newBytes == 0 then Le4(w.f.inode, 4) else (w.f.pos + w.f.newBytes) % 0x1_0000_0000
  }

  /** Writing back a dirty buffer. */
  lemma FlushStores(w: World)
    requires Inv(w) && w.f.open && w.f.exist && InFile(w.f)
    ensures Mounted(w.fs) && ValidIno(w.fs.g, w.f.inodeNum) && Here(w) < |w.fs.disk| && StoredBack(w, Flush(w))
  {
    hide Sane, Describes, Marked, CountsMatch, BlockUsed, InodeUsed, Mul, InodeAt, Ptr, IsData, Resize, Owned, DirOk, Le4,
      LowerSize, Sectors, SectorsToBlocks, Held, PutInode, TypePerm, Attached;
    UsableFacts(w);
    FlushInv(w);
    BlocksApart(w, w.f.pos / BLOCK_SIZE, 0);
    var h, n := Here(w), w.f.inodeNum;
    var w1 := w.(fs := SetData(w.fs, h, w.f.buff));
    SetDataTouches(w.fs, h, w.f.buff);
    TouchesFacts(w.fs, w1.fs, {h}, {});
    if w.f.newBytes == 0 {
      TouchesWiden(w.fs, w1.fs, {h}, {}, {h}, {n});
      SameInodeIn(w.fs, w1.fs, {h}, {}, n);
    } else {
      var size := (w.f.pos + w.f.newBytes) % 0x1_0000_0000;
      var y := Resize(w.f.inode, size);
      SetInodeTouches(w1.fs, n, y);
      TouchesFacts(w1.fs, SetInode(w1.fs, n, y), {}, {n});
      TouchesTrans(w.fs, w1.fs, SetInode(w1.fs, n, y), {h}, {}, {}, {n});
      var none: set<nat> := {};
      assert {h} + none == {h} && none + {n} == {n};
      KeptBlock(w1.fs, SetInode(w1.fs, n, y), h, n);
      forall i | 0 <= i < 128
        ensures Le4(y, 4) == size && (4 <= i < 8 || y[i] == w.f.inode[i])
      {
        ResizeLayout(w.f.inode, size, i);
      }
      ResizeLayout(w.f.inode, size, 0);
    }
  }

  lemma KeptBlock(a: Fs, b: Fs, p: nat, n: nat)
    requires Touches(a, b, {}, {n}) && p < |a.disk| && IsData(a.g, p)
    ensures p < |b.disk| && b.disk[p] == a.disk[p]
  {
    hide Sane, Describes, Marked, CountsMatch, BlockUsed, InodeUsed, Mul, InodeAt, IsData;
  }

  /** Closing a dirty file writes back first. */
  lemma CloseDirty(w: World, junk: InodeImage) returns (w1: World)
    requires Inv(w) && w.f.open && w.f.exist && w.f.dirty
    ensures InFile(w.f) && StoredBack(w, w1)
    ensures var (w2, err) := Close(w, junk); err == 0 && w2.fs == w1.fs && w2.tracked == w.tracked && Blanked(w2.f)
  {
    hide Sound, IsFile, IsDir, Attached, SectorsToBlocks, Flush, Create, StoredBack;
    FlushStores(w);
    FlushInv(w);
    w1 := Flush(w);
    FlushTracks(w);
  }

  lemma FlushTracks(w: World)
    requires Mounted(w.fs) && ValidIno(w.fs.g, w.f.inodeNum) && InFile(w.f) && Here(w) < |w.fs.disk|
    ensures Flush(w).tracked == w.tracked
  {
    hide Sane, Describes, InodeAt, Mul, Attached, PutInode, Resize;
  }

  /** A seek inside the attached blocks loads the block of the new position. A dirty buffer is written back before
      that when the block is another one, and lost when it is the same. */
  lemma SeekDirty(w: World, p: nat) returns (w1: World)
    requires Inv(w) && w.f.open && w.f.exist && w.f.dirty && p / 4096 < Attached(w.f.inode) && p < 0x1_0000_0000
    ensures InFile(w.f) && StoredBack(w, w1)
    ensures var ((w2, err), q) := (SeekExisting(w, p), Ptr(w.f.inode, p / 4096));
      && err == 0 && w2.fs == (if p / 4096 != w.f.pos / 4096 then w1.fs else w.fs) && w2.tracked == w.tracked
      && w2.f.pos == p && Clean(w2) && q < |w2.fs.disk| && w2.f.buff == w2.fs.disk[q]
  {
    hide Sane, Describes, Marked, CountsMatch, BlockUsed, InodeUsed, Mul, InodeAt, Ptr, IsData, Attached, Sound, Owned, DirOk,
      Flush, StoredBack, SectorsToBlocks, IsFile, IsDir, AttachNew, Touches;
    FlushStores(w);
    FlushTracks(w);
    FlushInv(w);
    w1 := Flush(w);
    MovedInv(w, p);
    var m := Moved(w, p);
    MountedFile(m);
    SeekTarget(m);
    if p / 4096 != w.f.pos / 4096 {
      SameBlocks(w, w1);
    }
  }

  lemma SameBlocks(w: World, w1: World)
    requires InFile(w.f) && StoredBack(w, w1)
    ensures forall k :: 0 <= k < 12 ==> Ptr(w1.f.inode, k) == Ptr(w.f.inode, k)
  {
    hide Le4, Attached;
    forall k | 0 <= k < 12
      ensures Ptr(w1.f.inode, k) == Ptr(w.f.inode, k)
    {
      SameU32(w1.f.inode, w.f.inode, 40 + 4 * k);
    }
  }
}
