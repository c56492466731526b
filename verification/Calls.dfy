/** The calls on the file structure, and what every run of calls keeps. */
module Calls {
  import opened Bytes
  import opened Arith
  import opened Volume
  import opened Alloc
  import opened Paths
  import opened Records
  import opened Slots
  import opened Namespace
  import opened Ownership
  import opened Files
  import opened Creation
  import opened Writing
  import opened Session
  import opened Refinement

  /** The walk never leaves the tracked inodes, whatever the array holds. */
  lemma {:induction false} WalkTracked(fs: Fs, T: set<nat>, comps: seq<seq<byte>>, n: nat, slots: seq<Entry>)
    requires Sound(fs, T) && n in T && ValidIno(fs.g, n) && Slotted(slots)
    ensures Walk(fs.g, fs.disk, comps, n, slots) in T
    decreases |comps|
  {
    hide Sane, Describes, Marked, CountsMatch, Mul, SeenChild, Owned, DirOk, Overlay, List;
    if comps != [] {
      SeenTracked(fs, T, n, slots, comps[0]);
      var m := SeenChild(fs.g, fs.disk, n, slots, comps[0]);
      if m != 0 && m != n {
        WalkTracked(fs, T, comps[1..], m, Overlay(slots, List(fs.g, fs.disk, n)));
      }
    }
  }

  lemma SeenTracked(fs: Fs, T: set<nat>, n: nat, slots: seq<Entry>, name: seq<byte>)
    requires Sound(fs, T) && n in T && Slotted(slots)
    ensures ValidIno(fs.g, n)
    ensures SeenChild(fs.g, fs.disk, n, slots, name) != 0 ==> SeenChild(fs.g, fs.disk, n, slots, name) in T
  {
    hide Sane, Describes, Marked, CountsMatch, Mul, InodeAt, IsDir, ListFrom, ListReadable, KindOk, InodeUsed, Held, Seen;
    assert InodeOwned(fs, n) && DirOk(fs, T, n);
    SeenIn(slots, List(fs.g, fs.disk, n), name);
  }

  /** The path can be parsed, and a file found under it has direct blocks only. */
  ghost predicate CanOpen(w: World, path: seq<byte>)
    requires Inv(w)
  {
    |path| <= MAX_PATH_LEN && !w.f.open ==>
      && Parsable(path)
      && ValidIno(w.fs.g, ROOT)
      && var x := Image(w.fs, Find(w.fs.g, w.fs.disk, path));
         IsFile(x) ==> SectorsToBlocks(Sectors(x)) <= NDIR_BLOCKS
  }

  /** `ext2_fopen`: an open file, or a missing one without mode 'w', leaves the structure alone. */
  ghost function Open(w: World, path: seq<byte>, mode: byte): World
    requires Inv(w) && CanOpen(w, path)
  {
    if |path| > MAX_PATH_LEN || w.f.open then w
    else
      var n := Find(w.fs.g, w.fs.disk, path);
      var x := Image(w.fs, n);
      if !IsFile(x) && mode != MODE_W then w
      else w.(f := File(n, mode, true, 0, 0, false, IsFile(x), path, ZERO_BLOCK, x))
  }

  lemma OpenInv(w: World, path: seq<byte>, mode: byte)
    requires Inv(w) && Clean(w) && CanOpen(w, path)
    ensures Inv(Open(w, path, mode)) && Clean(Open(w, path, mode)) && Open(w, path, mode).fs == w.fs
  {
    hide Sane, Describes, Marked, CountsMatch, Mul, InodeAt, Find, DirOk, SectorsToBlocks, Attached, IsFile, IsDir,
      Parsable;
    if !(|path| > MAX_PATH_LEN || w.f.open) {
      FindTracked(w.fs, w.tracked, path);
      assert InodeOwned(w.fs, Find(w.fs.g, w.fs.disk, path));
    }
  }

  lemma FindTracked(fs: Fs, T: set<nat>, path: seq<byte>)
    requires Sound(fs, T)
    ensures ValidIno(fs.g, ROOT) && Find(fs.g, fs.disk, path) in T
  {
    hide Sane, Describes, Marked, CountsMatch, Mul, Walk, DirOk, Owned, Components;
    RootIsValid(fs, T);
    WalkTracked(fs, T, Components(path), ROOT, Fresh());
  }

  /** A missing file can be created: its path is usable and its parent behaves. */
  ghost predicate CreateFine(w: World)
    requires Inv(w)
  {
    |w.f.path| <= MAX_PATH_LEN ==> CanCreate(w.fs, w.tracked, w.f.path)
  }

  /** Creating keeps the invariant; a success leaves an existing file with one block, at position 0. */
  lemma CreateInv(w: World, junk: InodeImage)
    requires Inv(w) && w.f.open && !w.f.exist && CreateFine(w)
    ensures var (w2, err) := Create(w, junk);
      && Inv(w2)
      && w2.f == w.f.(inodeNum := w2.f.inodeNum, inode := w2.f.inode, exist := w2.f.exist)
      && (w2.f.exist <==> err == 0)
      && (err == 0 ==> Usable(w2) && LowerSize(w2.f.inode) == 0 && Attached(w2.f.inode) == 1)
  {
    hide Sane, Describes, Marked, CountsMatch, BlockUsed, InodeUsed, Mul, InodeAt, Ptr, Attached, Reserve,
      NewInode, Roomy,
      DirFull, AddEntry, Rows, Added, PutInode, Find, ParentPath, Parsable, Staged, DirOk, Owned, LowerSize, Sectors,
      SectorsToBlocks, TypePerm;
    if |w.f.path| <= MAX_PATH_LEN {
      var d := Find(w.fs.g, w.fs.disk, ParentPath(w.f.path));
      CreateInSound(w, d, junk);
      CreatedInode(w, d, junk);
    }
  }

  /** The inode of a created file, in memory and on disk. */
  lemma CreatedInode(w: World, d: nat, junk: InodeImage)
    requires Sound(w.fs, w.tracked) && ValidIno(w.fs.g, d) && |Rows(w.f.path)| > 0
    requires IsDir(Image(w.fs, d)) ==>
      d in w.tracked && (DirFull(w.fs.disk, Image(w.fs, d)) || Roomy(w.fs.disk, Image(w.fs, d), BaseName(w.f.path)))
    ensures var (w2, err) := CreateIn(w, d, junk);
      && err <= 1
      && w2.f == w.f.(inodeNum := w2.f.inodeNum, inode := w2.f.inode, exist := w2.f.exist)
      && (w2.f.exist <==> w.f.exist || err == 0)
      && (err == 0 ==>
            && Mounted(w2.fs) && ValidIno(w2.fs.g, w2.f.inodeNum) && w2.f.inodeNum in w2.tracked
            && Image(w2.fs, w2.f.inodeNum) == w2.f.inode
            && IsFile(w2.f.inode) && !IsDir(w2.f.inode) && LowerSize(w2.f.inode) == 0
            && SectorsToBlocks(Sectors(w2.f.inode)) == 1 && Attached(w2.f.inode) == 1)
  {
    hide Sane, Describes, Marked, CountsMatch, BlockUsed, InodeUsed, Mul, InodeAt, Ptr, Attached, Reserve,
      NewInode, Roomy,
      DirFull, Rows, Added, PutInode, IsDir, IsFile, DirOk, Owned, LowerSize, Sectors, SectorsToBlocks, AddEntry;
    var (w2, err) := CreateIn(w, d, junk);
    CreateInSound(w, d, junk);
    AddEntryCodes(w, d, junk);
    if err == 0 {
      ReservedSound(w.fs, w.tracked, InoGroup(w.fs.g, d), junk);
      var (fs3, ino) := Staged(w, d, junk);
      ReserveFits(w.fs, InoGroup(w.fs.g, d));
      NewInodeFields(junk, Reserve(w.fs, InoGroup(w.fs.g, d)).2);
      AddTouches(fs3, w.tracked + {ino}, d, ino, BaseName(w.f.path));
      SameInode(fs3, w2.fs, {Ptr(Image(fs3, d), 0)}, ino);
    }
  }

  lemma ReserveFits(fs: Fs, k: nat)
    requires Good(fs) && k < |fs.g.bb|
    ensures Reserve(fs, k).2 < 0x1_0000_0000
  {
    hide Sane, Describes, Marked, CountsMatch, Reserve, Held;
    ReserveKeeps(fs, k);
    NumbersFit(fs);
  }

  lemma AddEntryCodes(w: World, d: nat, junk: InodeImage)
    requires Good(w.fs) && ValidIno(w.fs.g, d) && |Rows(w.f.path)| > 0
    ensures CreateIn(w, d, junk).1 <= 1
    ensures CreateIn(w, d, junk).0.f.exist <==> w.f.exist || CreateIn(w, d, junk).1 == 0
  {
    hide Sane, Describes, Marked, CountsMatch, Reserve, PutInode, InodeAt, Mul, NewInode, Rows, Insert, FindLast,
      Ptr, Fits;
  }

  /** `ext2_fclose`: a missing file is created first; the structure is cleared in any case. */
  ghost function Close(w: World, junk: InodeImage): (World, nat)
    requires Inv(w) && (w.f.open && !w.f.exist ==> CreateFine(w))
  {
    hide Sound, Create, Attached, Flush, IsFile, IsDir, SectorsToBlocks;
    if !w.f.open then (w, 1)
    else if w.f.exist then (CloseExisting(w), 0)
    else
      CreateInv(w, junk);
      var (w1, err) := Create(w, junk);
      if err != 0 then (w1.(f := CLOSED), 0) else (CloseExisting(w1), 0)
  }

  ghost function CloseExisting(w: World): World
    requires Inv(w) && w.f.open && w.f.exist
  {
    hide Sound, Attached, Flush, IsFile, IsDir, SectorsToBlocks;
    var w1 := if w.f.dirty then FlushInv(w); Flush(w) else w;
    w1.(f := CLOSED)
  }

  lemma CloseInv(w: World, junk: InodeImage)
    requires Inv(w) && (w.f.open && !w.f.exist ==> CreateFine(w))
    ensures Inv(Close(w, junk).0) && Clean(Close(w, junk).0) == (w.f.open || Clean(w))
    ensures Clean(w) && w.f.open && w.f.exist ==> Close(w, junk).0 == w.(f := CLOSED)
  {
    hide Sane, Describes, Marked, CountsMatch, Owned, DirOk, Create, Attached, Flush, IsFile, IsDir,
      SectorsToBlocks, InodeAt, Mul;
    if w.f.open {
      if w.f.exist {
        CloseExistingInv(w);
      } else {
        CreateInv(w, junk);
        var (w1, err) := Create(w, junk);
        if err == 0 {
          CloseExistingInv(w1);
        }
      }
    }
  }

  lemma CloseExistingInv(w: World)
    requires Inv(w) && w.f.open && w.f.exist
    ensures Inv(CloseExisting(w)) && CloseExisting(w).f == CLOSED
    ensures !w.f.dirty ==> CloseExisting(w) == w.(f := CLOSED)
  {
    hide Sane, Describes, Marked, CountsMatch, Owned, DirOk, Attached, Flush, IsFile, IsDir, SectorsToBlocks,
      InodeAt, Mul;
    if w.f.dirty {
      FlushInv(w);
    }
  }

  /** Closing an existing file leaves the disk as it is and loses nothing: there is never anything to
      flush. */
  lemma CloseLosesNothing(w: World, junk: InodeImage)
    requires Inv(w) && Clean(w) && w.f.open && w.f.exist
    ensures Close(w, junk).0.fs == w.fs && Image(w.fs, w.f.inodeNum) == w.f.inode
  {
    hide Sane, Describes, Marked, CountsMatch, Owned, DirOk, Create, Attached, Flush, IsFile, IsDir,
      SectorsToBlocks, InodeAt, Mul, Close;
    CloseInv(w, junk);
  }

  /** What a write demands: a position in an attached block, or a file that can be created. */
  ghost predicate WriteFine(w: World, data: seq<byte>)
    requires Inv(w)
  {
    w.f.open ==> if w.f.exist then |data| <= BLOCK_SIZE ==> InFile(w.f) else CreateFine(w)
  }

  /** `ext2_fwrite`. */
  ghost function Write(w: World, data: seq<byte>, junk: InodeImage): (World, nat)
    requires Inv(w) && WriteFine(w, data)
  {
    hide Sound, Create, Attached, WriteExisting, IsFile, IsDir, SectorsToBlocks;
    if !w.f.open then (w, 1)
    else if w.f.exist then if |data| > BLOCK_SIZE then (w, 1) else WriteExisting(w, data)
    else
      CreateInv(w, junk);
      var (w1, err) := Create(w, junk);
      if err != 0 then (w1, 1) else if |data| > BLOCK_SIZE then (w1, 1) else WriteExisting(w1, data)
  }

  ghost predicate SeekFine(w: World, newPos: nat)
    requires Inv(w)
  {
    newPos < 0x1_0000_0000 && (w.f.open && !w.f.exist && newPos != w.f.pos ==> CreateFine(w))
  }

  /** `ext2_fseek`. */
  ghost function Seek(w: World, newPos: nat, junk: InodeImage): (World, nat)
    requires Inv(w) && SeekFine(w, newPos)
  {
    hide Sound, Create, Attached, SeekExisting, IsFile, IsDir, SectorsToBlocks;
    if !w.f.open then (w, 1)
    else if newPos == w.f.pos then (w, 0)
    else if w.f.exist then SeekExisting(w, newPos)
    else
      CreateInv(w, junk);
      var (w1, err) := Create(w, junk);
      if err != 0 then (w1, 1) else SeekExisting(w1, newPos)
  }

  lemma WriteCallInv(w: World, data: seq<byte>, junk: InodeImage)
    requires Inv(w) && Clean(w) && WriteFine(w, data)
    ensures Inv(Write(w, data, junk).0) && Clean(Write(w, data, junk).0)
  {
    hide Sane, Describes, Marked, CountsMatch, Owned, DirOk, Create, Attached, WriteExisting, IsFile, IsDir,
      SectorsToBlocks, InodeAt, Mul;
    if w.f.open {
      if w.f.exist {
        if |data| <= BLOCK_SIZE {
          WriteInv(w, data);
        }
      } else {
        CreateInv(w, junk);
        var (w1, err) := Create(w, junk);
        if err == 0 && |data| <= BLOCK_SIZE {
          WriteInv(w1, data);
        }
      }
    }
  }

  lemma SeekCallInv(w: World, newPos: nat, junk: InodeImage)
    requires Inv(w) && Clean(w) && SeekFine(w, newPos)
    ensures Inv(Seek(w, newPos, junk).0) && Clean(Seek(w, newPos, junk).0)
  {
    hide Sane, Describes, Marked, CountsMatch, Owned, DirOk, Create, Attached, SeekExisting, IsFile, IsDir,
      SectorsToBlocks, InodeAt, Mul;
    if w.f.open && newPos != w.f.pos {
      if w.f.exist {
        SeekInv(w, newPos);
      } else {
        CreateInv(w, junk);
        var (w1, err) := Create(w, junk);
        if err == 0 {
          SeekInv(w1, newPos);
        }
      }
    }
  }

  /** A call that changes something; `junk` is what an uninitialised inode on the stack holds. */
  datatype Call =
    | COpen(path: seq<byte>, mode: byte)
    | CWrite(data: seq<byte>, junk: InodeImage)
    | CSeek(newPos: nat, junk: InodeImage)
    | CClose(junk: InodeImage)

  ghost predicate CallFine(w: World, c: Call)
    requires Inv(w)
  {
    match c
    case COpen(path, _) => CanOpen(w, path)
    case CWrite(data, _) => WriteFine(w, data)
    case CSeek(p, _) => SeekFine(w, p)
    case CClose(_) => w.f.open && !w.f.exist ==> CreateFine(w)
  }

  ghost function Step(w: World, c: Call): World
    requires Inv(w) && CallFine(w, c)
  {
    match c
    case COpen(path, mode) => Open(w, path, mode)
    case CWrite(data, junk) => Write(w, data, junk).0
    case CSeek(p, junk) => Seek(w, p, junk).0
    case CClose(junk) => Close(w, junk).0
  }

  lemma StepInv(w: World, c: Call)
    requires Inv(w) && Clean(w) && CallFine(w, c)
    ensures Inv(Step(w, c)) && Clean(Step(w, c))
  {
    hide Inv, CanOpen, WriteFine, SeekFine, CreateFine, Open, Write, Seek, Close;
    match c
    case COpen(path, mode) => OpenInv(w, path, mode);
    case CWrite(data, junk) => WriteCallInv(w, data, junk);
    case CSeek(p, junk) => SeekCallInv(w, p, junk);
    case CClose(junk) => CloseInv(w, junk);
  }

  /** Each call of a run meets its demands in the state it finds. */
  ghost predicate CallsFine(w: World, cs: seq<Call>)
    requires Inv(w) && Clean(w)
    decreases |cs|
  {
    cs == [] || (CallFine(w, cs[0]) && (StepInv(w, cs[0]); CallsFine(Step(w, cs[0]), cs[1..])))
  }

  ghost function Steps(w: World, cs: seq<Call>): World
    requires Inv(w) && Clean(w) && CallsFine(w, cs)
    decreases |cs|
  {
    hide Inv, Step, CallFine;
    if cs == [] then w
    else
      StepInv(w, cs[0]);
      Steps(Step(w, cs[0]), cs[1..])
  }

  /** Every reachable state, over all runs of opening, writing, seeking and closing, with every call
      succeeding or failing: ownership of blocks, conservation of the free counts, agreement of memory
      and disk for the superblock, the descriptor table and the open file's inode, well-formed
      directories, and nothing left to flush. */
  lemma {:induction false} ReachableInv(w: World, cs: seq<Call>)
    requires Inv(w) && Clean(w) && CallsFine(w, cs)
    ensures Inv(Steps(w, cs)) && Clean(Steps(w, cs))
    decreases |cs|
  {
    hide Inv, Step, CallFine;
    if cs != [] {
      StepInv(w, cs[0]);
      ReachableInv(Step(w, cs[0]), cs[1..]);
    }
  }

  /** A creation leaves every tracked inode alone, and the contents of every tracked inode except its
      parent directory. */
  lemma CreateIsolated(w: World, d: nat, junk: InodeImage, n: nat)
    requires Sound(w.fs, w.tracked) && ValidIno(w.fs.g, d) && |Rows(w.f.path)| > 0
    requires IsDir(Image(w.fs, d)) ==>
      d in w.tracked && (DirFull(w.fs.disk, Image(w.fs, d)) || Roomy(w.fs.disk, Image(w.fs, d), BaseName(w.f.path)))
    requires n in w.tracked && n != d
    ensures Untouched(w.fs, CreateIn(w, d, junk).0.fs, n)
  {
    hide Sane, Describes, Marked, CountsMatch, BlockUsed, InodeUsed, Mul, InodeAt, Ptr, Attached, Reserve,
      NewInode, Roomy,
      DirFull, Rows, Added, PutInode, IsDir, IsFile, DirOk, Owned, AddEntry, ByteAt, BaseName;
    var k := InoGroup(w.fs.g, d);
    Tracked(w.fs, w.tracked, n);
    CreateInSound(w, d, junk);
    ReserveKeeps(w.fs, k);
    ReservedSound(w.fs, w.tracked, k, junk);
    var (w2, err) := CreateIn(w, d, junk);
    var (fs2, ino, blk) := Reserve(w.fs, k);
    if !IsDir(Image(w.fs, d)) {
    } else if blk == 0 {
      KeptByTouches(w.fs, fs2, w.tracked, {}, {}, n);
    } else {
      var (fs3, m) := Staged(w, d, junk);
      KeptByTouches(w.fs, fs3, w.tracked, {}, {ino}, n);
      if err == 0 {
        var T, name := w.tracked + {ino}, BaseName(w.f.path);
        AddTouches(fs3, T, d, ino, name);
        FirstBlockApart(fs3, T, d, n, name);
        KeptByTouches(fs3, w2.fs, T, {Ptr(Image(fs3, d), 0)}, {}, n);
      }
    }
  }

  /** The first block of a directory belongs to no other inode. */
  lemma FirstBlockApart(fs: Fs, T: set<nat>, d: nat, n: nat, name: seq<byte>)
    requires Sound(fs, T) && Takes(fs, T, d, name) && n in T && n != d && ValidIno(fs.g, n)
    ensures forall i :: 0 <= i < Attach(fs.g, fs.disk, n) ==> PtrOf(fs.g, fs.disk, n, i) != Ptr(Image(fs, d), 0)
  {
    hide Sane, Describes, Marked, CountsMatch, BlockUsed, InodeUsed, Mul, InodeAt, Ptr, Attached, Roomy, IsDir,
      DirOk, InodeOwned;
    FirstBlock(fs, T, d, name);
    forall i | 0 <= i < Attach(fs.g, fs.disk, n)
      ensures PtrOf(fs.g, fs.disk, n, i) != Ptr(Image(fs, d), 0)
    {
      assert Apart(fs, d, 0, n, i);
    }
  }

  // Isolation over whole runs.

  /** Inode `n` is neither the open file nor the directory in which a missing open file would be created. */
  ghost predicate Bystander(w: World, n: nat)
    requires Inv(w)
  {
    n in w.tracked && (w.f.open ==>
      if w.f.exist then n != w.f.inodeNum
      else |w.f.path| <= MAX_PATH_LEN && CanCreate(w.fs, w.tracked, w.f.path) ==>
        n != Find(w.fs.g, w.fs.disk, ParentPath(w.f.path)))
  }

  lemma CreateBystander(w: World, junk: InodeImage, n: nat)
    requires Inv(w) && Clean(w) && w.f.open && !w.f.exist && CreateFine(w) && Bystander(w, n)
    ensures var (w1, err) := Create(w, junk);
      && Inv(w1) && Clean(w1) && Untouched(w.fs, w1.fs, n) && n in w1.tracked
      && w1.f.open && (err == 0 ==> Usable(w1) && n != w1.f.inodeNum)
  {
    hide Sane, Describes, Marked, CountsMatch, Mul, InodeAt, IsDir, DirOk, Owned, Reserve, Roomy, DirFull, Rows,
      CreateIn, Parsable, Find, Untouched, Usable, Attached;
    CreateInv(w, junk);
    if |w.f.path| > MAX_PATH_LEN {
      UntouchedSelf(w, n);
    } else {
      var d := Find(w.fs.g, w.fs.disk, ParentPath(w.f.path));
      CreateIsolated(w, d, junk, n);
      CreateTracks(w, d, junk);
    }
  }

  lemma CreateTracks(w: World, d: nat, junk: InodeImage)
    requires Sound(w.fs, w.tracked) && ValidIno(w.fs.g, d) && |Rows(w.f.path)| > 0
    requires IsDir(Image(w.fs, d)) ==>
      d in w.tracked && (DirFull(w.fs.disk, Image(w.fs, d)) || Roomy(w.fs.disk, Image(w.fs, d), BaseName(w.f.path)))
    ensures var (w2, err) := CreateIn(w, d, junk); w.tracked <= w2.tracked && (err == 0 ==> w2.f.inodeNum !in w.tracked)
  {
    hide Sane, Describes, Marked, CountsMatch, BlockUsed, InodeUsed, Mul, InodeAt, IsDir, DirOk, Owned, Reserve,
      Roomy, DirFull, Rows, NewInode, AddEntry, PutInode;
    CreateInSound(w, d, junk);
    if Reserve(w.fs, InoGroup(w.fs.g, d)).2 != 0 {
      StagedKeeps(w, d, junk);
    }
  }

  lemma UntouchedSelf(w: World, n: nat)
    requires Inv(w) && n in w.tracked
    ensures Untouched(w.fs, w.fs, n)
  {
    hide Sane, Describes, Marked, CountsMatch, Mul, InodeAt, DirOk, Owned;
    Tracked(w.fs, w.tracked, n);
  }

  /** No call changes a bystander. */
  lemma StepIsolated(w: World, c: Call, n: nat)
    requires Inv(w) && Clean(w) && CallFine(w, c) && Bystander(w, n)
    ensures Untouched(w.fs, Step(w, c).fs, n) && n in Step(w, c).tracked
  {
    hide Sound, FileOk, Create, CreateFine, Attached, WriteExisting, SeekExisting, IsFile, IsDir, SectorsToBlocks,
      CanOpen, Find, Untouched;
    UntouchedSelf(w, n);
    match c
    case COpen(path, mode) =>
      OpenInv(w, path, mode);
    case CWrite(data, junk) =>
      WriteStepIsolated(w, data, junk, n);
    case CSeek(p, junk) =>
      SeekStepIsolated(w, p, junk, n);
    case CClose(junk) =>
      CloseStepIsolated(w, junk, n);
  }

  lemma WriteStepIsolated(w: World, data: seq<byte>, junk: InodeImage, n: nat)
    requires Inv(w) && Clean(w) && WriteFine(w, data) && Bystander(w, n)
    ensures Untouched(w.fs, Write(w, data, junk).0.fs, n) && n in Write(w, data, junk).0.tracked
  {
    hide Sound, Create, Attached, WriteExisting, IsFile, IsDir, SectorsToBlocks, Find, Untouched, CanCreate;
    UntouchedSelf(w, n);
    var w1 := w;
    if w.f.open && !w.f.exist {
      CreateBystander(w, junk, n);
      CreateInv(w, junk);
      w1 := Create(w, junk).0;
    }
    if w1.f.open && w1.f.exist && |data| <= BLOCK_SIZE {
      WriteIsolated(w1, data, n);
      WriteTouches(w1, data);
      UntouchedTrans(w.fs, w1.fs, WriteExisting(w1, data).0.fs, n);
    }
  }

  lemma SeekStepIsolated(w: World, p: nat, junk: InodeImage, n: nat)
    requires Inv(w) && Clean(w) && SeekFine(w, p) && Bystander(w, n)
    ensures Untouched(w.fs, Seek(w, p, junk).0.fs, n) && n in Seek(w, p, junk).0.tracked
  {
    hide Sound, Create, Attached, SeekExisting, IsFile, IsDir, SectorsToBlocks, Find, Untouched, CanCreate;
    UntouchedSelf(w, n);
    var w1 := w;
    if w.f.open && !w.f.exist && p != w.f.pos {
      CreateBystander(w, junk, n);
      CreateInv(w, junk);
      w1 := Create(w, junk).0;
    }
    if w1.f.open && w1.f.exist && p != w.f.pos {
      SeekIsolated(w1, p, n);
      SeekTouches(w1, p);
      UntouchedTrans(w.fs, w1.fs, SeekExisting(w1, p).0.fs, n);
    }
  }

  lemma CloseStepIsolated(w: World, junk: InodeImage, n: nat)
    requires Inv(w) && Clean(w) && (w.f.open && !w.f.exist ==> CreateFine(w)) && Bystander(w, n)
    ensures Untouched(w.fs, Close(w, junk).0.fs, n) && n in Close(w, junk).0.tracked
  {
    hide Sound, Create, Attached, IsFile, IsDir, SectorsToBlocks, Find, Untouched, CreateFine;
    UntouchedSelf(w, n);
    if w.f.open && !w.f.exist {
      CreateBystander(w, junk, n);
      CreateInv(w, junk);
    }
  }

  lemma UntouchedTrans(a: Fs, b: Fs, c: Fs, n: nat)
    requires Untouched(a, b, n) && Untouched(b, c, n)
    ensures Untouched(a, c, n)
  {
    hide Mounted, InodeAt, Attached, ByteAt;
  }

  /** The inode is a bystander of every call of the run. */
  ghost predicate NeverNamed(w: World, cs: seq<Call>, n: nat)
    requires Inv(w) && Clean(w) && CallsFine(w, cs)
    decreases |cs|
  {
    hide Inv, Step, CallFine, Bystander;
    Bystander(w, n) && (cs == [] || (StepInv(w, cs[0]); NeverNamed(Step(w, cs[0]), cs[1..], n)))
  }

  /** Isolation over every run of calls, whether they succeed or fail: a tracked inode that is never the
      open file and never the directory of a creation keeps its inode and every byte of its contents. */
  lemma {:induction false} CallsIsolated(w: World, cs: seq<Call>, n: nat)
    requires Inv(w) && Clean(w) && CallsFine(w, cs) && NeverNamed(w, cs, n)
    ensures Untouched(w.fs, Steps(w, cs).fs, n) && n in Steps(w, cs).tracked
    decreases |cs|
  {
    hide Inv, Step, CallFine, Untouched;
    if cs == [] {
      UntouchedSelf(w, n);
    } else {
      var w1 := Step(w, cs[0]);
      StepInv(w, cs[0]);
      StepIsolated(w, cs[0], n);
      CallsIsolated(w1, cs[1..], n);
      UntouchedTrans(w.fs, w1.fs, Steps(w, cs).fs, n);
    }
  }

  // The buffer after opening.

  /** An existing file with at least one block, opened. */
  lemma OpenedUsable(w: World, path: seq<byte>, mode: byte)
    requires Inv(w) && Clean(w) && !w.f.open && |path| <= MAX_PATH_LEN && CanOpen(w, path)
    requires var x := Image(w.fs, Find(w.fs.g, w.fs.disk, path)); IsFile(x) && Attached(x) > 0
    ensures var (w1, x) := (Open(w, path, mode), Image(w.fs, Find(w.fs.g, w.fs.disk, path)));
      && Usable(w1) && Clean(w1) && w1.fs == w.fs && w1.f.inode == x && w1.f.pos == 0 && w1.f.buff == ZERO_BLOCK
      && Here(w1) == Ptr(x, 0) < |w.fs.disk|
  {
    hide Sane, Describes, Marked, CountsMatch, Mul, InodeAt, Find, DirOk, SectorsToBlocks, Attached, IsFile, IsDir,
      Parsable, Sound, Ptr;
    OpenInv(w, path, mode);
    UsableHere(Open(w, path, mode));
  }

  /** Opening does not load the buffer: a read right after it delivers zeros, whatever the file holds. So
      it delivers the contents exactly when they start with as many zeros. */
  lemma OpenedReads(w: World, path: seq<byte>, mode: byte, n: nat)
    requires Inv(w) && Clean(w) && !w.f.open && |path| <= MAX_PATH_LEN && CanOpen(w, path) && n <= BLOCK_SIZE
    requires IsFile(Image(w.fs, Find(w.fs.g, w.fs.disk, path)))
    ensures ReadInFile(Open(w, path, mode), n) && ReadBytes(Open(w, path, mode), n) == Zeros(n)
    ensures var (w1, x) := (Open(w, path, mode), Image(w.fs, Find(w.fs.g, w.fs.disk, path)));
      if Attached(x) == 0 then Content(w1) == []
      else
        && Ptr(x, 0) < |w.fs.disk| && n <= |Content(w1)|
        && (Zeros(n) == Content(w1)[..n] <==> StartsZero(w.fs.disk[Ptr(x, 0)], n))
  {
    hide Find, Attached, IsFile, Ptr, Inv, CanOpen, Content, Usable;
    var w1 := Open(w, path, mode);
    assert ReadBytes(w1, n) == Zeros(n);
    if Attached(w1.f.inode) > 0 {
      OpenedUsable(w, path, mode);
      ReadExactlyIff(w1, n);
    }
  }

  /** Writing `data` through a cleared buffer at position 0 succeeds and clears the rest of the block, so it
      overwrites in place exactly when that rest is zero already. */
  ghost predicate ClearsRest(w: World, data: seq<byte>, b: Block)
    requires Usable(w) && |data| <= BLOCK_SIZE
  {
    hide Inv, Attached, WriteExisting, Content;
    var (w2, err) := WriteExisting(w, data);
    && err == 0 && BLOCK_SIZE <= |Content(w2)| && Content(w2)[..BLOCK_SIZE] == data + Zeros(BLOCK_SIZE - |data|)
    && (Content(w2) == Overwritten(Content(w), 0, data) <==> forall o :: |data| <= o < BLOCK_SIZE ==> b[o] == 0)
  }

  lemma BlankWrites(w: World, data: seq<byte>)
    requires Usable(w) && |data| <= BLOCK_SIZE && w.f.pos == 0 && w.f.buff == ZERO_BLOCK
    ensures Here(w) < |w.fs.disk| && ClearsRest(w, data, w.fs.disk[Here(w)])
  {
    hide Attached, IsFile, Ptr, Inv, Content, WriteExisting, ByteAt, Held, PlainByte, Agrees, Spared, Overwritten;
    WriteTouches(w, data);
    WriteOverwritesIff(w, data);
    BlankBytes(w, data);
    BlankAgrees(w.fs.disk[Here(w)], |data|);
    assert Spared(Content(w), 0, |data|) by { AtStart(Content(w), |data|); }
  }

  lemma AtStart(c: seq<byte>, n: nat)
    requires n <= BLOCK_SIZE
    ensures Spared(c, 0, n)
  {
  }

  lemma BlankAgrees(b: Block, n: nat)
    requires n <= BLOCK_SIZE
    ensures Agrees(ZERO_BLOCK, b, 0, n) <==> forall o :: n <= o < BLOCK_SIZE ==> b[o] == 0
  {
  }

  lemma BlankBytes(w: World, data: seq<byte>)
    requires Usable(w) && |data| <= BLOCK_SIZE && w.f.pos == 0 && w.f.buff == ZERO_BLOCK
    requires WriteExisting(w, data).1 == 0
    ensures BLOCK_SIZE <= |Content(WriteExisting(w, data).0)|
    ensures Content(WriteExisting(w, data).0)[..BLOCK_SIZE] == data + Zeros(BLOCK_SIZE - |data|)
  {
    hide Attached, IsFile, Ptr, Inv, WriteExisting, ByteAt, Held;
    WriteLength(w, data);
    UsableAttached(w);
    var c, z := Content(WriteExisting(w, data).0), data + Zeros(BLOCK_SIZE - |data|);
    forall q | 0 <= q < BLOCK_SIZE
      ensures c[q] == z[q]
    {
      WriteContents(w, data, q);
    }
  }

  lemma UsableAttached(w: World)
    requires Usable(w)
    ensures w.f.pos / BLOCK_SIZE < Attached(w.f.inode)
  {
  }

  /** The first write after opening goes through a cleared buffer. */
  lemma OpenedWrites(w: World, path: seq<byte>, mode: byte, data: seq<byte>)
    requires Inv(w) && Clean(w) && !w.f.open && |path| <= MAX_PATH_LEN && CanOpen(w, path) && |data| <= BLOCK_SIZE
    requires var x := Image(w.fs, Find(w.fs.g, w.fs.disk, path)); IsFile(x) && Attached(x) > 0
    ensures var (w1, p) := (Open(w, path, mode), Ptr(Image(w.fs, Find(w.fs.g, w.fs.disk, path)), 0));
      Usable(w1) && p < |w.fs.disk| && ClearsRest(w1, data, w.fs.disk[p])
  {
    hide Find, Attached, IsFile, Ptr, Inv, Open, CanOpen, Content, ClearsRest;
    OpenedUsable(w, path, mode);
    BlankWrites(Open(w, path, mode), data);
  }
}
