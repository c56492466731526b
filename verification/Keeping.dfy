/** Names over creations and over runs of calls. */
module Keeping {
  import opened Bytes
  import opened Arith
  import opened Volume
  import opened Alloc
  import opened Paths
  import opened Records
  import opened Slots
  import opened Namespace
  import opened Ownership
  import opened Files
  import opened Creation
  import opened Writing
  import opened Session
  import opened Refinement
  import opened Finding
  import opened Calls

  // Creating a name that exists.

  /** After adding a name that was in the first block every component list resolves as before. */
  lemma {:induction false} DuplicateResolves(a: Fs, b: Fs, T: set<nat>, d: nat, ino: nat, name: seq<byte>,
                                             comps: seq<seq<byte>>, n: nat)
    requires NameAdded(a, b, T, d, ino, name) && FirstLookup(a.disk, Image(a, d), name) != 0
    requires n in T && ValidIno(a.g, n)
    ensures var r := Resolve(a.g, a.disk, comps, n); Resolve(b.g, b.disk, comps, n) == r && (r == 0 || r in T)
    decreases |comps|
  {
    hide Sane, Describes, Child, ValidIno, FirstLookup, InodeAt;
    if comps != [] {
      assert AddedAt(a, b, d, ino, name, n) && ChildTracked(a, T, n, comps[0]);
      var m := Child(a.g, a.disk, n, comps[0]);
      assert Child(b.g, b.disk, n, comps[0]) == m;
      if m != 0 {
        DuplicateResolves(a, b, T, d, ino, name, comps[1..], m);
      }
    }
  }

  /** Component lists resolve the same in both volumes, and none leads to `ino`. */
  ghost predicate SamePaths(a: Fs, b: Fs, ino: nat) {
    && Mounted(a) && Mounted(b) && ValidIno(a.g, ROOT) && ValidIno(b.g, ROOT)
    && forall comps: seq<seq<byte>> ::
         Resolve(b.g, b.disk, comps, ROOT) == Resolve(a.g, a.disk, comps, ROOT) != ino
  }

  /** A creation under a name that exists does not fail. The name keeps its inode exactly when it is in the
      first block of the directory; then no path resolves to the new inode, and every path resolves as before.
      Otherwise the name leads to the new inode from then on. */
  lemma CreateExisting(w: World, d: nat, junk: InodeImage)
    requires Inv(w) && CanCreate(w.fs, w.tracked, w.f.path) && |w.f.path| <= MAX_PATH_LEN
    requires d == Find(w.fs.g, w.fs.disk, ParentPath(w.f.path)) && Create(w, junk).1 == 0
    requires Accepts(w.fs.disk, Image(w.fs, d), BaseName(w.f.path)) && |List(w.fs.g, w.fs.disk, d)| < MAX_SUBDIRS
    requires Child(w.fs.g, w.fs.disk, d, BaseName(w.f.path)) != 0
    ensures var (b, ino, name) := (Create(w, junk).0.fs, Create(w, junk).0.f.inodeNum, BaseName(w.f.path));
      && ino !in w.tracked && Mounted(b) && b.g == w.fs.g
      && (Child(b.g, b.disk, d, name) == Child(w.fs.g, w.fs.disk, d, name)
          <==> FirstLookup(w.fs.disk, Image(w.fs, d), name) != 0)
      && (if FirstLookup(w.fs.disk, Image(w.fs, d), name) != 0 then SamePaths(w.fs, b, ino)
          else Child(b.g, b.disk, d, name) == ino)
  {
    hide Sane, Describes, Marked, CountsMatch, Mul, InodeAt, IsDir, DirOk, Owned, Accepts, DirFull, Rows, CreateIn, Child,
      Parsable, FileOk, FirstLookup, BaseName, ParentPath, Find, Roomy, List;
    AcceptsDir(w.fs.disk, Image(w.fs, d), BaseName(w.f.path));
    CreatedAdded(w, d, junk);
    var b, ino, name := CreateIn(w, d, junk).0.fs, CreateIn(w, d, junk).0.f.inodeNum, BaseName(w.f.path);
    assert AddedAt(w.fs, b, d, ino, name, d) && ChildTracked(w.fs, w.tracked, d, name);
    if FirstLookup(w.fs.disk, Image(w.fs, d), name) != 0 {
      forall comps: seq<seq<byte>>
        ensures Resolve(b.g, b.disk, comps, ROOT) == Resolve(w.fs.g, w.fs.disk, comps, ROOT) != ino
      {
        DuplicateResolves(w.fs, b, w.tracked, d, ino, name, comps, ROOT);
        NotZero(w.fs.g, ino);
      }
    }
  }

  lemma NotZero(g: Geometry, n: nat)
    requires ValidIno(g, n)
    ensures n != 0
  {
  }

  // Runs of calls.

  /** The blocks that a write touches belong to no other inode. */
  lemma WriteAvoids(w: World, data: seq<byte>, n: nat, i: nat)
    requires Usable(w) && |data| <= BLOCK_SIZE && n in w.tracked && n != w.f.inodeNum && Mounted(w.fs) && ValidIno(w.fs.g, n)
    requires i < Attach(w.fs.g, w.fs.disk, n) && Held(w.fs.g, w.fs.disk, PtrOf(w.fs.g, w.fs.disk, n, i))
    ensures PtrOf(w.fs.g, w.fs.disk, n, i) !in {Here(w), Second(w, data)}
  {
    hide Sane, Describes, Marked, CountsMatch, Mul, InodeAt, Ptr, Attached, WriteExisting, SectorsToBlocks, DirOk,
      KindOk, InodeUsed, BlockUsed, Second, FileOk;
    UsableFacts(w);
    SecondIsOurs(w, data);
    assert InodeOwned(w.fs, n);
    assert Apart(w.fs, w.f.inodeNum, w.f.pos / BLOCK_SIZE, n, i);
    assert Apart(w.fs, w.f.inodeNum, w.f.pos / BLOCK_SIZE + 1, n, i);
  }

  /** A write to a file leaves what a directory lists alone. */
  lemma WriteKeepsList(w: World, data: seq<byte>, n: nat)
    requires Usable(w) && |data| <= BLOCK_SIZE && n in w.tracked && n != w.f.inodeNum
    ensures var b := WriteExisting(w, data).0.fs;
      && Mounted(w.fs) && Mounted(b) && b.g == w.fs.g && ValidIno(b.g, n)
      && List(b.g, b.disk, n) == List(w.fs.g, w.fs.disk, n)
  {
    hide Sane, Describes, Marked, CountsMatch, BlockUsed, InodeUsed, Mul, InodeAt, Ptr, Attached, WriteExisting,
      SectorsToBlocks, DirOk, KindOk, List, Held, Second, FileOk, Touches;
    UsableTracked(w, n);
    UsableFacts(w);
    WriteTouches(w, data);
    var b := WriteExisting(w, data).0.fs;
    var D := {Here(w), Second(w, data)};
    TouchesFacts(w.fs, b, D, {w.f.inodeNum});
    assert InodeOwned(w.fs, n);
    forall i | 0 <= i < Attach(w.fs.g, w.fs.disk, n)
      ensures PtrOf(w.fs.g, w.fs.disk, n, i) !in D
    {
      assert Held(w.fs.g, w.fs.disk, PtrOf(w.fs.g, w.fs.disk, n, i));
      WriteAvoids(w, data, n, i);
    }
    DirStays(w.fs, b, w.tracked, w.tracked, D, {w.f.inodeNum}, n);
  }

  /** A seek leaves what the directories list alone. */
  lemma SeekKeepsList(w: World, p: nat, n: nat)
    requires Inv(w) && w.f.open && w.f.exist && Clean(w) && p < 0x1_0000_0000 && n in w.tracked && n != w.f.inodeNum
    ensures var b := SeekExisting(w, p).0.fs;
      && Mounted(w.fs) && Mounted(b) && b.g == w.fs.g && ValidIno(b.g, n)
      && List(b.g, b.disk, n) == List(w.fs.g, w.fs.disk, n)
  {
    hide Sane, Describes, Marked, CountsMatch, BlockUsed, InodeUsed, Mul, InodeAt, Ptr, Attached, SeekExisting,
      SectorsToBlocks, DirOk, KindOk, List, Held, FileOk, Touches, Owned, IsData;
    Tracked(w.fs, w.tracked, n);
    SeekTouches(w, p);
    TouchesFacts(w.fs, SeekExisting(w, p).0.fs, {}, {w.f.inodeNum});
    DirStays(w.fs, SeekExisting(w, p).0.fs, w.tracked, w.tracked, {}, {w.f.inodeNum}, n);
  }

  /** Directories that list the same keep all paths. */
  lemma {:induction false} ListsKeep(a: Fs, b: Fs, T: set<nat>, comps: seq<seq<byte>>, n: nat)
    requires SameLists(a, b, T) && n in T && ValidIno(a.g, n) && forall m, c :: m in T ==> ChildTracked(a, T, m, c)
    ensures Resolve(b.g, b.disk, comps, n) == Resolve(a.g, a.disk, comps, n)
    decreases |comps|
  {
    hide Sane, Describes, List, Lookup, InodeAt;
    if comps != [] {
      assert SameList(a, b, n) && ChildTracked(a, T, n, comps[0]);
      if Child(a.g, a.disk, n, comps[0]) != 0 {
        ListsKeep(a, b, T, comps[1..], Child(a.g, a.disk, n, comps[0]));
      }
    }
  }

  lemma ListsKeepPaths(a: Fs, b: Fs, T: set<nat>)
    requires Sound(a, T) && SameLists(a, b, T)
    ensures PathsKept(a, b)
  {
    hide Sane, Describes, Marked, CountsMatch, Mul, InodeAt, DirOk, Owned, List, Resolve;
    RootIsValid(a, T);
    forall n, c | n in T
      ensures ChildTracked(a, T, n, c)
    {
      SoundChildren(a, T, n, c);
    }
    forall comps: seq<seq<byte>> | Resolve(a.g, a.disk, comps, ROOT) != 0
      ensures Resolve(b.g, b.disk, comps, ROOT) == Resolve(a.g, a.disk, comps, ROOT)
    {
      ListsKeep(a, b, T, comps, ROOT);
    }
  }

  lemma KeptTrans(a: Fs, b: Fs, c: Fs)
    requires PathsKept(a, b) && PathsKept(b, c)
    ensures PathsKept(a, c)
  {
    hide Mounted, ValidIno, Resolve;
  }

  lemma KeptSelf(fs: Fs, T: set<nat>)
    requires Sound(fs, T)
    ensures PathsKept(fs, fs)
  {
    hide Sane, Describes, Marked, CountsMatch, Owned, DirOk;
    RootIsValid(fs, T);
  }

  /** A file lists nothing before and after. */
  lemma FileLists(a: Fs, b: Fs, n: nat)
    requires Mounted(a) && Mounted(b) && a.g == b.g && ValidIno(a.g, n) && !IsDir(Image(a, n)) && !IsDir(Image(b, n))
    ensures SameList(a, b, n)
  {
  }

  lemma WriteKeepsPaths(w: World, data: seq<byte>)
    requires Usable(w) && |data| <= BLOCK_SIZE
    ensures PathsKept(w.fs, WriteExisting(w, data).0.fs)
  {
    hide Sane, Describes, Marked, CountsMatch, Mul, InodeAt, Ptr, Attached, WriteExisting, SectorsToBlocks, DirOk, Owned,
      List, IsDir, IsFile, PathsKept;
    var b := WriteExisting(w, data).0.fs;
    UsableFacts(w);
    WriteInv(w, data);
    WriteTouches(w, data);
    forall n | n in w.tracked
      ensures SameList(w.fs, b, n)
    {
      if n == w.f.inodeNum {
        FileLists(w.fs, b, n);
      } else {
        WriteKeepsList(w, data, n);
      }
    }
    SameLength(w, b);
    ListsKeepPaths(w.fs, b, w.tracked);
  }

  lemma SameLength(w: World, b: Fs)
    requires Usable(w) && SameList(w.fs, b, w.f.inodeNum) && forall n :: n in w.tracked ==> SameList(w.fs, b, n)
    ensures SameLists(w.fs, b, w.tracked)
  {
    hide SameList;
    SameListIs(w.fs, b, w.f.inodeNum);
  }

  lemma SameListIs(a: Fs, b: Fs, n: nat)
    requires SameList(a, b, n)
    ensures Mounted(a) && Mounted(b) && a.g == b.g
  {
  }

  lemma SeekKeepsPaths(w: World, p: nat)
    requires Inv(w) && w.f.open && w.f.exist && Clean(w) && p < 0x1_0000_0000
    ensures PathsKept(w.fs, SeekExisting(w, p).0.fs)
  {
    hide Sane, Describes, Marked, CountsMatch, Mul, InodeAt, Ptr, Attached, SeekExisting, SectorsToBlocks, DirOk, Owned,
      List, IsDir, IsFile, PathsKept, Touches;
    var b := SeekExisting(w, p).0.fs;
    SeekInv(w, p);
    SeekTouches(w, p);
    TouchesFacts(w.fs, b, {}, {w.f.inodeNum});
    forall n | n in w.tracked
      ensures SameList(w.fs, b, n)
    {
      if n == w.f.inodeNum {
        FileLists(w.fs, b, n);
      } else {
        SeekKeepsList(w, p, n);
      }
    }
    SameListIs(w.fs, b, w.f.inodeNum);
    ListsKeepPaths(w.fs, b, w.tracked);
  }

  /** A creation whose directory would take the record takes it without damage and with room in the
      listing, and the name is new or in the first block. */
  ghost predicate NameSafe(w: World)
    requires Inv(w) && CreateFine(w)
  {
    |w.f.path| <= MAX_PATH_LEN ==>
      var d, name := Find(w.fs.g, w.fs.disk, ParentPath(w.f.path)), BaseName(w.f.path);
      IsDir(Image(w.fs, d)) && Roomy(w.fs.disk, Image(w.fs, d), name) ==>
        && Accepts(w.fs.disk, Image(w.fs, d), name) && |List(w.fs.g, w.fs.disk, d)| < MAX_SUBDIRS
        && (Child(w.fs.g, w.fs.disk, d, name) == 0 || FirstLookup(w.fs.disk, Image(w.fs, d), name) != 0)
  }

  lemma {:induction false} AddedKeeps(a: Fs, b: Fs, T: set<nat>, d: nat, ino: nat, name: seq<byte>,
                                      comps: seq<seq<byte>>, n: nat)
    requires NameAdded(a, b, T, d, ino, name) && n in T && ValidIno(a.g, n)
    requires Child(a.g, a.disk, d, name) == 0 || FirstLookup(a.disk, Image(a, d), name) != 0
    requires Resolve(a.g, a.disk, comps, n) != 0
    ensures Resolve(b.g, b.disk, comps, n) == Resolve(a.g, a.disk, comps, n)
    decreases |comps|
  {
    hide Sane, Describes, Child, ValidIno, FirstLookup, InodeAt;
    if comps != [] {
      assert AddedAt(a, b, d, ino, name, n) && ChildTracked(a, T, n, comps[0]);
      AddedKeeps(a, b, T, d, ino, name, comps[1..], Child(a.g, a.disk, n, comps[0]));
    }
  }

  /** A failed creation changes no listing. */
  lemma FailedLists(w: World, d: nat, junk: InodeImage, n: nat)
    requires Sound(w.fs, w.tracked) && ValidIno(w.fs.g, d) && |Rows(w.f.path)| > 0 && n in w.tracked
    requires IsDir(Image(w.fs, d)) ==>
      d in w.tracked && (DirFull(w.fs.disk, Image(w.fs, d)) || Roomy(w.fs.disk, Image(w.fs, d), BaseName(w.f.path)))
    requires CreateIn(w, d, junk).1 != 0
    ensures SameList(w.fs, CreateIn(w, d, junk).0.fs, n)
  {
    hide Sane, Describes, Marked, CountsMatch, BlockUsed, InodeUsed, Mul, InodeAt, IsDir, DirOk, Owned, Reserve, NewInode,
      Roomy, DirFull, Rows, PutInode, AddEntry, List, Touches, Staged, BaseName, Attached, Ptr;
    var k := InoGroup(w.fs.g, d);
    Tracked(w.fs, w.tracked, n);
    CreateInSound(w, d, junk);
    ReserveKeeps(w.fs, k);
    ReserveMounted(w.fs, k);
    var (r, ino, blk) := Reserve(w.fs, k);
    if IsDir(Image(w.fs, d)) {
      if blk == 0 {
        DirStays(w.fs, r, w.tracked, w.tracked, {}, {}, n);
      } else {
        StagedDir(w, d, junk, n);
      }
    }
  }

  /** A creation, successful or not, keeps all paths when its name is safe. */
  lemma CreateKeepsPaths(w: World, junk: InodeImage)
    requires Inv(w) && w.f.open && !w.f.exist && CreateFine(w) && NameSafe(w)
    ensures PathsKept(w.fs, Create(w, junk).0.fs)
  {
    hide Sane, Describes, Marked, CountsMatch, Mul, InodeAt, IsDir, DirOk, Owned, Accepts, DirFull, Rows, CreateIn, Child,
      Parsable, FileOk, FirstLookup, BaseName, ParentPath, Find, Roomy, List, Resolve;
    if |w.f.path| > MAX_PATH_LEN {
      KeptSelf(w.fs, w.tracked);
    } else {
      var d := Find(w.fs.g, w.fs.disk, ParentPath(w.f.path));
      var b := Create(w, junk).0.fs;
      RootIsValid(w.fs, w.tracked);
      CreateInSucceedsIff(w, d, junk);
      if Create(w, junk).1 != 0 {
        forall n | n in w.tracked
          ensures SameList(w.fs, b, n)
        {
          FailedLists(w, d, junk, n);
        }
        SameListIs(w.fs, b, ROOT);
        ListsKeepPaths(w.fs, b, w.tracked);
      } else {
        CreatedAdded(w, d, junk);
        var ino := Create(w, junk).0.f.inodeNum;
        forall comps: seq<seq<byte>> | Resolve(w.fs.g, w.fs.disk, comps, ROOT) != 0
          ensures Resolve(b.g, b.disk, comps, ROOT) == Resolve(w.fs.g, w.fs.disk, comps, ROOT)
        {
          AddedKeeps(w.fs, b, w.tracked, d, ino, BaseName(w.f.path), comps, ROOT);
        }
      }
    }
  }

  /** If the call creates a file its name is safe. */
  ghost predicate CallNameSafe(w: World, c: Call)
    requires Inv(w) && CallFine(w, c)
  {
    (!c.COpen? && w.f.open && !w.f.exist && (c.CSeek? ==> c.newPos != w.f.pos)) ==> CreateFine(w) && NameSafe(w)
  }

  lemma WriteStepKeeps(w: World, data: seq<byte>, junk: InodeImage)
    requires Inv(w) && Clean(w) && WriteFine(w, data)
    requires w.f.open && !w.f.exist ==> CreateFine(w) && NameSafe(w)
    ensures PathsKept(w.fs, Write(w, data, junk).0.fs)
  {
    hide Sound, Create, Attached, WriteExisting, IsFile, IsDir, SectorsToBlocks, PathsKept, CanCreate, NameSafe;
    KeptSelf(w.fs, w.tracked);
    var w1 := w;
    if w.f.open && !w.f.exist {
      CreateKeepsPaths(w, junk);
      CreateInv(w, junk);
      w1 := Create(w, junk).0;
    }
    if w1.f.open && w1.f.exist && |data| <= BLOCK_SIZE {
      WriteKeepsPaths(w1, data);
      KeptTrans(w.fs, w1.fs, WriteExisting(w1, data).0.fs);
    }
  }

  lemma SeekStepKeeps(w: World, p: nat, junk: InodeImage)
    requires Inv(w) && Clean(w) && SeekFine(w, p)
    requires w.f.open && !w.f.exist && p != w.f.pos ==> CreateFine(w) && NameSafe(w)
    ensures PathsKept(w.fs, Seek(w, p, junk).0.fs)
  {
    hide Sound, Create, Attached, SeekExisting, IsFile, IsDir, SectorsToBlocks, PathsKept, CanCreate, NameSafe;
    KeptSelf(w.fs, w.tracked);
    var w1 := w;
    if w.f.open && !w.f.exist && p != w.f.pos {
      CreateKeepsPaths(w, junk);
      CreateInv(w, junk);
      w1 := Create(w, junk).0;
    }
    if w1.f.open && w1.f.exist && p != w.f.pos {
      SeekKeepsPaths(w1, p);
      KeptTrans(w.fs, w1.fs, SeekExisting(w1, p).0.fs);
    }
  }

  lemma CloseStepKeeps(w: World, junk: InodeImage)
    requires Inv(w) && Clean(w) && (w.f.open && !w.f.exist ==> CreateFine(w) && NameSafe(w))
    ensures PathsKept(w.fs, Close(w, junk).0.fs)
  {
    hide Sound, Create, Attached, IsFile, IsDir, SectorsToBlocks, PathsKept, CanCreate, NameSafe;
    KeptSelf(w.fs, w.tracked);
    if w.f.open && !w.f.exist {
      CreateKeepsPaths(w, junk);
      CreateInv(w, junk);
    }
  }

  /** Each call keeps all paths. */
  lemma StepKeepsPaths(w: World, c: Call)
    requires Inv(w) && Clean(w) && CallFine(w, c) && CallNameSafe(w, c)
    ensures PathsKept(w.fs, Step(w, c).fs)
  {
    hide Sound, FileOk, CreateFine, CanOpen, WriteFine, SeekFine, PathsKept, NameSafe, Write, Seek, Close, Open;
    match c
    case COpen(path, mode) =>
      KeptSelf(w.fs, w.tracked);
      OpenInv(w, path, mode);
    case CWrite(data, junk) =>
      WriteStepKeeps(w, data, junk);
    case CSeek(p, junk) =>
      SeekStepKeeps(w, p, junk);
    case CClose(junk) =>
      CloseStepKeeps(w, junk);
  }

  /** Every creation of the run has a safe name. */
  ghost predicate NamesSafe(w: World, cs: seq<Call>)
    requires Inv(w) && Clean(w) && CallsFine(w, cs)
    decreases |cs|
  {
    hide Inv, Step, CallFine, CallNameSafe;
    cs == [] || (CallNameSafe(w, cs[0]) && (StepInv(w, cs[0]); NamesSafe(Step(w, cs[0]), cs[1..])))
  }

  /** Over every run of calls, succeeding or failing: every path that resolves before it resolves to the same
      inode after it. */
  lemma {:induction false} CallsKeepPaths(w: World, cs: seq<Call>)
    requires Inv(w) && Clean(w) && CallsFine(w, cs) && NamesSafe(w, cs)
    ensures PathsKept(w.fs, Steps(w, cs).fs)
    decreases |cs|
  {
    hide Inv, Step, CallFine, PathsKept, CallNameSafe;
    if cs == [] {
      SoundKept(w);
    } else {
      var w1 := Step(w, cs[0]);
      StepInv(w, cs[0]);
      StepKeepsPaths(w, cs[0]);
      CallsKeepPaths(w1, cs[1..]);
      KeptTrans(w.fs, w1.fs, Steps(w, cs).fs);
    }
  }

  lemma SoundKept(w: World)
    requires Inv(w)
    ensures PathsKept(w.fs, w.fs)
  {
    hide Sound, PathsKept;
    KeptSelf(w.fs, w.tracked);
  }
}
