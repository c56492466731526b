/** What creating a file keeps and what it achieves. */
module Creation {
  import opened Bytes
  import opened Arith
  import opened Bitmaps
  import opened Volume
  import opened Alloc
  import opened Records
  import opened Slots
  import opened Paths
  import opened Namespace
  import opened Ownership
  import opened Files

  /** The new inode is a regular, empty file with one attached block. */
  lemma NewInodeFields(junk: InodeImage, blk: nat)
    requires blk < 0x1_0000_0000
    ensures var y := NewInode(junk, blk);
      && TypePerm(y) == 0x81A4 && IsFile(y) && !IsDir(y)
      && LowerSize(y) == 0 && Sectors(y) == 8 && SectorsToBlocks(Sectors(y)) == 1 && Attached(y) == 1 && Ptr(y, 0) == blk
  {
    hide U16, U32, PutU16, PutU32;
    var a := PutU16(junk, 0, 0x81A4);
    var b := PutU32(a, 40, blk);
    var c := PutU16(b, 26, 1);
    var d := PutU32(c, 28, 8);
    var y := PutU32(d, 4, 0);
    PutGet16(junk, 0, 0x81A4);
    PutGet32(a, 40, blk);
    PutGet32(c, 28, 8);
    PutGet32(d, 4, 0);
    SameU16(a, y, 0);
    SameU32(b, y, 40);
    SameU32(d, y, 28);
  }

  /** A block that was not held before is free of every tracked inode. */
  lemma FreshInodeUntracked(fs: Fs, T: set<nat>, ino: nat)
    requires Sound(fs, T) && ValidIno(fs.g, ino) && !InodeUsed(fs.g, fs.disk, ino)
    ensures ino !in T
  {
    hide Sane, Describes, Marked, CountsMatch, InodeUsed, Mul, DirOk;
    assert ino in T ==> InodeOwned(fs, ino);
  }

  lemma NumbersFit(fs: Fs)
    requires Mounted(fs)
    ensures Mul(|fs.g.bb|, fs.g.ipg) < 0x1_0000_0000 && |fs.disk| < 0x1_0000_0000
  {
    MulBound(|fs.g.bb|, fs.g.ipg);
    MulBound(|fs.g.bb|, fs.g.bpg);
  }

  /** The state after the new inode was written, before the name is added. */
  lemma ReservedSound(fs: Fs, T: set<nat>, k: nat, junk: InodeImage)
    requires Sound(fs, T) && k < |fs.g.bb|
    ensures Touches(fs, Reserve(fs, k).0, {}, {}) && Sound(Reserve(fs, k).0, T)
    ensures var (fs2, ino, blk) := Reserve(fs, k); blk != 0 ==>
      && ino != 0 && ValidIno(fs2.g, ino) && ino !in T && ino < 0x1_0000_0000
      && var fs3 := SetInode(fs2, ino, NewInode(junk, blk));
         && Touches(fs, fs3, {}, {ino}) && Sound(fs3, T + {ino})
         && ValidIno(fs3.g, ino) && Image(fs3, ino) == NewInode(junk, blk)
  {
    hide Sane, Describes, Marked, CountsMatch, BlockUsed, InodeUsed, Mul, InodeAt, Reserve, NewInode, IsDir,
      Attached, Ptr, DirOk, Owned, PutInode;
    ReserveKeeps(fs, k);
    var (fs2, ino, blk) := Reserve(fs, k);
    SoundStays(fs, fs2, T, {});
    if blk != 0 {
      NumbersFit(fs);
      FreshInodeUntracked(fs, T, ino);
      var y := NewInode(junk, blk);
      SetInodeTouches(fs2, ino, y);
      var fs3 := SetInode(fs2, ino, y);
      TouchesTrans(fs, fs2, fs3, {}, {}, {}, {ino});
      NewInodeFields(junk, blk);
      HeldStays(fs2, fs3, {}, {ino}, blk);
      SoundGrows(fs, fs3, T, {}, ino);
    }
  }

  /** A directory of the invariant keeps its inode and its first block while nothing of it is written. */
  lemma FirstBlockStays(a: Fs, b: Fs, T: set<nat>, I: set<nat>, d: nat)
    requires Sound(a, T) && Touches(a, b, {}, I) && d in T && d !in I && ValidIno(a.g, d) && IsDir(Image(a, d))
    ensures Mounted(b) && b.g == a.g && Image(b, d) == Image(a, d)
    ensures var p := Ptr(Image(a, d), 0); p != 0 ==> p < |a.disk| && p < |b.disk| && b.disk[p] == a.disk[p]
  {
    hide Sane, Describes, Marked, CountsMatch, BlockUsed, InodeUsed, Mul, InodeAt, IsDir, Attached, Ptr, DirOk;
    assert InodeOwned(a, d);
    if Ptr(Image(a, d), 0) != 0 {
      assert Held(a.g, a.disk, PtrOf(a.g, a.disk, d, 0));
    }
  }

  lemma {:induction false} FullIsNotFound(b: Block, o: nat, j: nat)
    requires ScanFull(b, o, j)
    ensures FindLast(b, o, j) == -1
    decreases MAX_SUBDIRS - j
  {
    if j < MAX_SUBDIRS {
      FullIsNotFound(b, o + RecLen(b, o), j + 1);
    }
  }

  lemma FullFails(disk: seq<Block>, x: InodeImage, ino: nat, name: seq<byte>)
    requires DirFull(disk, x) && IsDir(x)
    ensures AddEntry(disk, x, ino, name) == (disk, 1)
  {
    hide Ptr, IsDir, Insert, Fits, FindLast, ScanFull;
    if Ptr(x, 0) != 0 {
      FullIsNotFound(disk[Ptr(x, 0)], 0, 0);
    }
  }

  /** The first block decides whether a directory has room for a name, takes it without damage, or is full. */
  lemma SameFirstBlock(a: seq<Block>, b: seq<Block>, x: InodeImage, name: seq<byte>)
    requires Ptr(x, 0) != 0 ==> Ptr(x, 0) < |a| && Ptr(x, 0) < |b| && b[Ptr(x, 0)] == a[Ptr(x, 0)]
    ensures DirFull(b, x) == DirFull(a, x) && Roomy(b, x, name) == Roomy(a, x, name) && Accepts(b, x, name) == Accepts(a, x, name)
  {
    hide Ptr, IsDir, Tiled, LastOffset, Count, Fits, NameLen, RecSize, ScanFull, FindLast, Spaced;
  }

  /** The stage before the name is added, when the allocations succeeded. */
  ghost function Staged(w: World, d: nat, junk: InodeImage): (r: (Fs, nat))
    requires Sound(w.fs, w.tracked) && ValidIno(w.fs.g, d)
    requires Reserve(w.fs, InoGroup(w.fs.g, d)).2 != 0
  {
    hide Sane, Describes, Marked, CountsMatch, Reserve, Mul, Owned, DirOk;
    ReserveMounted(w.fs, InoGroup(w.fs.g, d));
    var (fs2, ino, blk) := Reserve(w.fs, InoGroup(w.fs.g, d));
    (SetInode(fs2, ino, NewInode(junk, blk)), ino)
  }

  /** Creating under directory `d` keeps the invariant on every path: when the parent is no directory or
      an allocation fails no inode is added; when the directory is full the inode and its block leak;
      otherwise the name is added. */
  lemma CreateInSound(w: World, d: nat, junk: InodeImage)
    requires Sound(w.fs, w.tracked) && ValidIno(w.fs.g, d) && |Rows(w.f.path)| > 0
    requires IsDir(Image(w.fs, d)) ==>
      d in w.tracked && (DirFull(w.fs.disk, Image(w.fs, d)) || Roomy(w.fs.disk, Image(w.fs, d), BaseName(w.f.path)))
    ensures var (w2, err) := CreateIn(w, d, junk); Sound(w2.fs, w2.tracked)
    ensures var (w2, err) := CreateIn(w, d, junk);
      err == 0 ==> IsDir(Image(w.fs, d)) && Reserve(w.fs, InoGroup(w.fs.g, d)).2 != 0
    ensures Reserve(w.fs, InoGroup(w.fs.g, d)).2 != 0 && IsDir(Image(w.fs, d)) ==>
      var (w2, err) := CreateIn(w, d, junk);
      var (fs3, ino) := Staged(w, d, junk);
      && w2.tracked == w.tracked + {ino} && w2.f.inodeNum == ino
      && Sound(fs3, w.tracked + {ino})
      && (err != 0 ==> w2.fs == fs3)
      && (err == 0 ==>
            && Takes(fs3, w.tracked + {ino}, d, BaseName(w.f.path))
            && w2.fs == AddName(fs3, w.tracked + {ino}, d, ino, BaseName(w.f.path)))
  {
    hide Sane, Describes, Marked, CountsMatch, BlockUsed, InodeUsed, Mul, InodeAt, IsDir, Attached, Ptr, DirOk, Owned,
      Reserve, NewInode, Roomy, Accepts, DirFull, AddEntry, Rows, Added, PutInode;
    var x, k, name := Image(w.fs, d), InoGroup(w.fs.g, d), BaseName(w.f.path);
    ReservedSound(w.fs, w.tracked, k, junk);
    var (fs2, ino, blk) := Reserve(w.fs, k);
    if IsDir(x) && blk != 0 {
      var fs3, T := SetInode(fs2, ino, NewInode(junk, blk)), w.tracked + {ino};
      FirstBlockStays(w.fs, fs3, w.tracked, {ino}, d);
      SameFirstBlock(w.fs.disk, fs3.disk, x, name);
      if Roomy(fs3.disk, x, name) {
        AddEntryAdds(fs3.disk, x, ino, name);
        SoundAdds(fs3, T, d, ino, name);
      } else {
        FullFails(fs3.disk, x, ino, name);
        assert fs3.(disk := fs3.disk) == fs3;
      }
    }
  }

  // When a creation succeeds.

  /** A bit of the block bitmap is its block's mark. */
  lemma BitIsMark(g: Geometry, disk: seq<Block>, k: nat, i: nat)
    requires Shaped(g, disk) && k < |g.bb| && i < g.ipg
    ensures GroupOk(g, k) && i < 32768 && BlockNumber(g, k, i) < Mul(|g.bb|, g.bpg)
    ensures BlockUsed(g, disk, BlockNumber(g, k, i)) <==> Bit(disk[g.bb[k]], i)
  {
    hide Bit;
    DivModUnique(k, i, g.bpg);
    MulApart(k, |g.bb|, g.bpg);
  }

  lemma SameFreeBlocks(a: Fs, b: Fs, k: nat, n: nat)
    requires Mounted(a) && Mounted(b) && a.g == b.g && k < |a.g.bb| && TookInode(a, b, k, n)
    ensures NoFreeBlock(a, k) <==> NoFreeBlock(b, k)
  {
    hide Sane, Describes, BlockUsed, InodeUsed, Bit, Mul;
    forall i | 0 <= i < a.g.ipg
      ensures GroupOk(a.g, k) && i < 32768 && (Bit(b.disk[a.g.bb[k]], i) <==> Bit(a.disk[a.g.bb[k]], i))
    {
      BitIsMark(a.g, a.disk, k, i);
      BitIsMark(a.g, b.disk, k, i);
    }
  }

  /** An inode and a block are found exactly when the group has both free among the scanned bits. */
  lemma ReserveIff(fs: Fs, k: nat)
    requires Good(fs) && k < |fs.g.bb|
    ensures Reserve(fs, k).2 != 0 <==> !NoFreeInode(fs, k) && !NoFreeBlock(fs, k)
  {
    hide Sane, Describes, Marked, CountsMatch, BlockUsed, InodeUsed, Mul, InodeAt, AllocBlock, AllocInode,
      NoFreeBlock, NoFreeInode,
      TookBlock, TookInode;
    AllocInodeKeeps(fs, k);
    var (fs1, ino) := AllocInode(fs, k);
    if ino != 0 {
      AllocBlockKeeps(fs1, k);
      SameFreeBlocks(fs, fs1, k, ino);
    }
  }

  lemma CreateInSucceedsIff(w: World, d: nat, junk: InodeImage)
    requires Sound(w.fs, w.tracked) && ValidIno(w.fs.g, d) && |Rows(w.f.path)| > 0
    requires IsDir(Image(w.fs, d)) ==>
      d in w.tracked && (DirFull(w.fs.disk, Image(w.fs, d)) || Roomy(w.fs.disk, Image(w.fs, d), BaseName(w.f.path)))
    ensures CreateIn(w, d, junk).1 == 0 <==>
      IsDir(Image(w.fs, d)) && Reserve(w.fs, InoGroup(w.fs.g, d)).2 != 0
      && Roomy(w.fs.disk, Image(w.fs, d), BaseName(w.f.path))
  {
    hide Sane, Describes, Marked, CountsMatch, BlockUsed, InodeUsed, Mul, InodeAt, IsDir, Attached, Ptr, DirOk, Owned,
      Reserve, NewInode, Roomy, Accepts, DirFull, AddEntry, Rows, Added, PutInode;
    var x, k, name := Image(w.fs, d), InoGroup(w.fs.g, d), BaseName(w.f.path);
    ReservedSound(w.fs, w.tracked, k, junk);
    var (fs2, ino, blk) := Reserve(w.fs, k);
    if IsDir(x) && blk != 0 {
      var fs3 := SetInode(fs2, ino, NewInode(junk, blk));
      FirstBlockStays(w.fs, fs3, w.tracked, {ino}, d);
      SameFirstBlock(w.fs.disk, fs3.disk, x, name);
      if Roomy(fs3.disk, x, name) {
        AddEntryAdds(fs3.disk, x, ino, name);
      } else {
        FullFails(fs3.disk, x, ino, name);
      }
    }
  }

  /** A creation succeeds exactly when the parent is a directory with room for the name, and its group has a
      free inode and a free block among the scanned bits. */
  lemma CreateSucceedsIff(w: World, junk: InodeImage)
    requires Sound(w.fs, w.tracked) && |w.f.path| <= MAX_PATH_LEN && CanCreate(w.fs, w.tracked, w.f.path)
    ensures var d := Find(w.fs.g, w.fs.disk, ParentPath(w.f.path));
      Create(w, junk).1 == 0 <==>
        IsDir(Image(w.fs, d)) && Roomy(w.fs.disk, Image(w.fs, d), BaseName(w.f.path))
        && !NoFreeInode(w.fs, InoGroup(w.fs.g, d)) && !NoFreeBlock(w.fs, InoGroup(w.fs.g, d))
  {
    hide Sane, Describes, Marked, CountsMatch, Mul, InodeAt, IsDir, DirOk, Owned, Reserve, Roomy, DirFull, Rows,
      CreateIn,
      NoFreeInode, NoFreeBlock, Parsable, Find;
    var d := Find(w.fs.g, w.fs.disk, ParentPath(w.f.path));
    CreateInSucceedsIff(w, d, junk);
    ReserveIff(w.fs, InoGroup(w.fs.g, d));
  }

  // Names after a creation.

  /** `b` has the directories of `a`, where `d` has gained the name with inode `ino`. */
  ghost predicate NameGained(a: Fs, b: Fs, T: set<nat>, d: nat, ino: nat, name: seq<byte>) {
    && Mounted(a) && Mounted(b) && a.g == b.g
    && d in T && ValidIno(a.g, ino) && ino !in T
    && (forall n :: n in T ==> ValidIno(a.g, n) && GainedAt(a, b, d, ino, name, n))
    && (forall n, c :: n in T ==> ChildTracked(a, T, n, c))
  }

  ghost predicate GainedAt(a: Fs, b: Fs, d: nat, ino: nat, name: seq<byte>, n: nat)
    requires Mounted(a) && Mounted(b) && a.g == b.g && ValidIno(a.g, n)
  {
    && (forall c :: n != d || c != name ==> Child(b.g, b.disk, n, c) == Child(a.g, a.disk, n, c))
    && (n == d ==> Child(a.g, a.disk, n, name) == 0 && Child(b.g, b.disk, n, name) == ino)
  }

  /** `b` has the children of `a`, except that `name` in `d` leads to `ino` unless it is in the first block. */
  ghost predicate AddedAt(a: Fs, b: Fs, d: nat, ino: nat, name: seq<byte>, n: nat)
    requires Mounted(a) && Mounted(b) && a.g == b.g && ValidIno(a.g, n) && ValidIno(a.g, d)
  {
    forall c: seq<byte> :: Child(b.g, b.disk, n, c)
      == if n == d && c == name && FirstLookup(a.disk, Image(a, d), name) == 0 then ino else Child(a.g, a.disk, n, c)
  }

  /** The same for all tracked directories. */
  ghost predicate NameAdded(a: Fs, b: Fs, T: set<nat>, d: nat, ino: nat, name: seq<byte>) {
    && Mounted(a) && Mounted(b) && a.g == b.g
    && d in T && ValidIno(a.g, d) && ValidIno(a.g, ino) && ino !in T
    && (forall n :: n in T ==> ValidIno(a.g, n) && AddedAt(a, b, d, ino, name, n))
    && (forall n, c :: n in T ==> ChildTracked(a, T, n, c))
  }

  ghost predicate ChildTracked(a: Fs, T: set<nat>, n: nat, c: seq<byte>)
    requires Mounted(a)
  {
    ValidIno(a.g, n) && (Child(a.g, a.disk, n, c) != 0 ==> Child(a.g, a.disk, n, c) in T)
  }

  lemma SoundChildren(fs: Fs, T: set<nat>, n: nat, c: seq<byte>)
    requires Sound(fs, T) && n in T
    ensures ChildTracked(fs, T, n, c)
  {
    hide Sane, Describes, Marked, CountsMatch, Mul, InodeAt, IsDir, ListFrom, ListReadable, KindOk, InodeUsed, Held;
    assert InodeOwned(fs, n) && DirOk(fs, T, n);
    LookupIn(List(fs.g, fs.disk, n), c);
  }

  /** Every path that resolved before the creation resolves to the same inode after it. */
  lemma {:induction false} OldPathsResolve(a: Fs, b: Fs, T: set<nat>, d: nat, ino: nat, name: seq<byte>,
                                           comps: seq<seq<byte>>, n: nat)
    requires NameGained(a, b, T, d, ino, name) && n in T && ValidIno(a.g, n)
    requires Resolve(a.g, a.disk, comps, n) != 0
    ensures Resolve(b.g, b.disk, comps, n) == Resolve(a.g, a.disk, comps, n)
    ensures SelfFree(a.g, a.disk, comps, n) ==> SelfFree(b.g, b.disk, comps, n)
    decreases |comps|
  {
    hide Sane, Describes, Child, ValidIno;
    if comps != [] {
      assert GainedAt(a, b, d, ino, name, n) && ChildTracked(a, T, n, comps[0]);
      OldPathsResolve(a, b, T, d, ino, name, comps[1..], Child(a.g, a.disk, n, comps[0]));
    }
  }

  /** A successful creation adds the name to its directory, whether or not it was there, provided the listing
      has room for one more entry. */
  lemma CreatedAdded(w: World, d: nat, junk: InodeImage)
    requires Sound(w.fs, w.tracked) && ValidIno(w.fs.g, d) && |Rows(w.f.path)| > 0 && d in w.tracked
    requires Accepts(w.fs.disk, Image(w.fs, d), BaseName(w.f.path))
    requires CreateIn(w, d, junk).1 == 0
    requires |List(w.fs.g, w.fs.disk, d)| < MAX_SUBDIRS
    ensures NameAdded(w.fs, CreateIn(w, d, junk).0.fs, w.tracked, d, CreateIn(w, d, junk).0.f.inodeNum, BaseName(w.f.path))
  {
    hide Sane, Describes, Marked, CountsMatch, BlockUsed, InodeUsed, Mul, InodeAt, IsDir, Attached, Ptr, DirOk, Owned,
      Reserve, NewInode, Accepts, Roomy, DirFull, AddEntry, Rows, Added, PutInode, CreateIn, Staged, ListFrom, Lookup,
      BaseName, FirstLookup;
    var (w2, err) := CreateIn(w, d, junk);
    AcceptsIsRoomy(w.fs.disk, Image(w.fs, d), BaseName(w.f.path));
    CreateInSound(w, d, junk);
    var (fs3, ino) := Staged(w, d, junk);
    StagedKeeps(w, d, junk);
    StagedDir(w, d, junk, d);
    StagedFirst(w, d, junk, BaseName(w.f.path));
    StagedLookup(w, d, junk, BaseName(w.f.path));
    forall n | n in w.tracked
      ensures ValidIno(w.fs.g, n) && AddedAt(w.fs, w2.fs, d, ino, BaseName(w.f.path), n)
    {
      StagedDir(w, d, junk, n);
      AddedChild(fs3, w.tracked + {ino}, d, ino, BaseName(w.f.path), n);
    }
    forall n, c | n in w.tracked
      ensures ChildTracked(w.fs, w.tracked, n, c)
    {
      SoundChildren(w.fs, w.tracked, n, c);
    }
  }

  /** ... and makes it gain exactly the new name when it was not. */
  lemma CreatedGained(w: World, d: nat, junk: InodeImage)
    requires Sound(w.fs, w.tracked) && ValidIno(w.fs.g, d) && |Rows(w.f.path)| > 0 && d in w.tracked
    requires Accepts(w.fs.disk, Image(w.fs, d), BaseName(w.f.path))
    requires CreateIn(w, d, junk).1 == 0
    requires |List(w.fs.g, w.fs.disk, d)| < MAX_SUBDIRS
    requires Lookup(List(w.fs.g, w.fs.disk, d), BaseName(w.f.path)) == 0
    ensures NameGained(w.fs, CreateIn(w, d, junk).0.fs, w.tracked, d, CreateIn(w, d, junk).0.f.inodeNum, BaseName(w.f.path))
  {
    hide Sane, Describes, Marked, CountsMatch, Mul, InodeAt, IsDir, DirOk, Owned, Accepts, Rows, CreateIn, List, Lookup,
      BaseName, FirstLookup;
    CreatedAdded(w, d, junk);
    var (w2, name) := (CreateIn(w, d, junk).0, BaseName(w.f.path));
    AcceptsDir(w.fs.disk, Image(w.fs, d), name);
    NewIsNotFirst(w.fs, d, name);
    forall n | n in w.tracked
      ensures ValidIno(w.fs.g, n) && GainedAt(w.fs, w2.fs, d, w2.f.inodeNum, name, n)
    {
      assert AddedAt(w.fs, w2.fs, d, w2.f.inodeNum, name, n);
    }
  }

  lemma AcceptsDir(disk: seq<Block>, x: InodeImage, name: seq<byte>)
    requires Accepts(disk, x, name)
    ensures IsDir(x) && Ptr(x, 0) != 0 && Ptr(x, 0) < |disk| && NoNul(name) && |name| <= NAME_LEN
  {
  }

  /** A name that a directory does not list is not in its first block. */
  lemma NewIsNotFirst(fs: Fs, d: nat, name: seq<byte>)
    requires Mounted(fs) && ValidIno(fs.g, d) && IsDir(Image(fs, d))
    requires Ptr(Image(fs, d), 0) != 0 && Ptr(Image(fs, d), 0) < |fs.disk|
    ensures FirstLookup(fs.disk, Image(fs, d), name) != 0 ==>
      Lookup(List(fs.g, fs.disk, d), name) == FirstLookup(fs.disk, Image(fs, d), name)
  {
    hide Sane, Describes, InodeAt, Parse, Ptr, ListReadable, Lookup, IsDir, ListFrom;
    FirstOfList(fs.disk, Image(fs, d), name);
  }

  lemma FirstOfList(disk: seq<Block>, x: InodeImage, name: seq<byte>)
    requires Ptr(x, 0) != 0 && Ptr(x, 0) < |disk|
    ensures FirstLookup(disk, x, name) != 0 ==> Lookup(ListFrom(disk, x, 0, MAX_SUBDIRS), name) == FirstLookup(disk, x, name)
  {
    hide Parse, Ptr, ListReadable, Lookup, ListFrom;
    var p := Parse(disk[Ptr(x, 0)], 0, MAX_SUBDIRS);
    ListStep(disk, x, 0, MAX_SUBDIRS);
    ParseNonzero(disk[Ptr(x, 0)], 0, MAX_SUBDIRS);
    LookupFirst(p, ListFrom(disk, x, 1, MAX_SUBDIRS - |p|), name);
  }

  lemma StagedKeeps(w: World, d: nat, junk: InodeImage)
    requires Sound(w.fs, w.tracked) && ValidIno(w.fs.g, d)
    requires Reserve(w.fs, InoGroup(w.fs.g, d)).2 != 0
    ensures var (fs3, ino) := Staged(w, d, junk);
      && Touches(w.fs, fs3, {}, {ino}) && Sound(fs3, w.tracked + {ino})
      && ValidIno(w.fs.g, ino) && ino !in w.tracked && 0 < ino < 0x1_0000_0000
  {
    hide Sane, Describes, Marked, CountsMatch, BlockUsed, InodeUsed, Mul, InodeAt, DirOk, Owned, Reserve, NewInode,
      PutInode, IsData;
    ReservedSound(w.fs, w.tracked, InoGroup(w.fs.g, d), junk);
  }

  /** The parent is the same before the name is added. */
  lemma StagedFirst(w: World, d: nat, junk: InodeImage, name: seq<byte>)
    requires Sound(w.fs, w.tracked) && ValidIno(w.fs.g, d) && d in w.tracked && IsDir(Image(w.fs, d))
    requires Reserve(w.fs, InoGroup(w.fs.g, d)).2 != 0
    ensures var fs3 := Staged(w, d, junk).0;
      && Mounted(fs3) && fs3.g == w.fs.g && Image(fs3, d) == Image(w.fs, d)
      && Accepts(fs3.disk, Image(fs3, d), name) == Accepts(w.fs.disk, Image(w.fs, d), name)
      && Roomy(fs3.disk, Image(fs3, d), name) == Roomy(w.fs.disk, Image(w.fs, d), name)
    ensures var (fs3, p) := (Staged(w, d, junk).0, Ptr(Image(w.fs, d), 0));
      p != 0 ==> p < |w.fs.disk| && p < |fs3.disk| && fs3.disk[p] == w.fs.disk[p]
  {
    hide Sane, Describes, Marked, CountsMatch, BlockUsed, InodeUsed, Mul, InodeAt, Reserve, NewInode, PutInode, IsData,
      Staged, KindOk, Held, ListFrom, DirOk, IsDir, Accepts, Roomy, Ptr;
    StagedKeeps(w, d, junk);
    var (fs3, ino) := Staged(w, d, junk);
    FirstBlockStays(w.fs, fs3, w.tracked, {ino}, d);
    SameFirstBlock(w.fs.disk, fs3.disk, Image(w.fs, d), name);
  }

  lemma StagedLookup(w: World, d: nat, junk: InodeImage, name: seq<byte>)
    requires Sound(w.fs, w.tracked) && ValidIno(w.fs.g, d) && d in w.tracked && Accepts(w.fs.disk, Image(w.fs, d), name)
    requires Reserve(w.fs, InoGroup(w.fs.g, d)).2 != 0
    ensures var fs3 := Staged(w, d, junk).0;
      && Mounted(fs3) && fs3.g == w.fs.g
      && FirstLookup(fs3.disk, Image(fs3, d), name) == FirstLookup(w.fs.disk, Image(w.fs, d), name)
  {
    hide Sane, Describes, Marked, CountsMatch, Mul, InodeAt, Reserve, Staged, DirOk, Owned, Ptr, Tiled, LastOffset, Count,
      Fits, NameLen, RecSize, Lookup, Parse;
    StagedFirst(w, d, junk, name);
  }

  lemma StagedDir(w: World, d: nat, junk: InodeImage, n: nat)
    requires Sound(w.fs, w.tracked) && ValidIno(w.fs.g, d)
    requires Reserve(w.fs, InoGroup(w.fs.g, d)).2 != 0 && n in w.tracked
    ensures var fs3 := Staged(w, d, junk).0;
      Mounted(fs3) && fs3.g == w.fs.g && ValidIno(w.fs.g, n) && List(fs3.g, fs3.disk, n) == List(w.fs.g, w.fs.disk, n)
  {
    hide Sane, Describes, Marked, CountsMatch, BlockUsed, InodeUsed, Mul, InodeAt, Reserve, NewInode, PutInode, IsData,
      Staged, KindOk, Held, ListFrom, DirOk;
    StagedKeeps(w, d, junk);
    assert InodeOwned(w.fs, n);
    var (fs3, ino) := Staged(w, d, junk);
    DirStays(w.fs, fs3, w.tracked, w.tracked, {}, {ino}, n);
  }

  /** Children after adding a name, where the listing of the directory had room. */
  lemma AddedChild(fs: Fs, T: set<nat>, d: nat, ino: nat, name: seq<byte>, n: nat)
    requires Sound(fs, T) && Takes(fs, T, d, name) && 0 < ino < 0x1_0000_0000 && ino in T && n in T
    requires ValidIno(fs.g, ino) && ValidIno(fs.g, n) && Accepts(fs.disk, Image(fs, d), name)
    requires |List(fs.g, fs.disk, d)| < MAX_SUBDIRS
    ensures Mounted(AddName(fs, T, d, ino, name)) && AddedAt(fs, AddName(fs, T, d, ino, name), d, ino, name, n)
  {
    hide Sane, Describes, Marked, CountsMatch, BlockUsed, InodeUsed, Mul, InodeAt, IsDir, Attached, Ptr, DirOk, Owned,
      Accepts, Roomy, Added, ListFrom, Lookup, SameDirBlocks, IsData, ValidIno, FirstLookup;
    var b := AddName(fs, T, d, ino, name);
    SoundAdds(fs, T, d, ino, name);
    if n == d {
      AddTouches(fs, T, d, ino, name);
      SameInode(fs, b, {Ptr(Image(fs, d), 0)}, d);
      FirstBlock(fs, T, d, name);
      forall c: seq<byte>
        ensures Child(b.g, b.disk, d, c)
             == if c == name && FirstLookup(fs.disk, Image(fs, d), name) == 0 then ino else Child(fs.g, fs.disk, d, c)
      {
        AddedLookup(fs.disk, Image(fs, d), ino, name, c);
      }
    }
  }

  // The parent's path.

  /** The rows between the first and the last, run together. */
  function Middle(path: seq<byte>): seq<byte>
    requires |Rows(path)| >= 2
  {
    Concat(Rows(path)[1..|Rows(path)| - 1])
  }

  lemma {:induction false} ConcatFirst(rows: seq<seq<byte>>)
    requires |rows| > 0
    ensures Concat(rows) == rows[0] + Concat(rows[1..])
  {
    if |rows| > 1 {
      var init := rows[..|rows| - 1];
      ConcatFirst(init);
      assert rows[1..][..|rows| - 2] == init[1..];
    }
  }

  lemma {:induction false} ConcatNoSlash(rows: seq<seq<byte>>)
    requires forall k :: 0 <= k < |rows| ==> NoSlash(rows[k])
    ensures NoSlash(Concat(rows))
  {
    if rows != [] {
      ConcatNoSlash(rows[..|rows| - 1]);
    }
  }

  /** The path built for the parent has a single component: all components between the root and the
      last one, run together. */
  lemma ParentComponents(path: seq<byte>)
    requires |Rows(path)| >= 2
    ensures Components(ParentPath(path)) == if Middle(path) == [] then [] else [Middle(path)]
  {
    SplitFacts(path);
    var rows, m := Rows(path), Middle(path);
    var p := Split(path)[0];
    var init := rows[..|rows| - 1];
    assert rows[0] == p + [SLASH];
    ConcatFirst(init);
    assert init[1..] == rows[1..|rows| - 1];
    var mid := rows[1..|rows| - 1];
    forall k | 0 <= k < |mid|
      ensures NoSlash(mid[k])
    {
      assert mid[k] == Split(path)[k + 1];
    }
    ConcatNoSlash(mid);
    hide Split, Rows, Concat;
    OneComponent(p, m);
  }

  lemma OneComponent(p: seq<byte>, m: seq<byte>)
    requires NoSlash(p) && NoSlash(m)
    ensures Components(p + [SLASH] + m) == if m == [] then [] else [m]
  {
    var s := p + [SLASH] + m;
    assert Join([p]) == p;
    assert [p, m][..1] == [p];
    assert Join([p, m]) == s;
    SplitJoin([p, m]);
    assert Split(s) == [p, m];
    assert EndsInSlash(s) <==> m == [];
    if m == [] {
      assert Rows(s) == [p][0 := p + [SLASH]];
    } else {
      assert Rows(s) == [p, m][0 := p + [SLASH]];
    }
  }

  /** Up to three levels the parent's path leads where the path's own directory components lead. */
  lemma ShallowParent(g: Geometry, disk: seq<Block>, path: seq<byte>)
    requires Shaped(g, disk) && ValidIno(g, ROOT)
    requires |Rows(path)| == 2 || (|Rows(path)| == 3 && Rows(path)[1] != [])
    ensures Find(g, disk, ParentPath(path)) == Walk(g, disk, Components(path)[..|Components(path)| - 1], ROOT, Fresh())
  {
    hide Sane, Rows, Walk, Fresh, ParentPath, Concat, Shaped;
    ParentComponents(path);
    var mid := Rows(path)[1..|Rows(path)| - 1];
    assert Components(path)[..|Components(path)| - 1] == mid;
    if |mid| == 1 {
      assert mid == [Rows(path)[1]];
      ConcatOne(Rows(path)[1]);
    } else {
      assert mid == [];
      ConcatNone();
    }
  }

  lemma ConcatOne(row: seq<byte>)
    ensures Concat([row]) == row
  {
    assert [row][..0] == [];
  }

  lemma ConcatNone()
    ensures Concat([]) == []
  {
  }

  /** Deeper, the driver looks for one name made of all the directory components: the right parent is
      found exactly when the root directory leads from that name to where the components lead. */
  lemma DeepParent(g: Geometry, disk: seq<Block>, path: seq<byte>)
    requires Shaped(g, disk) && ValidIno(g, ROOT) && |Rows(path)| >= 3 && Middle(path) != []
    ensures var dirs := Components(path)[..|Components(path)| - 1];
      var m := Child(g, disk, ROOT, Middle(path));
      (Find(g, disk, ParentPath(path)) == Walk(g, disk, dirs, ROOT, Fresh()))
      <==> ((if m == 0 then ROOT else m) == Walk(g, disk, dirs, ROOT, Fresh()))
  {
    hide Sane, Rows, Child, SeenChild, Follows, SelfFree, Middle, ParentPath, Components, Mul, Fresh, List;
    ParentComponents(path);
    var one := [Middle(path)];
    assert one[1..] == [];
    assert Find(g, disk, ParentPath(path)) == Walk(g, disk, one, ROOT, Fresh());
    OneFollows(g, disk, one[0], ROOT);
  }

  /** For "/a/b/c" the parent is looked up as "/ab". */
  lemma DeepParentExample(a: seq<byte>, b: seq<byte>, c: seq<byte>)
    requires NoSlash(a) && NoSlash(b) && NoSlash(c) && c != []
    ensures var path := Join([[], a, b, c]); |Rows(path)| == 4 && ParentPath(path) == [SLASH] + a + b
  {
    var e: seq<byte>, root: seq<byte> := [], [SLASH];
    var r := [e, a, b, c];
    SplitJoin(r);
    NoFinalSlash(r);
    assert e + [SLASH] == root;
    assert r[0 := e + [SLASH]] == [root, a, b, c];
    assert [root, a, b, c][..3] == [root, a, b];
    ConcatThree(root, a, b);
  }

  lemma NoFinalSlash(r: seq<seq<byte>>)
    requires |r| > 1 && r[|r| - 1] != [] && NoSlash(r[|r| - 1])
    ensures !EndsInSlash(Join(r))
  {
    var last := r[|r| - 1];
    assert Join(r)[|Join(r)| - 1] == last[|last| - 1];
  }

  lemma ConcatThree(x: seq<byte>, y: seq<byte>, z: seq<byte>)
    ensures Concat([x, y, z]) == x + y + z
  {
    assert [x, y, z][..2] == [x, y] && [x, y][..1] == [x] && [x][..0] == [];
    assert Concat([x]) == x;
    assert Concat([x, y]) == x + y;
  }

  lemma {:induction false} ConcatLength(rows: seq<seq<byte>>)
    ensures |Concat(rows)| == Total(rows)
  {
    if rows != [] {
      ConcatLength(rows[..|rows| - 1]);
    }
  }

  lemma {:induction false} FirstLonger(p: seq<seq<byte>>, k: nat)
    requires 0 < k <= |p|
    ensures Total(p[0 := p[0] + [SLASH]][..k]) == Total(p[..k]) + 1
  {
    var q := p[0 := p[0] + [SLASH]];
    assert q[..k][..k - 1] == q[..k - 1] && p[..k][..k - 1] == p[..k - 1];
    if k > 1 {
      FirstLonger(p, k - 1);
    } else {
      assert q[..0] == [] && p[..0] == [];
    }
  }

  /** The rows before the last, run together, are shorter than the path. */
  lemma ParentShorter(path: seq<byte>, k: nat)
    requires 0 < k < |Rows(path)|
    ensures |Concat(Rows(path)[..k])| < |path|
  {
    var p := Split(path);
    SplitFacts(path);
    JoinSplit(path);
    JoinLength(p);
    var q := if EndsInSlash(path) then p[..|p| - 1] else p;
    FirstLonger(q, k);
    ConcatLength(Rows(path)[..k]);
    assert q[..k] == p[..k];
    TotalGrows(p, k);
    if |p| == 2 {
      LastSegment(path);
    }
  }

  lemma LastSegment(path: seq<byte>)
    requires |Split(path)| > 1 && !EndsInSlash(path)
    ensures Split(path)[|Split(path)| - 1] != []
  {
    if path != [] {
      assert path[|path| - 1] != SLASH;
    }
  }
}
