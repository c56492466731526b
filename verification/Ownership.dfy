/** Who owns which block: the invariant over a set `T` of tracked inodes (all inodes reachable through
    directories, and the files created since). */
module Ownership {
  import opened Bytes
  import opened Arith
  import opened Volume
  import opened Alloc
  import opened Records
  import opened Namespace

  function Attach(g: Geometry, disk: seq<Block>, n: nat): nat
    requires Shaped(g, disk) && ValidIno(g, n)
  {
    Attached(InodeAt(g, disk, n))
  }

  function PtrOf(g: Geometry, disk: seq<Block>, n: nat, i: nat): nat
    requires Shaped(g, disk) && ValidIno(g, n) && i < 15
  {
    Ptr(InodeAt(g, disk, n), i)
  }

  /** A directory refers to exactly its attached blocks; nothing is a file and a directory. */
  predicate KindOk(x: InodeImage) {
    && !(IsDir(x) && IsFile(x))
    && (IsDir(x) ==> forall j :: 0 <= j < NDIR_BLOCKS ==> (Ptr(x, j) != 0 <==> j < Attached(x)))
  }

  /** Block `p` may belong to a file: it is a data block, marked used. */
  predicate Held(g: Geometry, disk: seq<Block>, p: nat)
    requires Shaped(g, disk)
  {
    p < Mul(|g.bb|, g.bpg) && IsData(g, p) && BlockUsed(g, disk, p)
  }

  ghost predicate InodeOwned(fs: Fs, n: nat)
    requires Mounted(fs)
  {
    && ValidIno(fs.g, n)
    && InodeUsed(fs.g, fs.disk, n)
    && KindOk(InodeAt(fs.g, fs.disk, n))
    && forall i :: 0 <= i < Attach(fs.g, fs.disk, n) ==> Held(fs.g, fs.disk, PtrOf(fs.g, fs.disk, n, i))
  }

  /** No two attached blocks are the same, within one inode or between two. */
  ghost predicate Apart(fs: Fs, n: nat, i: nat, m: nat, j: nat)
    requires Mounted(fs) && ValidIno(fs.g, n) && ValidIno(fs.g, m)
  {
    (i < Attach(fs.g, fs.disk, n) && j < Attach(fs.g, fs.disk, m) && (n != m || i != j))
    ==> PtrOf(fs.g, fs.disk, n, i) != PtrOf(fs.g, fs.disk, m, j)
  }

  ghost predicate Owned(fs: Fs, T: set<nat>)
    requires Mounted(fs)
  {
    && (forall n :: n in T ==> InodeOwned(fs, n))
    && (forall n, m, i: nat, j: nat :: n in T && m in T ==> Apart(fs, n, i, m, j))
  }

  /** Listing directory `n` stays inside its blocks and names tracked inodes only. */
  ghost predicate DirOk(fs: Fs, T: set<nat>, n: nat)
    requires Mounted(fs) && ValidIno(fs.g, n)
  {
    var x := InodeAt(fs.g, fs.disk, n);
    IsDir(x) ==>
      && ListReadable(fs.disk, x, 0, MAX_SUBDIRS)
      && forall e :: e in ListFrom(fs.disk, x, 0, MAX_SUBDIRS) ==> e.ino in T
  }

  /** The whole-disk invariant. */
  ghost predicate Sound(fs: Fs, T: set<nat>) {
    && Good(fs) && Owned(fs, T) && ROOT in T
    && forall n :: n in T ==> DirOk(fs, T, n)
  }

  lemma RootIsValid(fs: Fs, T: set<nat>)
    requires Sound(fs, T)
    ensures ValidIno(fs.g, ROOT)
  {
    hide Sane, Describes, Marked, CountsMatch, DirOk, InodeUsed, Held, KindOk;
    assert InodeOwned(fs, ROOT);
  }

  /** None of the blocks in `D` belongs to a directory. */
  ghost predicate AvoidsDirs(fs: Fs, T: set<nat>, D: set<nat>)
    requires Mounted(fs) && Owned(fs, T)
  {
    forall n, i :: n in T && IsDir(InodeAt(fs.g, fs.disk, n)) && 0 <= i < Attach(fs.g, fs.disk, n)
      ==> PtrOf(fs.g, fs.disk, n, i) !in D
  }

  lemma HeldStays(a: Fs, b: Fs, D: set<nat>, I: set<nat>, p: nat)
    requires Touches(a, b, D, I)
    ensures Held(a.g, a.disk, p) ==> Held(a.g, b.disk, p)
  {
    hide Sane, Describes, Marked, CountsMatch, IsData, BlockUsed, InodeUsed, InodeAt, Mul, ValidIno;
  }

  /** A directory whose inode and blocks are untouched lists the same. */
  lemma DirStays(a: Fs, b: Fs, T: set<nat>, T': set<nat>, D: set<nat>, I: set<nat>, n: nat)
    requires Sound(a, T) && Touches(a, b, D, I) && n in T && n !in I && T <= T'
    requires forall i :: 0 <= i < Attach(a.g, a.disk, n) && IsDir(InodeAt(a.g, a.disk, n)) ==> PtrOf(a.g, a.disk, n, i) !in D
    ensures InodeAt(b.g, b.disk, n) == InodeAt(a.g, a.disk, n)
    ensures List(b.g, b.disk, n) == List(a.g, a.disk, n)
    ensures DirOk(b, T', n)
  {
    hide Sane, Describes, Marked, CountsMatch, BlockUsed, InodeUsed, Mul, Ptr, ListFrom, ListReadable, IsDir,
      Attached, IsFile;
    assert InodeOwned(a, n) && DirOk(a, T, n);
    var x := InodeAt(a.g, a.disk, n);
    if IsDir(x) {
      forall j | 0 <= j < NDIR_BLOCKS && Ptr(x, j) != 0 && Ptr(x, j) < |a.disk|
        ensures b.disk[Ptr(x, j)] == a.disk[Ptr(x, j)]
      {
        assert Held(a.g, a.disk, PtrOf(a.g, a.disk, n, j));
      }
      ListFrame(a.disk, b.disk, x, 0, MAX_SUBDIRS);
    }
  }

  /** Calls that change no inode and no directory block keep the invariant. */
  lemma SoundStays(a: Fs, b: Fs, T: set<nat>, D: set<nat>)
    requires Sound(a, T) && Touches(a, b, D, {}) && AvoidsDirs(a, T, D)
    ensures Sound(b, T)
  {
    hide Sane, Describes, Marked, CountsMatch, IsData, BlockUsed, InodeUsed, Mul, KindOk, IsDir, Ptr, Attached, InodeAt;
    forall n | n in T
      ensures InodeOwned(b, n) && DirOk(b, T, n)
    {
      assert InodeOwned(a, n);
      OwnedStays(a, b, D, {}, n);
      DirStays(a, b, T, T, D, {}, n);
    }
    forall n, m, i: nat, j: nat | n in T && m in T
      ensures Apart(b, n, i, m, j)
    {
      assert InodeOwned(a, n) && InodeOwned(a, m);
      assert Apart(a, n, i, m, j);
    }
  }

  lemma OwnedStays(a: Fs, b: Fs, D: set<nat>, I: set<nat>, n: nat)
    requires Touches(a, b, D, I) && InodeOwned(a, n) && n !in I
    ensures InodeOwned(b, n)
  {
    hide Sane, Describes, Marked, CountsMatch, IsData, BlockUsed, InodeUsed, Mul, KindOk, IsDir, Ptr, Attached, Held;
    forall i | 0 <= i < Attach(a.g, a.disk, n)
      ensures Held(b.g, b.disk, PtrOf(b.g, b.disk, n, i))
    {
      HeldStays(a, b, D, I, PtrOf(a.g, a.disk, n, i));
    }
  }

  /** Pointer `i` of inode `n` in `b` is the one it had in `a`, or a block that was free in `a`. */
  ghost predicate Inherits(a: Fs, b: Fs, T: set<nat>, n: nat, i: nat)
    requires Mounted(a) && Mounted(b) && a.g == b.g && ValidIno(a.g, n) && i < 15
  {
    var p := PtrOf(b.g, b.disk, n, i);
    || (n in T && i < Attach(a.g, a.disk, n) && p == PtrOf(a.g, a.disk, n, i))
    || (Held(b.g, b.disk, p) && !Held(a.g, a.disk, p))
  }

  /** Inode `n` is new or a regular file; it keeps its pointers and may get blocks that were free. */
  ghost predicate Grows(a: Fs, b: Fs, T: set<nat>, n: nat)
    requires Mounted(a) && Mounted(b) && a.g == b.g
  {
    && ValidIno(a.g, n) && InodeUsed(b.g, b.disk, n)
    && !IsDir(InodeAt(b.g, b.disk, n))
    && (n in T ==> !IsDir(InodeAt(a.g, a.disk, n)))
    && (forall i :: 0 <= i < Attach(b.g, b.disk, n) ==> Inherits(a, b, T, n, i))
    && (forall i: nat, j: nat :: Apart(b, n, i, n, j))
  }

  lemma GrownOwned(a: Fs, b: Fs, T: set<nat>, D: set<nat>, n: nat)
    requires Sound(a, T) && Touches(a, b, D, {n}) && Grows(a, b, T, n)
    ensures InodeOwned(b, n)
  {
    hide Sane, Describes, Marked, CountsMatch, IsData, BlockUsed, InodeUsed, Mul, IsDir, Ptr, Attached, Held, InodeAt;
    forall i | 0 <= i < Attach(b.g, b.disk, n)
      ensures Held(b.g, b.disk, PtrOf(b.g, b.disk, n, i))
    {
      assert Inherits(a, b, T, n, i);
      if n in T {
        assert InodeOwned(a, n);
        HeldStays(a, b, D, {n}, PtrOf(b.g, b.disk, n, i));
      }
    }
  }

  lemma GrownApart(a: Fs, b: Fs, T: set<nat>, D: set<nat>, n: nat, m: nat, i: nat, j: nat)
    requires Sound(a, T) && Touches(a, b, D, {n}) && Grows(a, b, T, n) && m in T && m != n
    requires ValidIno(b.g, m)
    ensures Apart(b, n, i, m, j) && Apart(b, m, j, n, i)
  {
    hide Sane, Describes, Marked, CountsMatch, IsData, BlockUsed, InodeUsed, Mul, IsDir, Ptr, Attached, Held,
      InodeAt, KindOk;
    assert InodeOwned(a, m);
    if i < Attach(b.g, b.disk, n) && j < Attach(b.g, b.disk, m) {
      assert Inherits(a, b, T, n, i);
      assert Held(a.g, a.disk, PtrOf(a.g, a.disk, m, j));
      if n in T {
        assert InodeOwned(a, n) && Apart(a, n, i, m, j);
      }
    }
  }

  /** Creating or extending a file keeps the invariant. */
  lemma SoundGrows(a: Fs, b: Fs, T: set<nat>, D: set<nat>, n: nat)
    requires Sound(a, T) && Touches(a, b, D, {n}) && Grows(a, b, T, n) && AvoidsDirs(a, T, D)
    ensures Sound(b, T + {n})
  {
    hide Sane, Describes, Marked, CountsMatch, IsData, BlockUsed, InodeUsed, Mul, KindOk, Ptr, Attached, InodeAt,
      Inherits, IsDir;
    var U := T + {n};
    GrownOwned(a, b, T, D, n);
    forall m | m in U
      ensures InodeOwned(b, m) && DirOk(b, U, m)
    {
      if m != n {
        assert InodeOwned(a, m);
        OwnedStays(a, b, D, {n}, m);
        DirStays(a, b, T, U, D, {n}, m);
      }
    }
    forall m, k, i: nat, j: nat | m in U && k in U
      ensures Apart(b, m, i, k, j)
    {
      if m != n && k != n {
        assert InodeOwned(a, m) && InodeOwned(a, k);
        assert Apart(a, m, i, k, j);
      } else if m == n && k != n {
        GrownApart(a, b, T, D, n, k, i, j);
      } else if k == n && m != n {
        GrownApart(a, b, T, D, n, m, j, i);
      }
    }
  }

  /** The image of inode `n`. */
  function Image(fs: Fs, n: nat): InodeImage
    requires Mounted(fs) && ValidIno(fs.g, n)
  {
    InodeAt(fs.g, fs.disk, n)
  }

  /** Directory `d` has room for the name. */
  ghost predicate Takes(fs: Fs, T: set<nat>, d: nat, name: seq<byte>)
    requires Sound(fs, T)
  {
    d in T && ValidIno(fs.g, d) && Roomy(fs.disk, Image(fs, d), name)
  }

  ghost function AddName(fs: Fs, T: set<nat>, d: nat, ino: nat, name: seq<byte>): Fs
    requires Sound(fs, T) && Takes(fs, T, d, name)
  {
    fs.(disk := Added(fs.disk, Image(fs, d), ino, name))
  }

  lemma FirstBlock(fs: Fs, T: set<nat>, d: nat, name: seq<byte>)
    requires Sound(fs, T) && Takes(fs, T, d, name)
    ensures var x := Image(fs, d); IsDir(x) && 0 < Attached(x) && Held(fs.g, fs.disk, Ptr(x, 0)) && Ptr(x, 0) < |fs.disk|
  {
    hide Sane, Describes, Marked, CountsMatch, BlockUsed, InodeUsed, Mul, InodeAt, Ptr, Attached, IsDir,
      Fits, FindLast, Spaced;
    assert InodeOwned(fs, d);
    assert Held(fs.g, fs.disk, PtrOf(fs.g, fs.disk, d, 0));
  }

  /** Adding a name writes one data block, owned by the directory alone. */
  lemma AddTouches(fs: Fs, T: set<nat>, d: nat, ino: nat, name: seq<byte>)
    requires Sound(fs, T) && Takes(fs, T, d, name) && 0 < ino < 0x1_0000_0000
    ensures Touches(fs, AddName(fs, T, d, ino, name), {Ptr(Image(fs, d), 0)}, {})
    ensures SameDirBlocks(fs.disk, AddName(fs, T, d, ino, name).disk, Image(fs, d), 1)
  {
    hide Sane, Describes, Marked, CountsMatch, BlockUsed, InodeUsed, Mul, InodeAt, Ptr, Attached, IsDir, IsFile,
      Fits, FindLast, Spaced, Insert, Touches;
    FirstBlock(fs, T, d, name);
    var x, p := Image(fs, d), Ptr(Image(fs, d), 0);
    var b := AddName(fs, T, d, ino, name);
    SetDataTouches(fs, p, b.disk[p]);
    assert b == SetData(fs, p, b.disk[p]);
    assert InodeOwned(fs, d);
    forall j | 1 <= j < NDIR_BLOCKS && Ptr(x, j) != 0 && Ptr(x, j) < |fs.disk|
      ensures b.disk[Ptr(x, j)] == fs.disk[Ptr(x, j)]
    {
      assert Apart(fs, d, 0, d, j);
    }
  }

  /** The directory's own listing stays inside its blocks and names tracked inodes. */
  lemma AddDirOk(fs: Fs, T: set<nat>, d: nat, ino: nat, name: seq<byte>)
    requires Sound(fs, T) && Takes(fs, T, d, name) && 0 < ino < 0x1_0000_0000 && ino in T
    ensures Mounted(AddName(fs, T, d, ino, name)) && DirOk(AddName(fs, T, d, ino, name), T, d)
  {
    hide Sane, Describes, Marked, CountsMatch, BlockUsed, InodeUsed, Mul, InodeAt, Ptr, Attached, IsDir, IsFile,
      Roomy, ListFrom, ListReadable, Touches, Added, SameDirBlocks, Parse, Owned;
    AddTouches(fs, T, d, ino, name);
    assert DirOk(fs, T, d);
    SameInode(fs, AddName(fs, T, d, ino, name), {Ptr(Image(fs, d), 0)}, d);
    FirstBlock(fs, T, d, name);
    var x := Image(fs, d);
    AddedReads(fs.disk, x, ino, name, T);
  }

  lemma SameInode(a: Fs, b: Fs, D: set<nat>, n: nat)
    requires Touches(a, b, D, {}) && ValidIno(a.g, n)
    ensures Mounted(a) && Mounted(b) && b.g == a.g && Image(b, n) == Image(a, n)
  {
    hide Sane, Describes, Marked, CountsMatch, BlockUsed, InodeUsed, Mul, InodeAt, IsData;
  }

  /** Adding the name of a tracked inode keeps the invariant. */
  lemma SoundAdds(fs: Fs, T: set<nat>, d: nat, ino: nat, name: seq<byte>)
    requires Sound(fs, T) && Takes(fs, T, d, name) && 0 < ino < 0x1_0000_0000 && ino in T
    ensures Sound(AddName(fs, T, d, ino, name), T)
    ensures forall n :: n in T && n != d ==>
      ValidIno(fs.g, n) && List(fs.g, AddName(fs, T, d, ino, name).disk, n) == List(fs.g, fs.disk, n)
  {
    hide Sane, Describes, Marked, CountsMatch, IsData, BlockUsed, InodeUsed, Mul, KindOk, IsDir, Ptr, Attached,
      InodeAt, Roomy, Added, ListFrom, ListReadable, Held;
    var b, D := AddName(fs, T, d, ino, name), {Ptr(Image(fs, d), 0)};
    AddTouches(fs, T, d, ino, name);
    FirstBlock(fs, T, d, name);
    AddDirOk(fs, T, d, ino, name);
    forall n | n in T
      ensures InodeOwned(b, n) && DirOk(b, T, n)
      ensures n != d ==> List(fs.g, b.disk, n) == List(fs.g, fs.disk, n)
    {
      assert InodeOwned(fs, n);
      OwnedStays(fs, b, D, {}, n);
      if n != d {
        forall i | 0 <= i < Attach(fs.g, fs.disk, n)
          ensures PtrOf(fs.g, fs.disk, n, i) !in D
        {
          assert Apart(fs, d, 0, n, i);
        }
        DirStays(fs, b, T, T, D, {}, n);
      }
    }
    forall n, m, i: nat, j: nat | n in T && m in T
      ensures Apart(b, n, i, m, j)
    {
      assert InodeOwned(fs, n) && InodeOwned(fs, m);
      assert Apart(fs, n, i, m, j);
    }
  }
}
