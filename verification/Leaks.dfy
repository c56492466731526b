/** What every call takes from the bitmaps, whether it succeeds or not: the failures lose blocks and inodes. */
module Leaks {
  import opened Bytes
  import opened Arith
  import opened Volume
  import opened Alloc
  import opened Paths
  import opened Records
  import opened Namespace
  import opened Ownership
  import opened Files
  import opened Creation
  import opened Space
  import opened Writing
  import opened Session
  import opened Closing

  ghost predicate TookNothing(a: Fs, b: Fs) { Took(a, b, {}, {}) }

  /** One block that was free is used now, and nothing else was taken. */
  ghost predicate TookBlockOnly(a: Fs, b: Fs) {
    exists p: nat :: Took(a, b, {p}, {}) && p < Mul(|a.g.bb|, a.g.bpg) && !BlockUsed(a.g, a.disk, p)
  }

  ghost predicate TookInodeOnly(a: Fs, b: Fs) {
    exists n: nat :: Took(a, b, {}, {n}) && ValidIno(a.g, n) && !InodeUsed(a.g, a.disk, n)
  }

  ghost predicate TookBoth(a: Fs, b: Fs) {
    exists p: nat, n: nat ::
      && Took(a, b, {p}, {n}) && p < Mul(|a.g.bb|, a.g.bpg) && !BlockUsed(a.g, a.disk, p)
      && ValidIno(a.g, n) && !InodeUsed(a.g, a.disk, n)
  }

  /** Both steps together take what one of them does. */
  lemma AfterNothing(a: Fs, b: Fs, c: Fs)
    requires TookNothing(a, b)
    ensures TookNothing(b, c) ==> TookNothing(a, c)
    ensures TookBlockOnly(b, c) ==> TookBlockOnly(a, c)
  {
    hide Sane, Describes, Mul, BlockUsed, InodeUsed;
  }

  lemma ThenNothing(a: Fs, b: Fs, c: Fs)
    requires TookNothing(b, c)
    ensures TookBlockOnly(a, b) ==> TookBlockOnly(a, c)
    ensures TookBoth(a, b) ==> TookBoth(a, c)
  {
    hide Sane, Describes, Mul, BlockUsed, InodeUsed;
  }

  lemma NothingItself(a: Fs)
    requires Mounted(a)
    ensures TookNothing(a, a)
  {
    hide Sane, Describes, Mul, BlockUsed, InodeUsed;
  }

  /** Attaching a block takes one whenever there is one, also when the inode has no direct pointer left for it. */
  lemma AttachTakes(w: World)
    requires Good(w.fs) && ValidIno(w.fs.g, w.f.inodeNum)
    ensures var (w2, p) := AttachNew(w);
      && (p == 0 <==> NoFreeBlock(w.fs, InoGroup(w.fs.g, w.f.inodeNum)) || Allocated(w.f) >= 12)
      && (if NoFreeBlock(w.fs, InoGroup(w.fs.g, w.f.inodeNum)) then TookNothing(w.fs, w2.fs) else TookBlockOnly(w.fs, w2.fs))
  {
    hide Sane, Describes, Marked, CountsMatch, BlockUsed, InodeUsed, Mul, InodeAt, AllocBlock, NoFreeBlock, SectorsToBlocks;
    var k := InoGroup(w.fs.g, w.f.inodeNum);
    AllocBlockKeeps(w.fs, k);
    if NoFreeBlock(w.fs, k) {
      NothingItself(w.fs);
    } else {
      var (b, p) := AllocBlock(w.fs, k);
      assert Took(w.fs, b, {p}, {});
    }
  }

  /** A seek takes a block exactly when the position is behind the attached ones and a block is free. With twelve
      blocks attached it then fails, and the block is lost. */
  lemma SeekTakes(w: World, p: nat)
    requires Inv(w) && Clean(w) && w.f.open && w.f.exist && p < 0x1_0000_0000
    ensures var (w2, err) := SeekExisting(w, p);
      && (p / 4096 < Attached(w.f.inode) ==> err == 0 && w2.fs == w.fs)
      && (p / 4096 >= Attached(w.f.inode) ==>
            && (err == 0 <==> FreeIn(w) && Attached(w.f.inode) < 12)
            && (if FreeIn(w) then TookBlockOnly(w.fs, w2.fs) else TookNothing(w.fs, w2.fs))
            && (err != 0 ==> w2.f == w.f.(pos := p)))
  {
    hide Sane, Describes, Marked, CountsMatch, BlockUsed, InodeUsed, Mul, InodeAt, Ptr, IsData, Attached, Sound,
      AttachNew, NoFreeBlock, Resize, PutInode, TookBlockOnly, TookNothing, SectorsToBlocks, Owned, DirOk;
    MovedInv(w, p);
    var w1 := Moved(w, p);
    MountedFile(w1);
    if p / 4096 >= Attached(w.f.inode) {
      AttachNewKeeps(w1);
      AttachTakes(w1);
      var (w3, blk) := AttachNew(w1);
      if blk != 0 {
        GoodStays(w.fs, w3.fs, w.f.inodeNum);
        SetInodeTakes(w3.fs, w3.f.inodeNum, Resize(w3.f.inode, p % 4096));
        NothingIs(w3.fs, SeekExisting(w, p).0.fs);
        ThenNothing(w.fs, w3.fs, SeekExisting(w, p).0.fs);
      }
    }
  }

  lemma NothingIs(a: Fs, b: Fs)
    requires Took(a, b, {}, {})
    ensures TookNothing(a, b)
  {
    hide Took;
  }

  lemma GoodStays(a: Fs, b: Fs, n: nat)
    requires Touches(a, b, {}, {}) && ValidIno(a.g, n)
    ensures Good(b) && ValidIno(b.g, n)
  {
    hide Sane, Describes, Marked, CountsMatch;
  }

  /** A write takes a block exactly when it reaches behind the attached ones and a block is free. */
  lemma WriteTakes(w: World, data: seq<byte>)
    requires Usable(w) && |data| <= 4096
    ensures var ((w2, err), reaches) :=
        (WriteExisting(w, data), w.f.pos % 4096 + |data| > 4096 && w.f.pos / 4096 + 1 >= Attached(w.f.inode));
      && (!reaches ==> err == 0 && TookNothing(w.fs, w2.fs))
      && (reaches ==>
            && (err == 0 <==> FreeIn(w) && Attached(w.f.inode) < 12)
            && (if FreeIn(w) then TookBlockOnly(w.fs, w2.fs) else TookNothing(w.fs, w2.fs)))
  {
    hide Sane, Describes, Marked, CountsMatch, BlockUsed, InodeUsed, Mul, InodeAt, Ptr, IsData, Attached, Inv, Touches,
      AttachNew, NoFreeBlock, WriteNear, NextBlock, WriteSize, TookBlockOnly, TookNothing, SectorsToBlocks, Took, Far;
    UsableFacts(w);
    NearKeeps(w, data);
    NextOfWrite(w, data);
    NearTakes(w, data);
    WriteSucceedsIff(w, data);
    var w1 := WriteNear(w, data);
    GoodSteps(w.fs, w1.fs, w.f.inodeNum, {Here(w)});
    if !Straddles(w.f, |data|) {
      SizeTakes(w1, |data|);
      AfterNothing(w.fs, w1.fs, WriteSize(w1, |data|).fs);
    } else {
      var (w2, q) := NextBlock(w1);
      NextTakes(w, w1);
      GoodSteps(w1.fs, w2.fs, w.f.inodeNum, {});
      AfterNothing(w.fs, w1.fs, w2.fs);
      if q != 0 {
        var w3 := w2.(fs := SetData(w2.fs, q, Far(w.f, data)));
        GoodIsData(w1.fs, w2.fs, q);
        SetDataTakes(w2.fs, q, Far(w.f, data));
        NothingIs(w2.fs, w3.fs);
        FarKeeps(w, data);
        GoodSteps(w2.fs, w3.fs, w.f.inodeNum, {q});
        SizeTakes(w3, |data|);
        AfterNothing(w2.fs, w3.fs, WriteSize(w3, |data|).fs);
        ThenNothing(w.fs, w2.fs, WriteSize(w3, |data|).fs);
        if TookNothing(w.fs, w2.fs) {
          AfterNothing(w.fs, w2.fs, WriteSize(w3, |data|).fs);
        }
      }
    }
  }

  lemma GoodSteps(a: Fs, b: Fs, n: nat, D: set<nat>)
    requires Touches(a, b, D, {}) && ValidIno(a.g, n)
    ensures Good(b) && ValidIno(b.g, n) && b.g == a.g
  {
    hide Sane, Describes, Marked, CountsMatch;
  }

  lemma GoodIsData(a: Fs, b: Fs, q: nat)
    requires Touches(a, b, {}, {}) && q < |a.disk| && IsData(a.g, q)
    ensures q < |b.disk| && IsData(b.g, q)
  {
    hide Sane, Describes, Marked, CountsMatch;
  }

  lemma NearTakes(w: World, data: seq<byte>)
    requires Usable(w) && |data| <= 4096
    ensures Here(w) < |w.fs.disk| && TookNothing(w.fs, WriteNear(w, data).fs)
  {
    hide Sane, Describes, Marked, CountsMatch, BlockUsed, InodeUsed, Mul, InodeAt, Ptr, Attached, IsData, Inv, Took;
    UsableFacts(w);
    NearKeeps(w, data);
    SetDataTakes(w.fs, Here(w), Splice(w.f.buff, w.f.pos % BLOCK_SIZE, Near(w.f, data)));
  }

  lemma SizeTakes(w: World, n: nat)
    requires Good(w.fs) && ValidIno(w.fs.g, w.f.inodeNum)
    ensures TookNothing(w.fs, WriteSize(w, n).fs)
  {
    hide Sane, Describes, Marked, CountsMatch, BlockUsed, InodeUsed, Mul, InodeAt, Took, Resize, LowerSize;
    SetInodeTakes(w.fs, w.f.inodeNum, WriteSize(w, n).f.inode);
  }

  /** The second block of a straddling write. */
  lemma NextTakes(w: World, w1: World)
    requires Usable(w) && Good(w1.fs) && w1.fs.g == w.fs.g && w1.f.inode == w.f.inode && w1.f.pos == w.f.pos
    requires w1.f.inodeNum == w.f.inodeNum && InFile(w1.f) && ValidIno(w.fs.g, w.f.inodeNum)
    requires TookNothing(w.fs, w1.fs)
    ensures var ((w2, q), behind) := (NextBlock(w1), w.f.pos / 4096 + 1 >= Attached(w.f.inode));
      && (!behind ==> w2 == w1)
      && (behind ==> (q == 0 <==> !(FreeIn(w) && Attached(w.f.inode) < 12))
                     && (if FreeIn(w) then TookBlockOnly(w1.fs, w2.fs) else TookNothing(w1.fs, w2.fs)))
  {
    hide Sane, Describes, Marked, CountsMatch, BlockUsed, InodeUsed, Mul, InodeAt, Ptr, Attached, Inv, Took, AttachNew,
      NoFreeBlock, TookBlockOnly, SectorsToBlocks;
    UsableFacts(w);
    AttachTakes(w1);
    SameFree(w.fs, w1.fs, InoGroup(w.fs.g, w.f.inodeNum), {});
  }

  // Creating.

  /** A creation under a directory takes an inode and a block when its group has both. When it has an inode only,
      the creation fails and the inode is lost; when it has both and the directory is full, both are. */
  lemma CreateTakes(w: World, d: nat, junk: InodeImage)
    requires Sound(w.fs, w.tracked) && ValidIno(w.fs.g, d) && |Rows(w.f.path)| > 0
    requires IsDir(Image(w.fs, d)) ==>
      d in w.tracked && (DirFull(w.fs.disk, Image(w.fs, d)) || Roomy(w.fs.disk, Image(w.fs, d), BaseName(w.f.path)))
    ensures var (w2, err) := CreateIn(w, d, junk);
      var (none, full) := (NoFreeInode(w.fs, InoGroup(w.fs.g, d)), NoFreeBlock(w.fs, InoGroup(w.fs.g, d)));
      if !IsDir(Image(w.fs, d)) || none then err != 0 && w2.fs == w.fs
      else if full then err != 0 && TookInodeOnly(w.fs, w2.fs)
      else (err == 0 <==> Roomy(w.fs.disk, Image(w.fs, d), BaseName(w.f.path))) && TookBoth(w.fs, w2.fs)
  {
    hide Sane, Describes, Marked, CountsMatch, BlockUsed, InodeUsed, Mul, InodeAt, IsDir, DirOk, Owned, Reserve, NewInode,
      Roomy, DirFull, Rows, PutInode, Touches, BaseName, Attached, Ptr, NoFreeInode, NoFreeBlock, Took, TookBoth,
      TookInodeOnly, FindLast, Fits, Insert;
    var k := InoGroup(w.fs.g, d);
    CreateInSucceedsIff(w, d, junk);
    ReserveFails(w.fs, k);
    if IsDir(Image(w.fs, d)) && Reserve(w.fs, k).2 != 0 {
      ReserveMounted(w.fs, k);
      ReserveBoth(w.fs, k);
      StagedTakes(w, d, junk);
      var r, fs3 := Reserve(w.fs, k).0, Staged(w, d, junk).0;
      NothingIs(r, fs3);
      ThenNothing(w.fs, r, fs3);
      if CreateIn(w, d, junk).1 == 0 {
        CreatedBoth(w, d, junk);
      }
    }
  }

  lemma CreatedBoth(w: World, d: nat, junk: InodeImage)
    requires Sound(w.fs, w.tracked) && ValidIno(w.fs.g, d) && |Rows(w.f.path)| > 0
    requires IsDir(Image(w.fs, d)) && d in w.tracked && CreateIn(w, d, junk).1 == 0
    requires Roomy(w.fs.disk, Image(w.fs, d), BaseName(w.f.path))
    ensures TookBoth(w.fs, CreateIn(w, d, junk).0.fs)
  {
    hide Sane, Describes, Marked, CountsMatch, BlockUsed, InodeUsed, Mul, InodeAt, IsDir, DirOk, Owned, Reserve, NewInode,
      Roomy, DirFull, Rows, PutInode, Touches, BaseName, Attached, Ptr, Took, AddEntry, NoFreeBlock, TwoFree;
    CreateInLeaves(w, d, junk);
    ReserveKeeps(w.fs, InoGroup(w.fs.g, d));
  }

  lemma ReserveFails(fs: Fs, k: nat)
    requires Good(fs) && k < |fs.g.bb|
    ensures var (r, ino, blk) := Reserve(fs, k);
      && (NoFreeInode(fs, k) ==> r == fs && blk == 0)
      && (!NoFreeInode(fs, k) ==> (blk == 0 <==> NoFreeBlock(fs, k)))
      && (!NoFreeInode(fs, k) && blk == 0 ==> TookInodeOnly(fs, r))
  {
    hide Sane, Describes, Marked, CountsMatch, BlockUsed, InodeUsed, Mul, InodeAt, AllocBlock, AllocInode, NoFreeInode,
      NoFreeBlock;
    AllocInodeKeeps(fs, k);
    var (fs1, ino) := AllocInode(fs, k);
    if !NoFreeInode(fs, k) {
      assert Took(fs, fs1, {}, {ino});
      AllocBlockKeeps(fs1, k);
      SameFree(fs, fs1, k, {ino});
    }
  }

  lemma ReserveBoth(fs: Fs, k: nat)
    requires Good(fs) && k < |fs.g.bb| && Reserve(fs, k).2 != 0
    ensures TookBoth(fs, Reserve(fs, k).0)
  {
    hide Sane, Describes, Marked, CountsMatch, Mul, InodeAt, Reserve, Took;
    ReserveTakes(fs, k);
    ReserveKeeps(fs, k);
  }
}
