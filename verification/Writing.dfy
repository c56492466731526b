/** What a write keeps and what it achieves. */
module Writing {
  import opened Bytes
  import opened Arith
  import opened Volume
  import opened Alloc
  import opened Ownership
  import opened Files
  import opened Creation

  lemma SectorsMod(s: nat)
    ensures SectorsToBlocks(s) == s % 0x80_0000 / 8
  {
    var q, t := s / 0x80_0000, s % 0x80_0000;
    assert s * 512 == q * 0x1_0000_0000 + t * 512;
    assert s * 512 % 0x1_0000_0000 == t * 512;
  }

  /** Attaching counts one more block and sets one pointer. */
  lemma AttachFields(x: InodeImage, i: nat, blk: nat)
    requires i == SectorsToBlocks(Sectors(x)) < NDIR_BLOCKS && blk < 0x1_0000_0000
    ensures var y := AttachBlock(x, i, blk);
      && SectorsToBlocks(Sectors(y)) == i + 1 && Attached(y) == i + 1
      && Ptr(y, i) == blk && (forall j :: 0 <= j < 15 && j != i ==> Ptr(y, j) == Ptr(x, j))
      && TypePerm(y) == TypePerm(x) && LowerSize(y) == LowerSize(x)
  {
    hide U16, U32, PutU32;
    var a := PutU32(x, 40 + 4 * i, blk);
    var y := AttachBlock(x, i, blk);
    PutGet32(x, 40 + 4 * i, blk);
    SameU32(a, y, 40 + 4 * i);
    SameU16(x, y, 0);
    SameU32(x, y, 4);
    forall j | 0 <= j < 15 && j != i
      ensures Ptr(y, j) == Ptr(x, j)
    {
      SameU32(x, y, 40 + 4 * j);
    }
    PutGet32(a, 28, (Sectors(x) + 8) % 0x1_0000_0000);
    AttachSectors(Sectors(x));
  }

  lemma ModMod(v: nat)
    ensures v % 0x1_0000_0000 % 0x80_0000 == v % 0x80_0000
  {
    var q, t := v / 0x1_0000_0000, v % 0x1_0000_0000;
    var a, b := t / 0x80_0000, t % 0x80_0000;
    assert v == 0x80_0000 * (512 * q + a) + b;
  }

  lemma ModPlusEight(s: nat)
    requires s % 0x80_0000 < 96
    ensures (s + 8) % 0x80_0000 == s % 0x80_0000 + 8
  {
    assert s + 8 == 0x80_0000 * (s / 0x80_0000) + (s % 0x80_0000 + 8);
  }

  lemma AttachSectors(s: nat)
    requires SectorsToBlocks(s) < NDIR_BLOCKS
    ensures SectorsToBlocks((s + 8) % 0x1_0000_0000) == SectorsToBlocks(s) + 1
  {
    hide SectorsToBlocks;
    var v := s + 8;
    SectorsMod(s);
    SectorsMod(v % 0x1_0000_0000);
    ModMod(v);
    ModPlusEight(s);
    assert v % 0x1_0000_0000 % 0x80_0000 / 8 == (s % 0x80_0000 + 8) / 8;
  }

  lemma ResizeFields(x: InodeImage, size: nat)
    requires size < 0x1_0000_0000
    ensures var y := Resize(x, size);
      && LowerSize(y) == size && Sectors(y) == Sectors(x) && TypePerm(y) == TypePerm(x)
      && (forall j :: 0 <= j < 15 ==> Ptr(y, j) == Ptr(x, j))
  {
    hide U16, U32, PutU32;
    var y := Resize(x, size);
    PutGet32(x, 4, size);
    SameU16(x, y, 0);
    SameU32(x, y, 28);
    forall j | 0 <= j < 15
      ensures Ptr(y, j) == Ptr(x, j)
    {
      SameU32(x, y, 40 + 4 * j);
    }
  }

  /** `z` is the inode `x`, possibly with block `blk` attached behind its other blocks. */
  ghost predicate Extends(a: Fs, b: Fs, x: InodeImage, z: InodeImage, blk: nat)
    requires Mounted(a) && Mounted(b)
  {
    && TypePerm(z) == TypePerm(x)
    && (forall j :: 0 <= j < Attached(x) ==> Ptr(z, j) == Ptr(x, j))
    && if blk == 0 then Attached(z) == Attached(x)
       else Attached(z) == Attached(x) + 1 && Ptr(z, Attached(x)) == blk
            && Held(b.g, b.disk, blk) && !Held(a.g, a.disk, blk)
  }

  /** Extending a tracked regular file is growth in the sense of the ownership invariant. */
  lemma FileGrows(a: Fs, b: Fs, T: set<nat>, D: set<nat>, n: nat, blk: nat)
    requires Sound(a, T) && Touches(a, b, D, {n}) && n in T && ValidIno(a.g, n) && !IsDir(Image(a, n))
    requires Extends(a, b, Image(a, n), Image(b, n), blk)
    ensures Grows(a, b, T, n)
  {
    hide Sane, Describes, Marked, CountsMatch, IsData, BlockUsed, InodeUsed, Mul, Attached, Held, InodeAt, Ptr,
      DirOk, KindOk, TypePerm;
    assert InodeOwned(a, n);
    forall i | 0 <= i < Attach(b.g, b.disk, n)
      ensures Inherits(a, b, T, n, i)
    {
    }
    forall i: nat, j: nat
      ensures Apart(b, n, i, n, j)
    {
      assert Apart(a, n, i, n, j);
      if i < Attach(a.g, a.disk, n) {
        assert Held(a.g, a.disk, PtrOf(a.g, a.disk, n, i));
      }
      if j < Attach(a.g, a.disk, n) {
        assert Held(a.g, a.disk, PtrOf(a.g, a.disk, n, j));
      }
    }
  }

  /** The blocks of a regular file, and blocks held by nobody, are not directory blocks. */
  lemma FileAvoidsDirs(fs: Fs, T: set<nat>, n: nat, k: nat, q: nat)
    requires Sound(fs, T) && n in T && ValidIno(fs.g, n) && !IsDir(Image(fs, n))
    requires k < Attached(Image(fs, n))
    requires q == 0 || !Held(fs.g, fs.disk, q) || exists l: nat :: l < Attached(Image(fs, n)) && q == Ptr(Image(fs, n), l)
    ensures AvoidsDirs(fs, T, {Ptr(Image(fs, n), k), q})
  {
    hide Sane, Describes, Marked, CountsMatch, BlockUsed, InodeUsed, Mul, Attached, InodeAt, Ptr, DirOk, KindOk,
      TypePerm, IsDir;
    forall m, i: nat | m in T && ValidIno(fs.g, m) && IsDir(Image(fs, m)) && i < Attach(fs.g, fs.disk, m)
      ensures PtrOf(fs.g, fs.disk, m, i) !in {Ptr(Image(fs, n), k), q}
    {
      assert InodeOwned(fs, m);
      assert Held(fs.g, fs.disk, PtrOf(fs.g, fs.disk, m, i));
      assert Apart(fs, n, k, m, i);
      if l: nat :| l < Attached(Image(fs, n)) && q == Ptr(Image(fs, n), l) {
        assert Apart(fs, n, l, m, i);
      }
    }
    forall m | m in T
      ensures ValidIno(fs.g, m)
    {
      assert InodeOwned(fs, m);
    }
  }

  /** Allocating for the open file touches no data and no inode, and hands out a free block. */
  lemma AttachNewKeeps(w: World)
    requires Good(w.fs) && ValidIno(w.fs.g, w.f.inodeNum)
    ensures var (w2, blk) := AttachNew(w);
      && Touches(w.fs, w2.fs, {}, {}) && w2.tracked == w.tracked
      && (blk == 0 ==> w2.f == w.f)
      && (blk != 0 ==>
            && Allocated(w.f) < NDIR_BLOCKS
            && w2.f == w.f.(inode := AttachBlock(w.f.inode, Allocated(w.f), blk))
            && Held(w.fs.g, w2.fs.disk, blk) && !Held(w.fs.g, w.fs.disk, blk)
            && blk < |w.fs.disk| && blk < 0x1_0000_0000 && IsData(w.fs.g, blk))
  {
    hide Sane, Describes, Marked, CountsMatch, BlockUsed, InodeUsed, Mul, InodeAt, AllocBlock;
    AllocBlockKeeps(w.fs, InoGroup(w.fs.g, w.f.inodeNum));
    NumbersFit(w.fs);
  }

  /** What a usable file gives: its inode is on disk, its blocks are data blocks marked used. */
  lemma UsableFacts(w: World)
    requires Usable(w)
    ensures Good(w.fs) && ValidIno(w.fs.g, w.f.inodeNum) && w.f.inodeNum in w.tracked
    ensures Image(w.fs, w.f.inodeNum) == w.f.inode && !IsDir(w.f.inode) && Allocated(w.f) == Attached(w.f.inode)
    ensures forall i :: 0 <= i < Attached(w.f.inode) ==>
      Held(w.fs.g, w.fs.disk, FileBlock(w, i)) && FileBlock(w, i) < |w.fs.disk|
  {
    hide Sane, Describes, Marked, CountsMatch, BlockUsed, InodeUsed, Mul, InodeAt, Ptr, DirOk, KindOk, TypePerm,
      Attached;
    assert InodeOwned(w.fs, w.f.inodeNum);
    assert Attached(w.f.inode) == Allocated(w.f) by { AttachedIsAllocated(w.f); }
    forall i | 0 <= i < Attached(w.f.inode)
      ensures Held(w.fs.g, w.fs.disk, FileBlock(w, i)) && FileBlock(w, i) < |w.fs.disk|
    {
      assert Held(w.fs.g, w.fs.disk, PtrOf(w.fs.g, w.fs.disk, w.f.inodeNum, i));
    }
  }

  lemma AttachedIsAllocated(f: File)
    requires Allocated(f) <= NDIR_BLOCKS
    ensures Attached(f.inode) == Allocated(f)
  {
  }

  /** The block of the position. */
  function Here(w: World): nat
    requires InFile(w.f)
  {
    FileBlock(w, w.f.pos / BLOCK_SIZE)
  }

  lemma NearKeeps(w: World, data: seq<byte>)
    requires Usable(w) && |data| <= BLOCK_SIZE
    ensures Here(w) < |w.fs.disk| && IsData(w.fs.g, Here(w))
    ensures var w1 := WriteNear(w, data);
      && Touches(w.fs, w1.fs, {Here(w)}, {})
      && w1.fs.disk[Here(w)] == w1.f.buff
      && w1.f == w.f.(buff := w1.f.buff) && w1.tracked == w.tracked
  {
    hide Sane, Describes, Marked, CountsMatch, BlockUsed, InodeUsed, Mul, InodeAt, Ptr, Attached, Inv, IsData;
    UsableFacts(w);
    SetDataTouches(w.fs, Here(w), WriteNear(w, data).f.buff);
  }

  /** The second block of a straddling write: the attached next block or a newly allocated one. */
  lemma NextKeeps(w: World)
    requires Good(w.fs) && ValidIno(w.fs.g, w.f.inodeNum) && InFile(w.f) && Allocated(w.f) == Attached(w.f.inode)
    requires w.f.pos / BLOCK_SIZE + 1 < Attached(w.f.inode) ==>
      FileBlock(w, w.f.pos / BLOCK_SIZE + 1) < |w.fs.disk| && IsData(w.fs.g, FileBlock(w, w.f.pos / BLOCK_SIZE + 1))
    ensures var (w2, q) := NextBlock(w);
      && Touches(w.fs, w2.fs, {}, {}) && w2.tracked == w.tracked
      && (q != 0 ==> q < |w.fs.disk| && IsData(w.fs.g, q))
      && (w.f.pos / BLOCK_SIZE + 1 < Attached(w.f.inode) ==> w2 == w && q == FileBlock(w, w.f.pos / BLOCK_SIZE + 1))
      && (w.f.pos / BLOCK_SIZE + 1 >= Attached(w.f.inode) ==> (w2, q) == AttachNew(w))
      && (q == 0 ==> w2.f == w.f) && w2.f == w.f.(inode := w2.f.inode)
  {
    hide Sane, Describes, Marked, CountsMatch, BlockUsed, InodeUsed, Mul, InodeAt, Ptr, Attached, IsData, AttachNew;
    AttachNewKeeps(w);
  }

  /** `ext2_fwrite` on an existing file: the state afterwards and the error code. When no second block
      can be had, the near bytes are on disk already and the inode is not written. */
  ghost function WriteExisting(w: World, data: seq<byte>): (World, nat)
    requires Usable(w) && |data| <= BLOCK_SIZE
  {
    hide Sane, Describes, Marked, CountsMatch, BlockUsed, InodeUsed, Mul, InodeAt, Ptr, Attached, IsData, AttachNew,
      Inv, WriteNear, NextBlock, Held, WriteSize;
    UsableFacts(w);
    NearKeeps(w, data);
    var w1 := WriteNear(w, data);
    if !Straddles(w.f, |data|) then (WriteSize(w1, |data|), 0)
    else
      NextOfWrite(w, data);
      var (w2, q) := NextBlock(w1);
      if q == 0 then (w2, 1)
      else
        FarKeeps(w, data);
        (WriteSize(w2.(fs := SetData(w2.fs, q, Far(w.f, data))), |data|), 0)
  }

  lemma NextOfWrite(w: World, data: seq<byte>)
    requires Usable(w) && |data| <= BLOCK_SIZE
    ensures Here(w) < |w.fs.disk|
    ensures var w1 := WriteNear(w, data);
      && Mounted(w1.fs) && ValidIno(w1.fs.g, w1.f.inodeNum) && InFile(w1.f)
      && var (w2, q) := NextBlock(w1);
         && Touches(w1.fs, w2.fs, {}, {}) && w2.tracked == w.tracked
         && (q != 0 ==> q < |w1.fs.disk| && IsData(w1.fs.g, q))
         && (w.f.pos / BLOCK_SIZE + 1 < Attached(w.f.inode) ==>
               w2 == w1 && q == FileBlock(w, w.f.pos / BLOCK_SIZE + 1))
         && (w.f.pos / BLOCK_SIZE + 1 >= Attached(w.f.inode) ==> (w2, q) == AttachNew(w1))
         && (q == 0 ==> w2.f == w1.f) && w2.f == w1.f.(inode := w2.f.inode)
  {
    hide Sane, Describes, Marked, CountsMatch, BlockUsed, InodeUsed, Mul, InodeAt, Ptr, Attached, AttachNew,
      Inv, WriteNear, NextBlock;
    UsableFacts(w);
    NearKeeps(w, data);
    var k := w.f.pos / BLOCK_SIZE + 1;
    assert k < Attached(w.f.inode) ==> Held(w.fs.g, w.fs.disk, FileBlock(w, k));
    NextKeeps(WriteNear(w, data));
  }

  lemma FarKeeps(w: World, data: seq<byte>)
    requires Usable(w) && |data| <= BLOCK_SIZE && Straddles(w.f, |data|)
    requires Here(w) < |w.fs.disk|
    requires var w1 := WriteNear(w, data);
      Mounted(w1.fs) && ValidIno(w1.fs.g, w1.f.inodeNum) && InFile(w1.f) && NextBlock(w1).1 != 0
    ensures var (w2, q) := NextBlock(WriteNear(w, data));
      && q < |w2.fs.disk| && w2.fs.g == w.fs.g && w2.f.inodeNum == w.f.inodeNum && ValidIno(w.fs.g, w.f.inodeNum)
      && Touches(w2.fs, SetData(w2.fs, q, Far(w.f, data)), {q}, {})
  {
    hide Sane, Describes, Marked, CountsMatch, BlockUsed, InodeUsed, Mul, InodeAt, Ptr, Attached, AttachNew,
      Inv, WriteNear, NextBlock, IsData;
    UsableFacts(w);
    NearKeeps(w, data);
    NextOfWrite(w, data);
    var (w2, q) := NextBlock(WriteNear(w, data));
    SetDataTouches(w2.fs, q, Far(w.f, data));
  }

  /** The second block of the write, 0 if it has none. */
  ghost function Second(w: World, data: seq<byte>): nat
    requires Usable(w) && |data| <= BLOCK_SIZE
  {
    hide Sane, Describes, Marked, CountsMatch, BlockUsed, InodeUsed, Mul, InodeAt, Ptr, Attached, IsData, AttachNew,
      Inv, WriteNear, NextBlock, Held;
    UsableFacts(w);
    if !Straddles(w.f, |data|) then 0
    else
      NextOfWrite(w, data);
      NextBlock(WriteNear(w, data)).1
  }

  /** Writing the size writes the inode and nothing else. */
  lemma SizeKeeps(w: World, n: nat)
    requires Good(w.fs) && ValidIno(w.fs.g, w.f.inodeNum) && n <= BLOCK_SIZE
    ensures var w2 := WriteSize(w, n);
      && Touches(w.fs, w2.fs, {}, {w.f.inodeNum}) && w2.tracked == w.tracked
      && Mounted(w2.fs) && w2.fs.g == w.fs.g && Image(w2.fs, w.f.inodeNum) == w2.f.inode
      && w2.f == w.f.(inode := w2.f.inode)
      && Sectors(w2.f.inode) == Sectors(w.f.inode) && TypePerm(w2.f.inode) == TypePerm(w.f.inode)
      && (forall j :: 0 <= j < 15 ==> Ptr(w2.f.inode, j) == Ptr(w.f.inode, j))
      && LowerSize(w2.f.inode) == (if w.f.pos % BLOCK_SIZE + n > LowerSize(w.f.inode)
                                   then w.f.pos % BLOCK_SIZE + n else LowerSize(w.f.inode))
  {
    hide Sane, Describes, Marked, CountsMatch, BlockUsed, InodeUsed, Mul, InodeAt, Ptr, IsData, Sectors, TypePerm,
      LowerSize, Resize, PutInode;
    ResizeFields(w.f.inode, w.f.pos % BLOCK_SIZE + n);
    SetInodeTouches(w.fs, w.f.inodeNum, WriteSize(w, n).f.inode);
  }

  /** The steps of a write put together. */
  lemma WriteTouches(w: World, data: seq<byte>)
    requires Usable(w) && |data| <= BLOCK_SIZE
    ensures Here(w) < |w.fs.disk|
    ensures var (w2, err) := WriteExisting(w, data);
      && Touches(w.fs, w2.fs, {Here(w), Second(w, data)}, {w.f.inodeNum})
      && w2.tracked == w.tracked && err <= 1
      && (err == 0 <==> !Straddles(w.f, |data|) || Second(w, data) != 0)
      && w2.f == w.f.(buff := Splice(w.f.buff, w.f.pos % BLOCK_SIZE, Near(w.f, data)), inode := w2.f.inode)
      && ValidIno(w2.fs.g, w.f.inodeNum) && Image(w2.fs, w.f.inodeNum) == w2.f.inode
  {
    hide Sane, Describes, Marked, CountsMatch, BlockUsed, InodeUsed, Mul, InodeAt, Ptr, Attached, IsData, AttachNew,
      Inv, NextBlock, Held, WriteSize, TypePerm, LowerSize, Sectors, Far, Splice, Touches, Good;
    UsableFacts(w);
    NearKeeps(w, data);
    NextOfWrite(w, data);
    var h, n := Here(w), w.f.inodeNum;
    var w1 := WriteNear(w, data);
    TouchesFacts(w.fs, w1.fs, {h}, {});
    if !Straddles(w.f, |data|) {
      SizeKeeps(w1, |data|);
      TouchesTrans(w.fs, w1.fs, WriteSize(w1, |data|).fs, {h}, {}, {}, {n});
      TouchesWiden(w.fs, WriteSize(w1, |data|).fs, {h} + {}, {} + {n}, {h, 0}, {n});
    } else {
      var (w2, q) := NextBlock(w1);
      TouchesTrans(w.fs, w1.fs, w2.fs, {h}, {}, {}, {});
      TouchesFacts(w.fs, w2.fs, {h} + {}, {} + {});
      if q == 0 {
        SameInodeIn(w.fs, w2.fs, {h} + {}, {} + {}, n);
        TouchesWiden(w.fs, w2.fs, {h} + {}, {} + {}, {h, 0}, {n});
      } else {
        FarKeeps(w, data);
        var w3 := w2.(fs := SetData(w2.fs, q, Far(w.f, data)));
        TouchesTrans(w.fs, w2.fs, w3.fs, {h} + {}, {} + {}, {q}, {});
        TouchesFacts(w.fs, w3.fs, {h} + {} + {q}, {} + {} + {});
        SizeKeeps(w3, |data|);
        var w4 := WriteSize(w3, |data|);
        TouchesTrans(w.fs, w3.fs, w4.fs, {h} + {} + {q}, {} + {} + {}, {}, {n});
        TouchesWiden(w.fs, w4.fs, {h} + {} + {q} + {}, {} + {} + {} + {n}, {h, q}, {n});
      }
    }
  }

  lemma TouchesFacts(a: Fs, b: Fs, D: set<nat>, I: set<nat>)
    requires Touches(a, b, D, I)
    ensures Good(a) && Good(b) && Mounted(b) && b.g == a.g && |b.disk| == |a.disk|
  {
    hide Sane, Describes, Marked, CountsMatch, BlockUsed, InodeUsed, Mul, InodeAt, IsData;
  }

  lemma SameInodeIn(a: Fs, b: Fs, D: set<nat>, I: set<nat>, n: nat)
    requires Touches(a, b, D, I) && n !in I && ValidIno(a.g, n)
    ensures Mounted(a) && Mounted(b) && b.g == a.g && Image(b, n) == Image(a, n)
  {
    hide Sane, Describes, Marked, CountsMatch, BlockUsed, InodeUsed, Mul, InodeAt, IsData;
  }

  /** The block that a successful write attaches, or 0. */
  ghost function Gained(w: World, data: seq<byte>): nat
    requires Usable(w) && |data| <= BLOCK_SIZE
  {
    if w.f.pos / BLOCK_SIZE + 1 < Attached(w.f.inode) then 0 else Second(w, data)
  }

  /** The inode after a write: perhaps one block more, and the size raised to the end of the write
      counted from the start of the position's block. */
  lemma WriteInode(w: World, data: seq<byte>)
    requires Usable(w) && |data| <= BLOCK_SIZE
    ensures var w2 := WriteExisting(w, data).0;
      && Mounted(w2.fs) && w2.fs.g == w.fs.g
      && Extends(w.fs, w2.fs, w.f.inode, w2.f.inode, Gained(w, data))
      && Allocated(w2.f) == Attached(w2.f.inode)
      && (WriteExisting(w, data).1 == 0 ==>
            LowerSize(w2.f.inode) == if w.f.pos % BLOCK_SIZE + |data| > LowerSize(w.f.inode)
                                     then w.f.pos % BLOCK_SIZE + |data| else LowerSize(w.f.inode))
      && (WriteExisting(w, data).1 != 0 ==> w2.f.inode == w.f.inode)
  {
    hide Sane, Describes, Marked, CountsMatch, BlockUsed, InodeUsed, Mul, InodeAt, Ptr, IsData, AttachBlock,
      Inv, NextBlock, WriteSize, TypePerm, LowerSize, Sectors, Far, Splice, Touches, Good, Held, AllocBlock,
      SectorsToBlocks;
    UsableFacts(w);
    NearKeeps(w, data);
    NextOfWrite(w, data);
    var w1 := WriteNear(w, data);
    TouchesFacts(w.fs, w1.fs, {Here(w)}, {});
    if !Straddles(w.f, |data|) {
      SizeKeeps(w1, |data|);
    } else {
      var (w2, q) := NextBlock(w1);
      TouchesFacts(w1.fs, w2.fs, {}, {});
      if q != 0 {
        FarKeeps(w, data);
        var w3 := w2.(fs := SetData(w2.fs, q, Far(w.f, data)));
        TouchesFacts(w2.fs, w3.fs, {q}, {});
        SizeKeeps(w3, |data|);
        if w.f.pos / BLOCK_SIZE + 1 >= Attached(w.f.inode) {
          AttachNewKeeps(w1);
          AttachFields(w1.f.inode, Allocated(w1.f), q);
          HeldBack(w.fs, w1.fs, {Here(w)}, {}, q);
          HeldStays(w2.fs, w3.fs, {q}, {}, q);
          var w4 := WriteSize(w3, |data|);
          HeldStays(w3.fs, w4.fs, {}, {w.f.inodeNum}, q);
        }
      }
    }
  }

  /** A write succeeds exactly when it stays in one block, or its second block is attached, or can be: fewer
      than twelve blocks are attached, and the group of the file has a free block among the scanned bits. */
  lemma WriteSucceedsIff(w: World, data: seq<byte>)
    requires Usable(w) && |data| <= BLOCK_SIZE
    ensures Good(w.fs) && ValidIno(w.fs.g, w.f.inodeNum)
    ensures WriteExisting(w, data).1 == 0 <==>
      !Straddles(w.f, |data|) || w.f.pos / BLOCK_SIZE + 1 < Attached(w.f.inode)
      || (Attached(w.f.inode) < NDIR_BLOCKS && !NoFreeBlock(w.fs, InoGroup(w.fs.g, w.f.inodeNum)))
  {
    hide Sane, Describes, Marked, CountsMatch, BlockUsed, InodeUsed, Mul, InodeAt, Ptr, IsData, AttachBlock,
      Inv, WriteSize, TypePerm, LowerSize, Sectors, Far, Near, Splice, Touches, Held, AllocBlock, Attached,
      SectorsToBlocks, NoFreeBlock, TookBlock, WriteNear;
    UsableFacts(w);
    NearKeeps(w, data);
    NextOfWrite(w, data);
    NearFields(w, data);
    TouchesFacts(w.fs, WriteNear(w, data).fs, {Here(w)}, {});
    if Straddles(w.f, |data|) {
      var k := w.f.pos / BLOCK_SIZE + 1;
      if k < Attached(w.f.inode) {
        HeldNonzero(w, k);
      } else {
        AllocBlockKeeps(WriteNear(w, data).fs, InoGroup(w.fs.g, w.f.inodeNum));
        NearFree(w, data, InoGroup(w.fs.g, w.f.inodeNum));
      }
    }
  }

  lemma HeldNonzero(w: World, k: nat)
    requires Usable(w) && k < Attached(w.f.inode)
    ensures FileBlock(w, k) != 0
  {
    hide Sane, Describes, Marked, CountsMatch, BlockUsed, InodeUsed, Mul, InodeAt, Ptr, Attached, Inv;
    UsableFacts(w);
  }

  /** The first step of a write changes the buffer of the file and one data block. */
  lemma NearFields(w: World, data: seq<byte>)
    requires InFile(w.f) && Here(w) < |w.fs.disk| && |data| <= BLOCK_SIZE
    ensures WriteNear(w, data).f == w.f.(buff := WriteNear(w, data).f.buff) && WriteNear(w, data).fs.g == w.fs.g
  {
    hide Attached, Ptr, Splice;
  }

  lemma NearFree(w: World, data: seq<byte>, k: nat)
    requires Usable(w) && |data| <= BLOCK_SIZE && k < |w.fs.g.bb| && Mounted(w.fs)
    requires Here(w) < |w.fs.disk| && Mounted(WriteNear(w, data).fs)
    ensures WriteNear(w, data).fs.g == w.fs.g && (NoFreeBlock(WriteNear(w, data).fs, k) <==> NoFreeBlock(w.fs, k))
  {
    hide Sane, Describes, Marked, CountsMatch, BlockUsed, InodeUsed, Mul, InodeAt, Ptr, Attached, Inv, Splice;
    UsableFacts(w);
    assert Here(w) != w.fs.g.bb[k];
    SaneGroup(w.fs.g, k);
    assert WriteNear(w, data).fs.disk[w.fs.g.bb[k]] == w.fs.disk[w.fs.g.bb[k]];
  }

  lemma HeldBack(a: Fs, b: Fs, D: set<nat>, I: set<nat>, p: nat)
    requires Touches(a, b, D, I) && !Held(b.g, b.disk, p)
    ensures !Held(a.g, a.disk, p)
  {
    hide Touches, Held, Good;
    TouchesFacts(a, b, D, I);
    HeldStays(a, b, D, I, p);
  }

  /** A write keeps the whole invariant, on success and on failure. */
  lemma WriteInv(w: World, data: seq<byte>)
    requires Usable(w) && |data| <= BLOCK_SIZE
    ensures var w2 := WriteExisting(w, data).0; Inv(w2) && Usable(w2)
    ensures Clean(w) ==> Clean(WriteExisting(w, data).0)
  {
    hide Sane, Describes, Marked, CountsMatch, BlockUsed, InodeUsed, Mul, InodeAt, Ptr, IsData, AttachBlock,
      Gained, Second, WriteExisting, LowerSize, Sectors, Splice, Near, Good, Held, SectorsToBlocks, Owned, DirOk,
      Attached;
    var w2, T, n := WriteExisting(w, data).0, w.tracked, w.f.inodeNum;
    UsableFacts(w);
    WriteTouches(w, data);
    WriteInode(w, data);
    var D := {Here(w), Second(w, data)};
    TouchesFacts(w.fs, w2.fs, D, {n});
    SecondIsOurs(w, data);
    FileGrows(w.fs, w2.fs, T, D, n, Gained(w, data));
    FileAvoidsDirs(w.fs, T, n, w.f.pos / BLOCK_SIZE, Second(w, data));
    SoundGrows(w.fs, w2.fs, T, D, n);
    assert T + {n} == T;
  }

  /** The second block is none, a free one, or the file's own next block. */
  lemma SecondIsOurs(w: World, data: seq<byte>)
    requires Usable(w) && |data| <= BLOCK_SIZE
    ensures Second(w, data) != 0 ==> Straddles(w.f, |data|)
    ensures Second(w, data) == 0 || !Held(w.fs.g, w.fs.disk, Second(w, data))
         || exists l: nat :: l < Attached(w.f.inode) && Second(w, data) == Ptr(w.f.inode, l)
    ensures var k := w.f.pos / BLOCK_SIZE;
      Second(w, data) != 0 && k + 1 < Attached(w.f.inode) ==> Second(w, data) == FileBlock(w, k + 1)
    ensures var k := w.f.pos / BLOCK_SIZE;
      Second(w, data) != 0 && k + 1 >= Attached(w.f.inode) ==> !Held(w.fs.g, w.fs.disk, Second(w, data))
  {
    hide Sane, Describes, Marked, CountsMatch, BlockUsed, InodeUsed, Mul, InodeAt, Ptr, IsData, AttachBlock,
      Inv, NextBlock, Touches, Good, Held, AllocBlock, SectorsToBlocks, Attached;
    UsableFacts(w);
    NearKeeps(w, data);
    NextOfWrite(w, data);
    var w1 := WriteNear(w, data);
    TouchesFacts(w.fs, w1.fs, {Here(w)}, {});
    var q := Second(w, data);
    if q != 0 && w.f.pos / BLOCK_SIZE + 1 >= Attached(w.f.inode) {
      AttachNewKeeps(w1);
      HeldBack(w.fs, w1.fs, {Here(w)}, {}, q);
    }
  }

  /** The file's blocks are pairwise distinct data blocks. */
  lemma BlocksApart(w: World, i: nat, j: nat)
    requires Usable(w) && i < Attached(w.f.inode)
    ensures Held(w.fs.g, w.fs.disk, FileBlock(w, i)) && IsData(w.fs.g, FileBlock(w, i)) && FileBlock(w, i) < |w.fs.disk|
    ensures j < Attached(w.f.inode) && j != i ==> FileBlock(w, i) != FileBlock(w, j)
  {
    hide Sane, Describes, Marked, CountsMatch, BlockUsed, InodeUsed, Mul, InodeAt, Ptr, SectorsToBlocks, Attached,
      DirOk,
      InodeOwned, IsData, IsDir, IsFile;
    UsableFacts(w);
    assert Apart(w.fs, w.f.inodeNum, i, w.f.inodeNum, j);
  }

  /** The two blocks of a write are different. */
  lemma SecondIsNotHere(w: World, data: seq<byte>)
    requires Usable(w) && |data| <= BLOCK_SIZE
    ensures Second(w, data) != Here(w)
  {
    hide Sane, Describes, Marked, CountsMatch, BlockUsed, InodeUsed, Mul, InodeAt, Ptr, AttachBlock, Second,
      Inv, Good, SectorsToBlocks, Attached, Held;
    UsableFacts(w);
    SecondIsOurs(w, data);
    BlocksApart(w, w.f.pos / BLOCK_SIZE, w.f.pos / BLOCK_SIZE + 1);
  }

  /** What is on disk in the blocks of a write afterwards. */
  lemma WriteBlocks(w: World, data: seq<byte>)
    requires Usable(w) && |data| <= BLOCK_SIZE
    ensures var (w2, err) := WriteExisting(w, data);
      && Here(w) < |w2.fs.disk| && w2.fs.disk[Here(w)] == w2.f.buff
      && (err == 0 && Straddles(w.f, |data|) ==>
            Second(w, data) < |w2.fs.disk| && w2.fs.disk[Second(w, data)] == Far(w.f, data))
  {
    hide Sane, Describes, Marked, CountsMatch, BlockUsed, InodeUsed, Mul, InodeAt, Ptr, AttachBlock,
      Inv, NextBlock, TypePerm, LowerSize, Sectors, Far, Splice, Near, Good, Held, AllocBlock, SectorsToBlocks,
      Attached, IsData;
    UsableFacts(w);
    NearKeeps(w, data);
    NextOfWrite(w, data);
    SecondIsNotHere(w, data);
    var w1, h := WriteNear(w, data), Here(w);
    TouchesFacts(w.fs, w1.fs, {h}, {});
    if !Straddles(w.f, |data|) {
      SizeKeeps(w1, |data|);
    } else {
      var (w2, q) := NextBlock(w1);
      if q != 0 {
        FarKeeps(w, data);
        var w3 := w2.(fs := SetData(w2.fs, q, Far(w.f, data)));
        TouchesFacts(w2.fs, w3.fs, {q}, {});
        SizeKeeps(w3, |data|);
      }
    }
  }

  // The file's contents.

  /** Byte `q` of a file with inode `x`: the concatenation of its attached blocks. */
  function ByteAt(disk: seq<Block>, x: InodeImage, q: nat): byte
    requires q < BLOCK_SIZE * Attached(x)
  {
    var p := Ptr(x, q / BLOCK_SIZE);
    if p < |disk| then disk[p][q % BLOCK_SIZE] else 0
  }

  /** Write refinement, in full: after a successful write at `pos` the file's bytes are the written bytes
      in `[pos, pos + n)`, the buffer's in the rest of the position's block, zeros in the rest of the
      second block of a straddling write, and unchanged everywhere else. */
  lemma WriteContents(w: World, data: seq<byte>, q: nat)
    requires Usable(w) && |data| <= BLOCK_SIZE && WriteExisting(w, data).1 == 0
    requires q < BLOCK_SIZE * Attached(WriteExisting(w, data).0.f.inode)
    ensures var w2 := WriteExisting(w, data).0;
      var k, pos := w.f.pos / BLOCK_SIZE, w.f.pos;
      && (q / BLOCK_SIZE < Attached(w.f.inode) || (Straddles(w.f, |data|) && q / BLOCK_SIZE == k + 1))
      && ByteAt(w2.fs.disk, w2.f.inode, q)
         == if pos <= q < pos + |data| then data[q - pos]
            else if q / BLOCK_SIZE == k then w.f.buff[q % BLOCK_SIZE]
            else if Straddles(w.f, |data|) && q / BLOCK_SIZE == k + 1 then 0
            else ByteAt(w.fs.disk, w.f.inode, q)
  {
    hide Sane, Describes, Marked, CountsMatch, BlockUsed, InodeUsed, Mul, InodeAt, Ptr, AttachBlock, Second,
      WriteExisting,
      LowerSize, Sectors, SectorsToBlocks, Attached, Inv, TypePerm, Held, Splice, Near, Far;
    UsableFacts(w);
    WriteTouches(w, data);
    WriteInode(w, data);
    WriteBlocks(w, data);
    SecondIsOurs(w, data);
    var w2 := WriteExisting(w, data).0;
    var k, i := w.f.pos / BLOCK_SIZE, q / BLOCK_SIZE;
    Window(w.f.pos, |data|, q);
    if i < Attached(w.f.inode) {
      assert Ptr(w2.f.inode, i) == FileBlock(w, i);
      BlocksApart(w, i, k);
      BlocksApart(w, i, k + 1);
    } else {
      assert i == Attached(w.f.inode) && Ptr(w2.f.inode, i) == Second(w, data);
    }
    if i == k {
      NearBytes(w, data, q % BLOCK_SIZE);
    } else if Straddles(w.f, |data|) && i == k + 1 {
      FarBytes(w.f, data, q % BLOCK_SIZE);
    } else {
      assert Second(w, data) != FileBlock(w, i);
      assert w2.fs.disk[FileBlock(w, i)] == w.fs.disk[FileBlock(w, i)];
    }
  }

  /** Where byte `q` lies relative to a write of `n` bytes at `pos`, block by block. */
  lemma Window(pos: nat, n: nat, q: nat)
    requires n <= BLOCK_SIZE
    ensures var k, p, i, o := pos / BLOCK_SIZE, pos % BLOCK_SIZE, q / BLOCK_SIZE, q % BLOCK_SIZE;
      && (i == k ==> (pos <= q < pos + n <==> p <= o < p + n) && q - pos == o - p)
      && (i == k + 1 ==> (pos <= q < pos + n <==> BLOCK_SIZE + o < p + n) && q - pos == BLOCK_SIZE + o - p)
      && (i < k || i > k + 1 || (i == k + 1 && p + n <= BLOCK_SIZE) ==> !(pos <= q < pos + n))
  {
  }

  lemma NearBytes(w: World, data: seq<byte>, o: nat)
    requires |data| <= BLOCK_SIZE && o < BLOCK_SIZE
    ensures var p := w.f.pos % BLOCK_SIZE;
      Splice(w.f.buff, p, Near(w.f, data))[o] == if p <= o < p + |data| then data[o - p] else w.f.buff[o]
  {
  }

  lemma FarBytes(f: File, data: seq<byte>, o: nat)
    requires |data| <= BLOCK_SIZE && Straddles(f, |data|) && o < BLOCK_SIZE
    ensures var p := f.pos % BLOCK_SIZE;
      Far(f, data)[o] == if BLOCK_SIZE + o < p + |data| then data[BLOCK_SIZE + o - p] else 0
  {
  }
}
