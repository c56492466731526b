/** Seeking, reading, opening and closing; runs of calls. */
module Session {
  import opened Bytes
  import opened Arith
  import opened Volume
  import opened Alloc
  import opened Ownership
  import opened Files
  import opened Writing

  /** Save a dirty buffer, and the size if there are new bytes. */
  ghost function Flush(w: World): World
    requires Mounted(w.fs) && ValidIno(w.fs.g, w.f.inodeNum) && InFile(w.f) && Here(w) < |w.fs.disk|
  {
    var w1 := w.(fs := SetData(w.fs, Here(w), w.f.buff));
    if w.f.newBytes == 0 || !Mounted(w1.fs) then w1
    else
      var y := Resize(w.f.inode, (w.f.pos + w.f.newBytes) % 0x1_0000_0000);
      w1.(fs := SetInode(w1.fs, w.f.inodeNum, y), f := w.f.(inode := y))
  }

  lemma FlushInv(w: World)
    requires Inv(w) && w.f.open && w.f.exist && InFile(w.f)
    ensures Mounted(w.fs) && ValidIno(w.fs.g, w.f.inodeNum) && Here(w) < |w.fs.disk|
    ensures Inv(Flush(w)) && Flush(w).f == w.f.(inode := Flush(w).f.inode)
    ensures Attached(Flush(w).f.inode) == Attached(w.f.inode)
  {
    hide Sane, Describes, Marked, CountsMatch, BlockUsed, InodeUsed, Mul, InodeAt, Ptr, IsData, Resize, Owned, DirOk,
      LowerSize, Sectors, SectorsToBlocks, Held, PutInode, TypePerm;
    UsableFacts(w);
    BlocksApart(w, w.f.pos / BLOCK_SIZE, 0);
    var T, n, h := w.tracked, w.f.inodeNum, Here(w);
    SetDataTouches(w.fs, h, w.f.buff);
    var w1 := w.(fs := SetData(w.fs, h, w.f.buff));
    var y := Resize(w.f.inode, (w.f.pos + w.f.newBytes) % 0x1_0000_0000);
    FileAvoidsDirs(w.fs, T, n, w.f.pos / BLOCK_SIZE, 0);
    TouchesWiden(w.fs, w1.fs, {h}, {}, {h, 0}, {});
    TouchesFacts(w.fs, w1.fs, {h}, {});
    SoundStays(w.fs, w1.fs, T, {h, 0});
    SameInodeIn(w.fs, w1.fs, {h}, {}, n);
    if w.f.newBytes != 0 {
      ResizeFields(w.f.inode, (w.f.pos + w.f.newBytes) % 0x1_0000_0000);
      SetInodeTouches(w1.fs, n, y);
      ResizedSound(w1.fs, T, n, y);
    }
  }

  /** Rewriting the inode of a tracked file with the same blocks keeps the invariant. */
  lemma ResizedSound(fs: Fs, T: set<nat>, n: nat, y: InodeImage)
    requires Sound(fs, T) && n in T && ValidIno(fs.g, n) && !IsDir(Image(fs, n))
    requires TypePerm(y) == TypePerm(Image(fs, n)) && Attached(y) == Attached(Image(fs, n))
    requires forall j :: 0 <= j < 15 ==> Ptr(y, j) == Ptr(Image(fs, n), j)
    ensures Sound(SetInode(fs, n, y), T) && Image(SetInode(fs, n, y), n) == y && SetInode(fs, n, y).g == fs.g
  {
    hide Sane, Describes, Marked, CountsMatch, BlockUsed, InodeUsed, Mul, InodeAt, Ptr, IsData, Owned, DirOk, Held,
      PutInode, TypePerm, Attached;
    var b := SetInode(fs, n, y);
    SetInodeTouches(fs, n, y);
    TouchesFacts(fs, b, {}, {n});
    FileGrows(fs, b, T, {}, n, 0);
    SoundGrows(fs, b, T, {}, n);
    assert T + {n} == T;
  }

  /** The state after the position change of `ext2_fseek`. */
  ghost function Moved(w: World, newPos: nat): World
    requires Inv(w) && w.f.open && w.f.exist
  {
    hide Sane, Describes, Marked, CountsMatch, BlockUsed, InodeUsed, Mul, InodeAt, Ptr, IsData, Flush, Attached, Sound;
    var w1 := if w.f.dirty && newPos / BLOCK_SIZE != w.f.pos / BLOCK_SIZE then FlushInv(w); Flush(w) else w;
    w1.(f := w1.f.(pos := newPos, newBytes := 0, dirty := false))
  }

  lemma MovedInv(w: World, newPos: nat)
    requires Inv(w) && w.f.open && w.f.exist && newPos < 0x1_0000_0000
    ensures Inv(Moved(w, newPos)) && Clean(Moved(w, newPos))
    ensures Moved(w, newPos).f
         == w.f.(pos := newPos, newBytes := 0, dirty := false, inode := Moved(w, newPos).f.inode)
    ensures Attached(Moved(w, newPos).f.inode) == Attached(w.f.inode)
    ensures Clean(w) ==> Moved(w, newPos) == w.(f := w.f.(pos := newPos))
  {
    hide Sane, Describes, Marked, CountsMatch, BlockUsed, InodeUsed, Mul, InodeAt, Ptr, IsData, Flush, Attached,
      Sound, IsFile, IsDir, SectorsToBlocks;
    if w.f.dirty && newPos / BLOCK_SIZE != w.f.pos / BLOCK_SIZE {
      FlushInv(w);
    }
  }

  /** `ext2_fseek` on an existing file, to another position. */
  ghost function SeekExisting(w: World, newPos: nat): (World, nat)
    requires Inv(w) && w.f.open && w.f.exist && newPos < 0x1_0000_0000
  {
    hide Sane, Describes, Marked, CountsMatch, BlockUsed, InodeUsed, Mul, InodeAt, Ptr, IsData, Attached, Sound,
      Moved, AttachNew;
    MovedInv(w, newPos);
    var w2 := Moved(w, newPos);
    if Allocated(w2.f) < newPos / BLOCK_SIZE + 1 then
      MountedFile(w2);
      AttachNewKeeps(w2);
      var (w3, blk) := AttachNew(w2);
      if blk == 0 then (w3, 1)
      else
        var y := Resize(w3.f.inode, newPos % BLOCK_SIZE);
        var buff := Splice(w3.fs.disk[blk], 0, Zeros(newPos % BLOCK_SIZE));
        (w3.(fs := SetInode(w3.fs, w3.f.inodeNum, y), f := w3.f.(inode := y, buff := buff)), 0)
    else
      SeekTarget(w2);
      (w2.(f := w2.f.(buff := w2.fs.disk[Here(w2)])), 0)
  }

  lemma MountedFile(w: World)
    requires Inv(w) && w.f.open && w.f.exist
    ensures Good(w.fs) && Mounted(w.fs) && ValidIno(w.fs.g, w.f.inodeNum) && Allocated(w.f) == Attached(w.f.inode)
  {
    hide Sane, Describes, Marked, CountsMatch, BlockUsed, InodeUsed, Mul, InodeAt, Ptr, IsData, Attached, Owned,
      DirOk, SectorsToBlocks;
    AttachedIsAllocated(w.f);
  }

  lemma SeekTarget(w: World)
    requires Inv(w) && w.f.open && w.f.exist && w.f.pos / BLOCK_SIZE < Allocated(w.f)
    ensures Usable(w) && Here(w) < |w.fs.disk|
  {
    hide Sane, Describes, Marked, CountsMatch, BlockUsed, InodeUsed, Mul, InodeAt, Ptr, IsData, Attached, Inv,
      SectorsToBlocks;
    MountedFile(w);
    BlocksApart(w, w.f.pos / BLOCK_SIZE, 0);
  }

  /** Seeking keeps the whole invariant, also when it fails and leaves the position changed. Afterwards
      nothing is dirty. */
  lemma SeekInv(w: World, newPos: nat)
    requires Inv(w) && w.f.open && w.f.exist && newPos < 0x1_0000_0000
    ensures Inv(SeekExisting(w, newPos).0) && Clean(SeekExisting(w, newPos).0)
    ensures var f := SeekExisting(w, newPos).0.f; f.open && f.exist && f.pos == newPos
  {
    hide Sane, Describes, Marked, CountsMatch, BlockUsed, InodeUsed, Mul, InodeAt, Ptr, IsData, Moved, AttachNew,
      AttachBlock,
      Sectors, SectorsToBlocks, Held, Attached, Owned, DirOk, Resize, PutInode, Splice, LowerSize, TypePerm;
    MovedInv(w, newPos);
    var w2 := Moved(w, newPos);
    if Allocated(w2.f) < newPos / BLOCK_SIZE + 1 {
      MountedFile(w2);
      AttachNewKeeps(w2);
      var (w3, blk) := AttachNew(w2);
      var T, n := w2.tracked, w2.f.inodeNum;
      TouchesFacts(w2.fs, w3.fs, {}, {});
      SoundStays(w2.fs, w3.fs, T, {});
      SameInodeIn(w2.fs, w3.fs, {}, {}, n);
      if blk != 0 {
        AttachFields(w2.f.inode, Allocated(w2.f), blk);
        ResizeFields(w3.f.inode, newPos % BLOCK_SIZE);
        var y := Resize(w3.f.inode, newPos % BLOCK_SIZE);
        SameAttached(w3.f.inode, y);
        AttachedSound(w2, w3.fs, blk, y);
      }
    } else {
      SeekTarget(w2);
    }
  }

  /** Writing an inode that has gained a block that nobody held keeps the invariant. */
  lemma AttachedSound(w: World, b: Fs, blk: nat, y: InodeImage)
    requires Inv(w) && w.f.open && w.f.exist && Touches(w.fs, b, {}, {}) && blk != 0
    requires Held(w.fs.g, b.disk, blk) && !Held(w.fs.g, w.fs.disk, blk)
    requires TypePerm(y) == TypePerm(w.f.inode) && Attached(y) == Attached(w.f.inode) + 1
    requires Attached(y) <= NDIR_BLOCKS && Ptr(y, Attached(w.f.inode)) == blk
    requires forall j :: 0 <= j < Attached(w.f.inode) ==> Ptr(y, j) == Ptr(w.f.inode, j)
    ensures Mounted(b) && ValidIno(b.g, w.f.inodeNum) && w.f.inodeNum in w.tracked
    ensures Sound(SetInode(b, w.f.inodeNum, y), w.tracked) && Image(SetInode(b, w.f.inodeNum, y), w.f.inodeNum) == y
    ensures SetInode(b, w.f.inodeNum, y).g == w.fs.g
  {
    hide Sane, Describes, Marked, CountsMatch, BlockUsed, InodeUsed, Mul, InodeAt, Ptr, IsData, SectorsToBlocks, Held,
      Attached, Owned, DirOk, PutInode, TypePerm;
    var T, n := w.tracked, w.f.inodeNum;
    TouchesFacts(w.fs, b, {}, {});
    var c := SetInode(b, n, y);
    SetInodeTouches(b, n, y);
    TouchesFacts(b, c, {}, {n});
    TouchesTrans(w.fs, b, c, {}, {}, {}, {n});
    TouchesWiden(w.fs, c, {} + {}, {} + {n}, {}, {n});
    HeldStays(b, c, {}, {n}, blk);
    FileGrows(w.fs, c, T, {}, n, blk);
    SoundGrows(w.fs, c, T, {}, n);
    assert T + {n} == T;
  }

  /** After a successful seek the position lies in an attached block exactly when it was at most one
      block past the attached ones: the seek attaches a single block, wherever it goes. */
  lemma SeekReaches(w: World, newPos: nat)
    requires Inv(w) && w.f.open && w.f.exist && newPos < 0x1_0000_0000
    requires SeekExisting(w, newPos).1 == 0
    ensures InFile(SeekExisting(w, newPos).0.f) <==> newPos / BLOCK_SIZE <= Attached(w.f.inode)
  {
    hide Sane, Describes, Marked, CountsMatch, BlockUsed, InodeUsed, Mul, InodeAt, Ptr, IsData, Moved, AttachNew,
      AttachBlock,
      Sectors, SectorsToBlocks, Held, Attached, Owned, DirOk, Resize, PutInode, Splice, LowerSize, TypePerm;
    MovedInv(w, newPos);
    var w2 := Moved(w, newPos);
    MountedFile(w2);
    if Allocated(w2.f) < newPos / BLOCK_SIZE + 1 {
      AttachNewKeeps(w2);
      var (w3, blk) := AttachNew(w2);
      if blk != 0 {
        AttachFields(w2.f.inode, Allocated(w2.f), blk);
        ResizeFields(w3.f.inode, newPos % BLOCK_SIZE);
        SameAttached(w3.f.inode, Resize(w3.f.inode, newPos % BLOCK_SIZE));
      }
    }
  }

  /** A seek succeeds exactly when the block of the new position is attached, or one more can be: fewer
      than twelve are, and the group of the file has a free block among the scanned bits. */
  lemma SeekSucceedsIff(w: World, newPos: nat)
    requires Inv(w) && w.f.open && w.f.exist && Clean(w) && newPos < 0x1_0000_0000
    ensures Good(w.fs) && ValidIno(w.fs.g, w.f.inodeNum)
    ensures SeekExisting(w, newPos).1 == 0 <==>
      newPos / BLOCK_SIZE < Attached(w.f.inode)
      || (Attached(w.f.inode) < NDIR_BLOCKS && !NoFreeBlock(w.fs, InoGroup(w.fs.g, w.f.inodeNum)))
  {
    hide Sane, Describes, Marked, CountsMatch, BlockUsed, InodeUsed, Mul, InodeAt, Ptr, IsData, Moved, AttachBlock,
      AllocBlock, NoFreeBlock, TookBlock, Sectors, SectorsToBlocks, Held, Attached, Owned, DirOk, Resize, PutInode, Splice,
      LowerSize, TypePerm;
    MovedInv(w, newPos);
    MountedFile(w);
    AllocBlockKeeps(w.fs, InoGroup(w.fs.g, w.f.inodeNum));
  }

  /** What a seek past the attached blocks does when it succeeds: it attaches one block that nobody held,
      leaves all data on disk, sets the size to the offset in the block, and fills the buffer with the new
      block's bytes, the first ones cleared. */
  lemma SeekAttaches(w: World, newPos: nat)
    requires Inv(w) && w.f.open && w.f.exist && Clean(w) && newPos < 0x1_0000_0000
    requires newPos / BLOCK_SIZE >= Attached(w.f.inode) && SeekExisting(w, newPos).1 == 0
    ensures var (w2, k) := (SeekExisting(w, newPos).0, Attached(w.f.inode));
      && k < NDIR_BLOCKS && Attached(w2.f.inode) == k + 1 && Allocated(w2.f) == k + 1
      && w2.tracked == w.tracked && Mounted(w.fs) && Mounted(w2.fs) && w2.fs.g == w.fs.g
      && (forall j :: 0 <= j < k ==> Ptr(w2.f.inode, j) == Ptr(w.f.inode, j))
      && (forall j :: 0 <= j < k ==>
            Ptr(w.f.inode, j) < |w.fs.disk| && w2.fs.disk[Ptr(w.f.inode, j)] == w.fs.disk[Ptr(w.f.inode, j)])
      && LowerSize(w2.f.inode) == newPos % BLOCK_SIZE
      && var blk := Ptr(w2.f.inode, k);
         && blk < |w.fs.disk| && !Held(w.fs.g, w.fs.disk, blk) && w2.fs.disk[blk] == w.fs.disk[blk]
         && w2.f == w.f.(pos := newPos, inode := w2.f.inode, buff := Cleared(w.fs.disk[blk], newPos % BLOCK_SIZE))
  {
    hide Sane, Describes, Marked, CountsMatch, BlockUsed, InodeUsed, Mul, InodeAt, Ptr, IsData, Moved, AttachBlock,
      AllocBlock, Sectors, SectorsToBlocks, Held, Attached, Owned, DirOk, Resize, PutInode, Splice, LowerSize, TypePerm,
      AttachNew, Touches, Sound;
    MovedInv(w, newPos);
    var w1, k := Moved(w, newPos), Attached(w.f.inode);
    MountedFile(w1);
    AttachNewKeeps(w1);
    var (w3, blk) := AttachNew(w1);
    AttachFields(w1.f.inode, Allocated(w1.f), blk);
    ResizeFields(w3.f.inode, newPos % BLOCK_SIZE);
    var y := Resize(w3.f.inode, newPos % BLOCK_SIZE);
    SameAttached(w3.f.inode, y);
    var w2 := SeekExisting(w, newPos).0;
    TouchesFacts(w1.fs, w3.fs, {}, {});
    SetInodeTouches(w3.fs, w.f.inodeNum, y);
    TouchesFacts(w3.fs, w2.fs, {}, {w.f.inodeNum});
    SameData(w1.fs, w3.fs, {}, blk);
    SameData(w3.fs, w2.fs, {w.f.inodeNum}, blk);
    forall j | 0 <= j < k
      ensures Ptr(w.f.inode, j) < |w.fs.disk| && w2.fs.disk[Ptr(w.f.inode, j)] == w.fs.disk[Ptr(w.f.inode, j)]
    {
      FileHeld(w, j);
      SameData(w1.fs, w3.fs, {}, Ptr(w.f.inode, j));
      SameData(w3.fs, w2.fs, {w.f.inodeNum}, Ptr(w.f.inode, j));
    }
  }

  /** A block with its first `n` bytes cleared. */
  function Cleared(b: Block, n: nat): Block
    requires n <= BLOCK_SIZE
  {
    Splice(b, 0, Zeros(n))
  }

  predicate StartsZero(b: Block, n: nat)
    requires n <= BLOCK_SIZE
  {
    forall o :: 0 <= o < n ==> b[o] == 0
  }

  /** Clearing changes nothing exactly when the bytes are zero already. */
  lemma ClearedIff(b: Block, n: nat)
    requires n <= BLOCK_SIZE
    ensures Cleared(b, n) == b <==> StartsZero(b, n)
  {
    var c := Cleared(b, n);
    assert forall o :: 0 <= o < BLOCK_SIZE ==> c[o] == if o < n then 0 else b[o];
  }

  lemma SameData(a: Fs, b: Fs, I: set<nat>, p: nat)
    requires Touches(a, b, {}, I) && p < |a.disk| && IsData(a.g, p)
    ensures p < |b.disk| && b.disk[p] == a.disk[p]
  {
    hide Sane, Describes, Marked, CountsMatch, BlockUsed, InodeUsed, Mul, InodeAt, IsData;
  }

  lemma FileHeld(w: World, j: nat)
    requires Inv(w) && w.f.open && w.f.exist && j < Attached(w.f.inode)
    ensures Mounted(w.fs) && Ptr(w.f.inode, j) < |w.fs.disk| && IsData(w.fs.g, Ptr(w.f.inode, j))
    ensures Held(w.fs.g, w.fs.disk, Ptr(w.f.inode, j))
  {
    hide Sane, Describes, Marked, CountsMatch, BlockUsed, InodeUsed, Mul, InodeAt, Ptr, Attached, DirOk;
    assert InodeOwned(w.fs, w.f.inodeNum);
    assert Held(w.fs.g, w.fs.disk, PtrOf(w.fs.g, w.fs.disk, w.f.inodeNum, j));
  }

  lemma SameAttached(x: InodeImage, y: InodeImage)
    requires Sectors(x) == Sectors(y)
    ensures Attached(x) == Attached(y)
  {
  }

  // Reading.

  /** The bytes that `ext2_fread` delivers: from the buffer, and from the next block on disk. */
  function ReadBytes(w: World, n: nat): seq<byte>
    requires n <= BLOCK_SIZE
    requires Straddles(w.f, n) ==> w.f.pos / BLOCK_SIZE + 1 < 15 && FileBlock(w, w.f.pos / BLOCK_SIZE + 1) < |w.fs.disk|
  {
    var p := w.f.pos % BLOCK_SIZE;
    if Straddles(w.f, n)
    then w.f.buff[p..] + w.fs.disk[FileBlock(w, w.f.pos / BLOCK_SIZE + 1)][..n + p - BLOCK_SIZE]
    else w.f.buff[p..p + n]
  }

  /** A read of `n` bytes at the position stays in the attached blocks. */
  predicate ReadInFile(w: World, n: nat) {
    n <= BLOCK_SIZE && (Straddles(w.f, n) ==> w.f.pos / BLOCK_SIZE + 1 < Attached(w.f.inode))
  }

  lemma ReadSafe(w: World, n: nat)
    requires Usable(w) && ReadInFile(w, n)
    ensures Straddles(w.f, n) ==> w.f.pos / BLOCK_SIZE + 1 < 15 && FileBlock(w, w.f.pos / BLOCK_SIZE + 1) < |w.fs.disk|
  {
    hide Inv, Attached;
    UsableFacts(w);
  }

  /** The buffer holds the block of the position. */
  predicate Coherent(w: World)
    requires InFile(w.f)
  {
    Here(w) < |w.fs.disk| && w.f.buff == w.fs.disk[Here(w)]
  }

  lemma FrontByte(b: Block, p: nat, n: nat, i: nat)
    requires p < BLOCK_SIZE && i < n && p + i < BLOCK_SIZE
    ensures b[p..][i] == b[p + i] && (p + n <= BLOCK_SIZE ==> b[p..p + n][i] == b[p + i])
  {
  }

  lemma BackByte(b: Block, c: Block, p: nat, n: nat, i: nat)
    requires p < BLOCK_SIZE && i < n <= BLOCK_SIZE && p + i >= BLOCK_SIZE
    ensures (b[p..] + c[..n + p - BLOCK_SIZE])[i] == c[p + i - BLOCK_SIZE]
  {
  }

  lemma Locate(k: nat, o: nat)
    requires o < BLOCK_SIZE
    ensures (k * BLOCK_SIZE + o) / BLOCK_SIZE == k && (k * BLOCK_SIZE + o) % BLOCK_SIZE == o
  {
  }

  /** Reading a coherent file delivers its contents at the position. */
  lemma ReadIsContent(w: World, n: nat, i: nat)
    requires Usable(w) && ReadInFile(w, n) && Coherent(w) && i < n
    requires Straddles(w.f, n) ==> w.f.pos / BLOCK_SIZE + 1 < 15 && FileBlock(w, w.f.pos / BLOCK_SIZE + 1) < |w.fs.disk|
    ensures |ReadBytes(w, n)| == n && w.f.pos + i < BLOCK_SIZE * Attached(w.f.inode)
    ensures ReadBytes(w, n)[i] == ByteAt(w.fs.disk, w.f.inode, w.f.pos + i)
  {
    hide Inv, Attached, Ptr;
    var k, p := w.f.pos / BLOCK_SIZE, w.f.pos % BLOCK_SIZE;
    if p + i < BLOCK_SIZE {
      Locate(k, p + i);
      FrontByte(w.f.buff, p, n, i);
    } else {
      Locate(k + 1, p + i - BLOCK_SIZE);
      BackByte(w.f.buff, w.fs.disk[FileBlock(w, k + 1)], p, n, i);
    }
  }
}
