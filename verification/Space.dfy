/** Which blocks a creation and a write take, and how many a sequence of them needs. */
module Space {
  import opened Bytes
  import opened Bitmaps
  import opened Arith
  import opened Volume
  import opened Alloc
  import opened Records
  import opened Namespace
  import opened Ownership
  import opened Files
  import opened Creation
  import opened Writing
  import opened Paths

  /** Exactly the blocks of `D` and the inodes of `I` have become used. */
  ghost predicate Took(a: Fs, b: Fs, D: set<nat>, I: set<nat>) {
    && Mounted(a) && Mounted(b) && a.g == b.g
    && (forall p: nat :: p < Mul(|a.g.bb|, a.g.bpg) ==>
          (BlockUsed(a.g, b.disk, p) <==> p in D || BlockUsed(a.g, a.disk, p)))
    && (forall n: nat :: ValidIno(a.g, n) ==> (InodeUsed(a.g, b.disk, n) <==> n in I || InodeUsed(a.g, a.disk, n)))
  }

  /** Two scanned bits of the group's block bitmap are clear. */
  ghost predicate TwoFree(fs: Fs, k: nat)
    requires Mounted(fs) && k < |fs.g.bb|
  {
    assert GroupOk(fs.g, k);
    exists i, j :: 0 <= i < j < fs.g.ipg && !Bit(fs.disk[fs.g.bb[k]], i) && !Bit(fs.disk[fs.g.bb[k]], j)
  }

  lemma TookTrans(a: Fs, b: Fs, c: Fs, D: set<nat>, I: set<nat>, E: set<nat>, J: set<nat>)
    requires Took(a, b, D, I) && Took(b, c, E, J)
    ensures Took(a, c, D + E, I + J)
  {
    hide Mounted, BlockUsed, InodeUsed, Mul, ValidIno;
  }

  lemma SetInodeTakes(fs: Fs, n: nat, x: InodeImage)
    requires Good(fs) && ValidIno(fs.g, n)
    ensures Took(fs, SetInode(fs, n, x), {}, {})
  {
    hide Sane, Marked, CountsMatch, Describes, BlockUsed, InodeUsed, InodeAt, Mul, InodeOffset;
    var g, p := fs.g, InodeBlock(fs.g, n);
    InodeBlockInTable(g, n);
    TableIsNotBitmap(g, n, InoGroup(g, n));
    forall k | 0 <= k < |g.bb|
      ensures p != g.bb[k] && p != g.ib[k]
    {
      TableIsNotBitmap(g, n, k);
    }
    PlainWriteGood(fs, p, SetInode(fs, n, x).disk[p]);
    assert SetInode(fs, n, x) == fs.(disk := fs.disk[p := SetInode(fs, n, x).disk[p]]);
  }

  lemma SetDataTakes(fs: Fs, p: nat, blk: Block)
    requires Good(fs) && p < |fs.disk| && IsData(fs.g, p)
    ensures Took(fs, SetData(fs, p, blk), {}, {})
  {
    hide Sane, Marked, CountsMatch, Describes, BlockUsed, InodeUsed, Mul;
    PlainWriteGood(fs, p, blk);
  }

  /** A group has a free block exactly when an unused block stands behind one of the scanned bits, so
      taking nothing keeps that. */
  lemma SameFree(a: Fs, b: Fs, k: nat, I: set<nat>)
    requires Took(a, b, {}, I) && k < |a.g.bb|
    ensures NoFreeBlock(b, k) <==> NoFreeBlock(a, k)
  {
    hide Sane, Describes, BlockUsed, Bit, Mul;
    forall i | 0 <= i < a.g.ipg
      ensures GroupOk(a.g, k) && i < 32768 && (Bit(b.disk[a.g.bb[k]], i) <==> Bit(a.disk[a.g.bb[k]], i))
    {
      BitIsMark(a.g, a.disk, k, i);
      BitIsMark(a.g, b.disk, k, i);
    }
  }

  /** After one allocation there is a free block left exactly when there were two. */
  lemma OneLeftIff(a: Fs, b: Fs, k: nat)
    requires Good(a) && k < |a.g.bb| && AllocBlock(a, k).1 != 0
    requires Took(a, b, {AllocBlock(a, k).1}, {})
    ensures !NoFreeBlock(b, k) <==> TwoFree(a, k)
  {
    hide Sane, Describes, Marked, CountsMatch, BlockUsed, Bit, Mul, TakeBlock;
    var g, n := a.g, AllocBlock(a, k).1;
    SaneGroup(g, k);
    var x, y, l := a.disk[g.bb[k]], b.disk[g.bb[k]], LowestClear(a.disk[g.bb[k]], g.ipg);
    forall i | 0 <= i < g.ipg
      ensures Bit(y, i) <==> i == l || Bit(x, i)
    {
      BitIsMark(g, a.disk, k, i);
      BitIsMark(g, b.disk, k, i);
    }
    if !NoFreeBlock(b, k) {
      var i :| 0 <= i < g.ipg && !Bit(y, i);
      assert !Bit(x, i) && !Bit(x, l) && l != i;
    }
    if TwoFree(a, k) {
      var i, j :| 0 <= i < j < g.ipg && !Bit(x, i) && !Bit(x, j);
      assert !Bit(y, if i == l then j else i);
    }
  }

  /** An inode and a block are taken in the group; a free block is left exactly when there were two. */
  lemma ReserveTakes(fs: Fs, k: nat)
    requires Good(fs) && k < |fs.g.bb| && Reserve(fs, k).2 != 0
    ensures var (r, ino, blk) := Reserve(fs, k);
      Took(fs, r, {blk}, {ino}) && ValidIno(fs.g, ino) && InoGroup(fs.g, ino) == k && (!NoFreeBlock(r, k) <==> TwoFree(fs, k))
  {
    hide Sane, Describes, Marked, CountsMatch, BlockUsed, InodeUsed, Mul, InodeAt, AllocBlock, AllocInode,
      NoFreeBlock, NoFreeInode, TwoFree;
    AllocInodeKeeps(fs, k);
    var (fs1, ino) := AllocInode(fs, k);
    AllocBlockKeeps(fs1, k);
    var (fs2, blk) := AllocBlock(fs1, k);
    OneLeftIff(fs1, fs2, k);
    SameTwoFree(fs, fs1, k, {ino});
  }

  lemma SameTwoFree(a: Fs, b: Fs, k: nat, I: set<nat>)
    requires Took(a, b, {}, I) && k < |a.g.bb|
    ensures TwoFree(b, k) <==> TwoFree(a, k)
  {
    hide Sane, Describes, BlockUsed, Bit, Mul;
    forall i | 0 <= i < a.g.ipg
      ensures GroupOk(a.g, k) && i < 32768 && (Bit(b.disk[a.g.bb[k]], i) <==> Bit(a.disk[a.g.bb[k]], i))
    {
      BitIsMark(a.g, a.disk, k, i);
      BitIsMark(a.g, b.disk, k, i);
    }
  }

  /** A successful creation takes one block and one inode. It leaves a free block in the group exactly when
      there were two. The new inode is in the group of its directory. */
  lemma CreateInLeaves(w: World, d: nat, junk: InodeImage)
    requires Sound(w.fs, w.tracked) && ValidIno(w.fs.g, d) && |Rows(w.f.path)| > 0
    requires IsDir(Image(w.fs, d)) ==>
      d in w.tracked && (DirFull(w.fs.disk, Image(w.fs, d)) || Roomy(w.fs.disk, Image(w.fs, d), BaseName(w.f.path)))
    requires CreateIn(w, d, junk).1 == 0
    ensures var (w2, k) := (CreateIn(w, d, junk).0, InoGroup(w.fs.g, d));
      && Mounted(w2.fs) && w2.fs.g == w.fs.g
      && ValidIno(w.fs.g, w2.f.inodeNum) && InoGroup(w.fs.g, w2.f.inodeNum) == k
      && (!NoFreeBlock(w2.fs, k) <==> TwoFree(w.fs, k))
      && Took(w.fs, w2.fs, {Reserve(w.fs, k).2}, {w2.f.inodeNum})
  {
    hide Sane, Describes, Marked, CountsMatch, BlockUsed, InodeUsed, Mul, InodeAt, IsDir, Attached, Ptr, DirOk, Owned,
      Reserve, NewInode, Roomy, Accepts, DirFull, AddEntry, Rows, Added, PutInode, CreateIn, Staged, NoFreeBlock, TwoFree,
      BaseName, Took;
    var w2, k, name := CreateIn(w, d, junk).0, InoGroup(w.fs.g, d), BaseName(w.f.path);
    var none: set<nat> := {};
    CreateInSound(w, d, junk);
    ReserveTakes(w.fs, k);
    StagedTakes(w, d, junk);
    StagedKeeps(w, d, junk);
    var (r, ino, blk) := Reserve(w.fs, k);
    var fs3 := Staged(w, d, junk).0;
    AddNameTakes(fs3, w.tracked + {ino}, d, ino, name);
    assert none + none == none && {blk} + none == {blk} && {ino} + none == {ino};
    TookTrans(r, fs3, w2.fs, none, none, none, none);
    TookTrans(w.fs, r, w2.fs, {blk}, {ino}, none, none);
    SameFree(r, w2.fs, k, none);
  }

  lemma CreateLeaves(w: World, junk: InodeImage)
    requires Sound(w.fs, w.tracked) && |w.f.path| <= MAX_PATH_LEN && CanCreate(w.fs, w.tracked, w.f.path)
    requires Create(w, junk).1 == 0
    ensures var d := Find(w.fs.g, w.fs.disk, ParentPath(w.f.path));
      && ValidIno(w.fs.g, d)
      && var (w2, k) := (Create(w, junk).0, InoGroup(w.fs.g, d));
         && Mounted(w2.fs) && w2.fs.g == w.fs.g
         && ValidIno(w.fs.g, w2.f.inodeNum) && InoGroup(w.fs.g, w2.f.inodeNum) == k
         && (!NoFreeBlock(w2.fs, k) <==> TwoFree(w.fs, k))
         && Took(w.fs, w2.fs, {Reserve(w.fs, k).2}, {w2.f.inodeNum})
  {
    hide Took, Sane, Describes, Marked, CountsMatch, Mul, InodeAt, DirOk, Owned, Roomy, DirFull, Rows, CreateIn, NoFreeBlock,
      TwoFree, Parsable, Find;
    CreateInLeaves(w, Find(w.fs.g, w.fs.disk, ParentPath(w.f.path)), junk);
  }

  lemma StagedTakes(w: World, d: nat, junk: InodeImage)
    requires Sound(w.fs, w.tracked) && ValidIno(w.fs.g, d) && Reserve(w.fs, InoGroup(w.fs.g, d)).2 != 0
    ensures var r := Reserve(w.fs, InoGroup(w.fs.g, d)).0;
      && Took(r, Staged(w, d, junk).0, {}, {}) && r.g == w.fs.g
      && Staged(w, d, junk).1 == Reserve(w.fs, InoGroup(w.fs.g, d)).1
  {
    hide Sane, Describes, Marked, CountsMatch, BlockUsed, InodeUsed, Mul, InodeAt, DirOk, Owned, Reserve, NewInode,
      PutInode, NoFreeBlock, Took;
    var k := InoGroup(w.fs.g, d);
    ReserveKeeps(w.fs, k);
    ReserveMounted(w.fs, k);
    var (r, ino, blk) := Reserve(w.fs, k);
    SetInodeTakes(r, ino, NewInode(junk, blk));
  }

  lemma AddNameTakes(fs: Fs, T: set<nat>, d: nat, ino: nat, name: seq<byte>)
    requires Sound(fs, T) && Takes(fs, T, d, name) && 0 < ino < 0x1_0000_0000
    ensures Took(fs, AddName(fs, T, d, ino, name), {}, {})
  {
    hide Sane, Describes, Marked, CountsMatch, BlockUsed, InodeUsed, Mul, InodeAt, Ptr, Attached, IsDir, IsFile,
      Fits, FindLast, Spaced, Insert;
    FirstBlock(fs, T, d, name);
    var p, b := Ptr(Image(fs, d), 0), AddName(fs, T, d, ino, name);
    SetDataTakes(fs, p, b.disk[p]);
    assert b == SetData(fs, p, b.disk[p]);
  }

  /** A write within a block takes nothing. */
  lemma PlainWriteTakes(w: World, data: seq<byte>)
    requires Usable(w) && |data| <= BLOCK_SIZE && !Straddles(w.f, |data|)
    ensures Took(w.fs, WriteExisting(w, data).0.fs, {}, {})
  {
    hide Sane, Describes, Marked, CountsMatch, BlockUsed, InodeUsed, Mul, InodeAt, Ptr, Attached, IsData, Inv, Resize,
      Splice;
    UsableFacts(w);
    NearKeeps(w, data);
    var w1 := WriteNear(w, data);
    var none: set<nat> := {};
    SetDataTakes(w.fs, Here(w), Splice(w.f.buff, w.f.pos % BLOCK_SIZE, Near(w.f, data)));
    SetInodeTakes(w1.fs, w.f.inodeNum, WriteSize(w1, |data|).f.inode);
    TookTrans(w.fs, w1.fs, WriteSize(w1, |data|).fs, none, none, none, none);
    assert none + none == none;
  }
}
