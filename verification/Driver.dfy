/** The driver itself: the block device, the static structures and the calls, each proved against the
    function that specifies it. */
module Driver {
  import opened Bytes
  import opened Bitmaps
  import opened Arith
  import opened Memory
  import opened Strings
  import opened Volume
  import opened Alloc
  import opened Paths
  import opened Records
  import opened Slots
  import opened Namespace
  import opened Ownership
  import opened Files
  import opened Creation
  import opened Writing
  import opened Session
  import opened Calls

  lemma BitOfByte(bm: Block, i: nat)
    requires i < 32768
    ensures Bit(bm, i) == NatBit(bm[i / 8], i % 8)
  {
  }

  /** The scan of the bitmap meets the specification when it stops at the first clear bit, or passes all. */
  lemma InodeScanIs(fs: Fs, k: nat, i: nat)
    requires Mounted(fs) && k < |fs.g.bb| && GroupOk(fs.g, k) && i <= fs.g.ipg <= 32768
    requires forall j :: 0 <= j < i ==> Bit(fs.disk[fs.g.ib[k]], j)
    ensures i == fs.g.ipg ==> AllocInode(fs, k) == (fs, 0)
    ensures i < fs.g.ipg && !Bit(fs.disk[fs.g.ib[k]], i) ==>
      AllocInode(fs, k) == (TakeInode(fs, k, i), k * fs.g.ipg + i + 1)
  {
    hide Sane, Describes, Bit, TakeInode;
    MulIs(k, fs.g.ipg);
  }

  /** The scan of the bitmap meets the specification when it stops at the first clear bit, or passes all. */
  lemma BlockScanIs(fs: Fs, k: nat, i: nat)
    requires Mounted(fs) && k < |fs.g.bb| && GroupOk(fs.g, k) && i <= fs.g.ipg <= 32768
    requires forall j :: 0 <= j < i ==> Bit(fs.disk[fs.g.bb[k]], j)
    ensures i == fs.g.ipg ==> AllocBlock(fs, k) == (fs, 0)
    ensures i < fs.g.ipg && !Bit(fs.disk[fs.g.bb[k]], i) ==>
      AllocBlock(fs, k) == (TakeBlock(fs, k, i), k * fs.g.bpg + i)
  {
    hide Sane, Describes, Bit, TakeBlock;
    MulIs(k, fs.g.bpg);
  }

  /** The C expressions for the table block and the offset of an inode. */
  lemma SlotIs(g: Geometry, t: Block, n: nat)
    requires Sane(g) && ValidIno(g, n) && |g.bb| <= MAX_GROUPS
    requires forall k :: 0 <= k < |g.bb| ==> DescribesGroup(g, t, k)
    ensures (n - 1) / g.ipg == InoGroup(g, n) < |g.bb|
    ensures InodeBlock(g, n) == GroupInodeTable(t, (n - 1) / g.ipg) + (n - 1) % g.ipg * g.isz / BLOCK_SIZE
    ensures InodeOffset(g, n) == (n - 1) % g.ipg * g.isz % BLOCK_SIZE
    ensures InodeBlock(g, n) < g.blocks && InodeOffset(g, n) + INODE_SIZE <= BLOCK_SIZE
  {
    hide Mul;
    DivIs(n - 1, g.ipg);
    ModIs(n - 1, g.ipg);
    MulIs((n - 1) % g.ipg, g.isz);
    InodeBlockInTable(g, n);
    assert DescribesGroup(g, t, InoGroup(g, n));
  }

  /** The listing `l` is made of the entries `done` and what is still to be read: records of block `b`
      from `offset` on, and the blocks from `i` on. */
  ghost predicate Listing(l: seq<Entry>, done: seq<Entry>, disk: seq<Block>, x: InodeImage, b: Block, offset: nat, i: nat)
    requires |done| <= MAX_SUBDIRS
  {
    var n := MAX_SUBDIRS - |done|;
    var p := Parse(b, offset, n);
    && l == done + p + ListFrom(disk, x, i, n - |p|)
    && Readable(b, offset, n) && ListReadable(disk, x, i, n - |p|)
  }

  /** The listing from block `i` on is what is still to come. */
  ghost predicate Remaining(l: seq<Entry>, done: seq<Entry>, disk: seq<Block>, x: InodeImage, i: nat) {
    && |done| <= MAX_SUBDIRS && l == done + ListFrom(disk, x, i, MAX_SUBDIRS - |done|)
    && ListReadable(disk, x, i, MAX_SUBDIRS - |done|)
  }

  lemma RemainingFirst(disk: seq<Block>, x: InodeImage)
    requires ListReadable(disk, x, 0, MAX_SUBDIRS)
    ensures Remaining(ListFrom(disk, x, 0, MAX_SUBDIRS), [], disk, x, 0)
  {
    hide ListFrom, ListReadable;
  }

  lemma RemainingLast(l: seq<Entry>, done: seq<Entry>, disk: seq<Block>, x: InodeImage, i: nat)
    requires Remaining(l, done, disk, x, i) && (i >= NDIR_BLOCKS || Ptr(x, i) == 0)
    ensures l == done
  {
    hide Ptr;
    ListDone(disk, x, i, MAX_SUBDIRS - |done|);
    hide ListFrom, ListReadable;
  }

  lemma ListingStep(l: seq<Entry>, done: seq<Entry>, disk: seq<Block>, x: InodeImage, b: Block, offset: nat, i: nat)
    requires |done| < MAX_SUBDIRS && offset < BLOCK_SIZE && Listing(l, done, disk, x, b, offset, i)
    ensures offset + 8 <= BLOCK_SIZE
    ensures RecInode(b, offset) != 0 ==>
      Inside(b, offset) && Listing(l, done + [EntryAt(b, offset)], disk, x, b, offset + RecLen(b, offset), i)
  {
    hide ListFrom, ListReadable, EntryAt, U16, U32;
    if RecInode(b, offset) != 0 {
      ParseStep(b, offset, MAX_SUBDIRS - |done|);
    }
  }

  /** The end of a block: the end of the buffer, an empty record or a full listing. */
  lemma ListingEnd(l: seq<Entry>, done: seq<Entry>, disk: seq<Block>, x: InodeImage, b: Block, offset: nat, i: nat)
    requires |done| <= MAX_SUBDIRS && Listing(l, done, disk, x, b, offset, i)
    requires |done| == MAX_SUBDIRS || offset >= BLOCK_SIZE || RecInodeOr0(b, offset) == 0
    ensures Remaining(l, done, disk, x, i) && (|done| == MAX_SUBDIRS ==> l == done)
  {
    hide ListFrom, ListReadable, EntryAt, U16, U32;
  }

  lemma NoOverlay(slots: seq<Entry>)
    requires Slotted(slots)
    ensures Overlay(slots, []) == slots && |slots| == MAX_SUBDIRS && Short([])
  {
  }

  lemma ShortSize(es: seq<Entry>)
    requires Short(es)
    ensures |es| <= MAX_SUBDIRS
  {
  }

  /** One more entry copied into the array. */
  lemma OverlayStep(slots: seq<Entry>, done: seq<Entry>, e: Entry)
    requires Slotted(slots) && Short(done) && |done| < MAX_SUBDIRS && |e.name| <= NAME_LEN
    ensures Short(done + [e]) && |Overlay(slots, done)| == MAX_SUBDIRS
    ensures |Overlay(slots, done)[|done|].name| == SLOT_LEN
    ensures Overlay(slots, done + [e]) == Overlay(slots, done)[|done| := Copied(Overlay(slots, done)[|done|], e)]
  {
    hide Copied;
    assert (done + [e])[..|done|] == done;
  }

  function RecInodeOr0(b: Block, o: nat): nat {
    if o + 8 <= BLOCK_SIZE then RecInode(b, o) else 0
  }

  lemma ListDone(disk: seq<Block>, x: InodeImage, i: nat, n: nat)
    requires i >= NDIR_BLOCKS || Ptr(x, i) == 0
    ensures ListFrom(disk, x, i, n) == []
  {
  }

  lemma ListingNext(l: seq<Entry>, done: seq<Entry>, disk: seq<Block>, x: InodeImage, i: nat)
    requires i < NDIR_BLOCKS && Ptr(x, i) != 0 && Remaining(l, done, disk, x, i)
    ensures |done| <= MAX_SUBDIRS && Ptr(x, i) < |disk| && Listing(l, done, disk, x, disk[Ptr(x, i)], 0, i + 1)
  {
    hide Parse, Readable, Ptr, ListFrom;
    var n := MAX_SUBDIRS - |done|;
    ReadablePtr(disk, x, i, n);
    ListStep(disk, x, i, n);
    hide ListReadable;
    var p := Parse(disk[Ptr(x, i)], 0, n);
    Assoc(done, p, ListFrom(disk, x, i + 1, n - |p|));
  }

  lemma ReadablePtr(disk: seq<Block>, x: InodeImage, i: nat, n: nat)
    requires i < NDIR_BLOCKS && Ptr(x, i) != 0 && ListReadable(disk, x, i, n)
    ensures Ptr(x, i) < |disk|
  {
    hide Parse, Readable, Ptr;
  }

  /** The scan for the last record reads inside the buffer only. */
  predicate ScanSafe(b: Block, o: nat, j: nat)
    decreases MAX_SUBDIRS - j
  {
    j >= MAX_SUBDIRS
    || (o + 8 <= BLOCK_SIZE && (o + RecLen(b, o) >= BLOCK_SIZE || ScanSafe(b, o + RecLen(b, o), j + 1)))
  }

  lemma {:induction false} SpacedScans(b: Block, o: nat, j: nat)
    requires Spaced(b, o, j)
    ensures ScanSafe(b, o, j)
    decreases MAX_SUBDIRS - j
  {
    hide U16, U32;
    if j < MAX_SUBDIRS && o + RecLen(b, o) < BLOCK_SIZE {
      SpacedScans(b, o + RecLen(b, o), j + 1);
    }
  }

  lemma {:induction false} FullScans(b: Block, o: nat, j: nat)
    requires ScanFull(b, o, j)
    ensures ScanSafe(b, o, j)
    decreases MAX_SUBDIRS - j
  {
    hide U16, U32;
    if j < MAX_SUBDIRS {
      FullScans(b, o + RecLen(b, o), j + 1);
    }
  }

  lemma ScanStep(b: Block, o: nat, j: nat)
    requires ScanSafe(b, o, j)
    ensures j >= MAX_SUBDIRS ==> FindLast(b, o, j) == -1
    ensures j < MAX_SUBDIRS ==> o + 8 <= BLOCK_SIZE
    ensures j < MAX_SUBDIRS && o + RecLen(b, o) >= BLOCK_SIZE ==> FindLast(b, o, j) == o
    ensures j < MAX_SUBDIRS && o + RecLen(b, o) < BLOCK_SIZE ==>
      ScanSafe(b, o + RecLen(b, o), j + 1) && FindLast(b, o, j) == FindLast(b, o + RecLen(b, o), j + 1)
  {
    hide U16;
  }

  /** Adding this name to this directory stays inside the block buffer. */
  predicate SafeToAdd(disk: seq<Block>, x: InodeImage, name: seq<byte>) {
    && |name| <= NAME_LEN
    && (IsDir(x) && Ptr(x, 0) != 0 ==>
          && Ptr(x, 0) < |disk| && ScanSafe(disk[Ptr(x, 0)], 0, 0)
          && (FindLast(disk[Ptr(x, 0)], 0, 0) >= 0 ==> Fits(FindLast(disk[Ptr(x, 0)], 0, 0), name)))
  }

  lemma RoomyIsSafe(disk: seq<Block>, x: InodeImage, name: seq<byte>)
    requires |name| <= NAME_LEN && (IsDir(x) ==> DirFull(disk, x) || Roomy(disk, x, name))
    ensures SafeToAdd(disk, x, name)
  {
    hide Ptr, IsDir, Fits, ScanFull, FindLast, ScanSafe, Spaced;
    if IsDir(x) && Ptr(x, 0) != 0 {
      var b := disk[Ptr(x, 0)];
      if DirFull(disk, x) {
        FullScans(b, 0, 0);
        FullIsNotFound(b, 0, 0);
      } else {
        SpacedScans(b, 0, 0);
      }
    }
  }

  /** Listed inode numbers are tracked and nonzero. */
  lemma ListedTracked(fs: Fs, T: set<nat>, n: nat)
    requires Sound(fs, T) && n in T
    ensures Mounted(fs) && ValidIno(fs.g, n)
    ensures IsDir(Image(fs, n)) ==> ListReadable(fs.disk, Image(fs, n), 0, MAX_SUBDIRS)
    ensures forall e :: e in List(fs.g, fs.disk, n) ==> e.ino in T && ValidIno(fs.g, e.ino)
  {
    hide Sane, Describes, Marked, CountsMatch, Mul, InodeAt, IsDir, ListFrom, ListReadable, KindOk, InodeUsed, Held;
    assert InodeOwned(fs, n) && DirOk(fs, T, n);
    forall e | e in List(fs.g, fs.disk, n)
      ensures e.ino in T && ValidIno(fs.g, e.ino)
    {
      assert InodeOwned(fs, e.ino);
    }
  }

  /** One iteration of the walk. */
  lemma WalkStep(fs: Fs, T: set<nat>, comps: seq<seq<byte>>, n: nat, m: nat, slots: seq<Entry>)
    requires Sound(fs, T) && n in T && ValidIno(fs.g, n) && comps != [] && Slotted(slots)
    requires var s := Seen(slots, List(fs.g, fs.disk, n), comps[0]); m == if s == 0 then n else s
    ensures m in T && ValidIno(fs.g, m)
    ensures Walk(fs.g, fs.disk, comps, n, slots)
         == if m == n then n else Walk(fs.g, fs.disk, comps[1..], m, Overlay(slots, List(fs.g, fs.disk, n)))
  {
    hide Sane, Describes, Marked, CountsMatch, Mul, InodeAt, IsDir, ListFrom, ListReadable, DirOk, InodeOwned, Owned,
      Seen, Overlay;
    ListedTracked(fs, T, n);
    SeenIn(slots, List(fs.g, fs.disk, n), comps[0]);
  }

  /** The root path has one row and no component to look up. */
  lemma RootPath(path: seq<byte>)
    requires Parsable(path)
    ensures 0 < |Rows(path)| <= MAX_PATH_DEPTH && Components(path) == Rows(path)[1..]
    ensures path == [SLASH] ==> Components(path) == []
  {
    SplitFacts(path);
    if path == [SLASH] {
      assert path[..0] == [];
      assert Split(path) == [[], []];
    }
  }

  lemma RootWalk(fs: Fs, path: seq<byte>)
    requires Mounted(fs) && ValidIno(fs.g, ROOT) && Components(path) == []
    ensures Find(fs.g, fs.disk, path) == ROOT
  {
    hide Sane, Describes, Components, Mul;
  }

  lemma WalkEnd(fs: Fs, comps: seq<seq<byte>>, n: nat, slots: seq<Entry>)
    requires Mounted(fs) && ValidIno(fs.g, n) && comps == [] && Slotted(slots)
    ensures Walk(fs.g, fs.disk, comps, n, slots) == n
  {
    hide Sane, Describes, Mul;
  }

  /** Entries of a listing have nonzero inodes. */
  lemma ListedFacts(fs: Fs, n: nat)
    requires Mounted(fs) && ValidIno(fs.g, n)
    ensures forall j :: 0 <= j < |List(fs.g, fs.disk, n)| ==> List(fs.g, fs.disk, n)[j].ino != 0
  {
    hide Sane, Describes, Mul, InodeAt, ListFrom;
    ListNonzero(fs.disk, Image(fs, n), 0, MAX_SUBDIRS);
  }

  lemma {:induction false} ListNonzero(disk: seq<Block>, x: InodeImage, i: nat, n: nat)
    ensures forall e :: e in ListFrom(disk, x, i, n) ==> e.ino != 0
    decreases NDIR_BLOCKS - i
  {
    hide Parse, Ptr;
    if i < NDIR_BLOCKS && Ptr(x, i) != 0 && Ptr(x, i) < |disk| {
      ParseNonzero(disk[Ptr(x, i)], 0, n);
      ListNonzero(disk, x, i + 1, n - |Parse(disk[Ptr(x, i)], 0, n)|);
    }
  }

  lemma SlotTerminated(s: seq<byte>)
    requires |s| == SLOT_LEN && s[255] == 0
    ensures Terminated(s)
  {
  }

  /** A row that holds a C string shorter than itself is terminated. */
  lemma RowTerminated(rows: array2<byte>, path: seq<byte>, i: nat)
    requires rows.Length0 == MAX_PATH_DEPTH && rows.Length1 == ROW_LEN && i < |Rows(path)| <= MAX_PATH_DEPTH
    requires Parsable(path) && CString(RowOf(rows, i)) == Rows(path)[i]
    ensures Terminated(RowOf(rows, i))
  {
    hide Rows, Parsable, CString;
    RowFits(path, i);
    ShortTerminated(RowOf(rows, i));
  }

  lemma {:induction false} ShortTerminated(s: seq<byte>)
    requires |CString(s)| < |s|
    ensures Terminated(s)
  {
    if s[0] == 0 {
      assert s[0] == 0;
    } else {
      ShortTerminated(s[1..]);
      var i :| 0 <= i < |s[1..]| && s[1..][i] == 0;
      assert s[i + 1] == 0;
    }
  }

  /** What the demands of a creation mean for the steps of the driver. */
  lemma CreateFacts(fs: Fs, T: set<nat>, path: seq<byte>)
    requires Sound(fs, T) && CanCreate(fs, T, path)
    ensures 2 <= |Rows(path)| <= MAX_PATH_DEPTH && Parsable(path) && Parsable(ParentPath(path))
    ensures ValidIno(fs.g, ROOT) && |BaseName(path)| <= NAME_LEN
    ensures var d := Find(fs.g, fs.disk, ParentPath(path));
      IsDir(Image(fs, d)) ==>
        d in T && (DirFull(fs.disk, Image(fs, d)) || Roomy(fs.disk, Image(fs, d), BaseName(path)))
  {
    hide Sane, Describes, Marked, CountsMatch, Mul, Owned, DirOk, Find, Roomy, DirFull, IsDir;
    RootIsValid(fs, T);
    SplitFacts(path);
  }

  /** After the allocations and the inode write the name can still be added safely. */
  lemma StagedSafe(fs: Fs, T: set<nat>, d: nat, junk: InodeImage, name: seq<byte>)
    requires Sound(fs, T) && d in T && ValidIno(fs.g, d) && IsDir(Image(fs, d)) && |name| <= NAME_LEN
    requires DirFull(fs.disk, Image(fs, d)) || Roomy(fs.disk, Image(fs, d), name)
    requires Reserve(fs, InoGroup(fs.g, d)).2 != 0
    ensures var (fs2, ino, blk) := Reserve(fs, InoGroup(fs.g, d));
      && Mounted(fs2) && ValidIno(fs2.g, ino) && ino != 0
      && SafeToAdd(SetInode(fs2, ino, NewInode(junk, blk)).disk, Image(fs, d), name)
  {
    hide Sane, Describes, Marked, CountsMatch, Mul, Owned, DirOk, Roomy, Accepts, DirFull, IsDir, SafeToAdd, Reserve,
      NewInode, InodeAt,
      PutInode, Ptr, BlockUsed, InodeUsed;
    var k := InoGroup(fs.g, d);
    ReservedSound(fs, T, k, junk);
    var (fs2, ino, blk) := Reserve(fs, k);
    var fs3 := SetInode(fs2, ino, NewInode(junk, blk));
    FirstBlockStays(fs, fs3, T, {ino}, d);
    SameFirstBlock(fs.disk, fs3.disk, Image(fs, d), name);
    RoomyIsSafe(fs3.disk, Image(fs, d), name);
  }

  lemma GroupIs(fs: Fs, n: nat)
    requires Mounted(fs) && ValidIno(fs.g, n)
    ensures 0 < InodesPerGroup(fs.sb) && (n - 1) / InodesPerGroup(fs.sb) == InoGroup(fs.g, n)
  {
    DivIs(n - 1, fs.g.ipg);
  }

  lemma ConcatStep(rows: seq<seq<byte>>, i: nat)
    requires i < |rows|
    ensures Concat(rows[..i + 1]) == Concat(rows[..i]) + rows[i]
  {
    assert rows[..i + 1][..i] == rows[..i];
  }

  lemma EmptyParent(s: seq<byte>)
    requires |s| > 0 && forall i :: 0 <= i < |s| ==> s[i] == 0
    ensures CString(s) == [] && Terminated(s)
  {
    assert s[0] == 0;
  }

  /** A row starts with its C string, which has no NUL. */
  lemma RowIs(s: seq<byte>, t: seq<byte>)
    requires Terminated(s) && CString(s) == t
    ensures |t| < |s| && s[..|t|] == t && NoNul(t)
  {
    CStringStarts(s);
    CStringNoNul(s);
  }

  lemma {:induction false} CStringStarts(s: seq<byte>)
    requires Terminated(s)
    ensures |CString(s)| < |s| && s[..|CString(s)|] == CString(s) && s[|CString(s)|] == 0
  {
    var z :| 0 <= z < |s| && s[z] == 0;
    if s[0] != 0 {
      assert s[1..][z - 1] == 0;
      CStringStarts(s[1..]);
    }
  }

  lemma StillTerminated(s: seq<byte>, t: seq<byte>)
    requires CString(s) == t && |t| < |s|
    ensures Terminated(s)
  {
    Unterminated(s);
  }

  lemma {:induction false} Unterminated(s: seq<byte>)
    ensures |CString(s)| < |s| ==> Terminated(s)
  {
    if s != [] && s[0] != 0 {
      Unterminated(s[1..]);
      if Terminated(s[1..]) {
        var z :| 0 <= z < |s[1..]| && s[1..][z] == 0;
        assert s[z + 1] == 0;
      }
    }
  }

  lemma ReserveIs(fs: Fs, k: nat)
    requires Good(fs) && k < |fs.g.bb|
    ensures var (fs1, ino) := AllocInode(fs, k);
      && Mounted(fs1) && fs1.g == fs.g
      && Reserve(fs, k) == (if ino == 0 then (fs1, 0, 0) else (AllocBlock(fs1, k).0, ino, AllocBlock(fs1, k).1))
      && (ino == 0 ==> fs1 == fs)
  {
    hide Sane, Describes, Marked, CountsMatch, Mul, AllocInode, AllocBlock, InodeUsed, BlockUsed, InodeAt, IsData;
    AllocInodeKeeps(fs, k);
  }

  /** A read does not reach past the attached blocks. */
  predicate ReadFine(w: World, n: nat) {
    w.f.open && n <= BLOCK_SIZE && Straddles(w.f, n) ==>
      w.f.pos / BLOCK_SIZE + 1 < Attached(w.f.inode) && FileBlock(w, w.f.pos / BLOCK_SIZE + 1) < |w.fs.disk|
  }

  lemma ReadParts(w: World, n: nat)
    requires ReadFine(w, n) && w.f.open && n <= BLOCK_SIZE
    ensures var p, k := w.f.pos % BLOCK_SIZE, w.f.pos / BLOCK_SIZE + 1;
      if p + n > BLOCK_SIZE then
        k < 15 && Ptr(w.f.inode, k) < |w.fs.disk|
        && ReadBytes(w, n) == w.f.buff[p..] + w.fs.disk[Ptr(w.f.inode, k)][..n + p - BLOCK_SIZE]
      else ReadBytes(w, n) == w.f.buff[p..p + n]
  {
    hide Attached, Ptr;
  }

  lemma HereIsPtr(w: World)
    requires Usable(w)
    ensures Here(w) == Ptr(w.f.inode, w.f.pos / BLOCK_SIZE) && Here(w) < |w.fs.disk|
  {
    hide Inv, Attached, Ptr;
    UsableFacts(w);
  }

  lemma FarIs(f: File, data: seq<byte>, zeros: Block)
    requires |data| <= BLOCK_SIZE && Straddles(f, |data|) && forall i :: 0 <= i < BLOCK_SIZE ==> zeros[i] == 0
    ensures Splice(zeros, 0, data[BLOCK_SIZE - f.pos % BLOCK_SIZE..]) == Far(f, data)
  {
  }

  lemma ZeroedIs(b: Block, n: nat, r: Block)
    requires n <= BLOCK_SIZE && forall k :: 0 <= k < BLOCK_SIZE ==> r[k] == if k < n then 0 else b[k]
    ensures r == Splice(b, 0, Zeros(n))
  {
  }

  lemma FlushSteps(w: World)
    requires Usable(w)
    ensures Mounted(w.fs) && ValidIno(w.fs.g, w.f.inodeNum) && Here(w) < |w.fs.disk|
    ensures Mounted(SetData(w.fs, Here(w), w.f.buff))
  {
    hide Sane, Describes, Marked, CountsMatch, Mul, InodeAt, Ptr, Attached, Inv, BlockUsed, InodeUsed;
    UsableFacts(w);
    BlocksApart(w, w.f.pos / BLOCK_SIZE, 0);
    SetDataTouches(w.fs, Here(w), w.f.buff);
  }

  /** The steps of a write stay inside the volume. */
  lemma WriteSteps(w: World, data: seq<byte>)
    requires Usable(w) && |data| <= BLOCK_SIZE
    ensures Here(w) < |w.fs.disk|
    ensures var k := w.f.pos / BLOCK_SIZE + 1;
      if Allocated(w.f) < k + 1 then k >= Attached(w.f.inode)
      else k < Attached(w.f.inode) && FileBlock(w, k) != 0
    ensures var w1 := WriteNear(w, data);
      && Mounted(w1.fs) && ValidIno(w1.fs.g, w1.f.inodeNum)
      && (Straddles(w.f, |data|) ==>
            InFile(w1.f)
            && (var (w2, q) := NextBlock(w1);
                && Mounted(w2.fs) && w2.fs.g == w.fs.g
                && (q != 0 ==> q < |w2.fs.disk| && Mounted(SetData(w2.fs, q, Far(w.f, data))))))
  {
    hide Sane, Describes, Marked, CountsMatch, Mul, InodeAt, Ptr, Attached, AttachNew, Inv, WriteNear, NextBlock,
      Far, SectorsToBlocks;
    UsableFacts(w);
    NearKeeps(w, data);
    var k := w.f.pos / BLOCK_SIZE + 1;
    assert k < Attached(w.f.inode) ==> Held(w.fs.g, w.fs.disk, FileBlock(w, k));
    var w1 := WriteNear(w, data);
    TouchesFacts(w.fs, w1.fs, {Here(w)}, {});
    if Straddles(w.f, |data|) {
      NextOfWrite(w, data);
      var (w2, q) := NextBlock(w1);
      TouchesFacts(w1.fs, w2.fs, {}, {});
      if q != 0 {
        FarKeeps(w, data);
        TouchesFacts(w2.fs, SetData(w2.fs, q, Far(w.f, data)), {q}, {});
      }
    }
  }

  /** A write is its steps. */
  lemma WriteIsSteps(w: World, data: seq<byte>, w1: World, w2: World, q: nat)
    requires Usable(w) && |data| <= BLOCK_SIZE && Here(w) < |w.fs.disk| && w1 == WriteNear(w, data)
    requires Mounted(w1.fs) && ValidIno(w1.fs.g, w1.f.inodeNum) && InFile(w1.f)
    requires Straddles(w.f, |data|) ==> (w2, q) == NextBlock(w1)
    ensures !Straddles(w.f, |data|) ==> WriteExisting(w, data) == (WriteSize(w1, |data|), 0)
    ensures Straddles(w.f, |data|) && q == 0 ==> WriteExisting(w, data) == (w2, 1)
    ensures Straddles(w.f, |data|) && q != 0 && Mounted(w2.fs) && q < |w2.fs.disk| ==>
      var fs3 := SetData(w2.fs, q, Far(w.f, data));
      Mounted(fs3) && ValidIno(fs3.g, w2.f.inodeNum) ==>
        WriteExisting(w, data) == (WriteSize(w2.(fs := fs3), |data|), 0)
  {
    hide Sane, Describes, Marked, CountsMatch, Mul, InodeAt, Ptr, Attached, AttachNew, Inv, WriteNear, NextBlock,
      Far, SectorsToBlocks,
      WriteSize;
  }

  /** The one `ext2_file_t`. */
  class OpenFile {
    var inodeNum: nat
    var mode: byte
    var open: bool
    var pos: nat
    var newBytes: nat
    var dirty: bool
    var exist: bool
    var path: seq<byte>
    var inode: InodeImage
    const buff: array<byte>

    constructor ()
      ensures fresh(buff) && buff.Length == BLOCK_SIZE && Value() == CLOSED
    {
      inodeNum, mode, open, pos, newBytes, dirty, exist, path, inode := 0, 0, false, 0, 0, false, false, [], ZERO_INODE;
      buff := new byte[BLOCK_SIZE](_ => 0);
      new;
      assert buff[..] == ZERO_BLOCK;
    }

    ghost function Value(): File
      requires buff.Length == BLOCK_SIZE
      reads this, buff
    {
      File(inodeNum, mode, open, pos, newBytes, dirty, exist, path, buff[..], inode)
    }
  }

  class Ext2 {
    const disk: array<Block>
    const file: OpenFile
    var sb: SbImage
    var bgdt: Block
    var currentInode: InodeImage
    ghost var geo: Geometry
    ghost var tracked: set<nat>

    /** The driver before mounting: all static structures are zero. */
    constructor (disk: array<Block>)
      ensures this.disk == disk && fresh(file) && fresh(file.buff)
      ensures file.buff.Length == BLOCK_SIZE && file.Value() == CLOSED
    {
      this.disk := disk;
      file := new OpenFile();
      sb, bgdt, currentInode := Zeros(SB_SIZE), ZERO_BLOCK, ZERO_INODE;
      geo, tracked := Geometry(0, 0, 0, 0, [], [], []), {};
    }

    ghost function Vol(): Fs
      reads this`sb, this`bgdt, this`geo, disk
    {
      Fs(geo, disk[..], sb, bgdt)
    }

    ghost function State(): World
      requires file.buff.Length == BLOCK_SIZE
      reads this, disk, file, file.buff
    {
      World(Vol(), tracked, file.Value())
    }

    /** `ext2_read_block`. */
    method ReadBlock(n: nat, buf: array<byte>)
      requires n < disk.Length && buf.Length == BLOCK_SIZE
      modifies buf
      ensures buf[..] == disk[n]
    {
      var b := disk[n];
      for i := 0 to BLOCK_SIZE
        invariant forall k :: 0 <= k < i ==> buf[k] == b[k]
      {
        buf[i] := b[i];
      }
    }

    /** `ext2_write_block`. */
    method WriteBlock(n: nat, buf: array<byte>)
      requires n < disk.Length && buf.Length == BLOCK_SIZE
      modifies disk
      ensures disk[..] == old(disk[..])[n := old(buf[..])]
    {
      disk[n] := buf[..];
    }

    /** `ext2_extract_sb`: the error is reported after the structure was overwritten. */
    method ExtractSb() returns (err: nat)
      requires disk.Length > 0
      modifies this`sb
      ensures sb == disk[0][1024..1116]
      ensures err == 0 <==> Magic(sb) == 0xEF53
    {
      var buffer := new byte[BLOCK_SIZE];
      ReadBlock(0, buffer);
      sb := buffer[SB_OFFSET..SB_OFFSET + SB_SIZE];
      return if Magic(sb) != 0xEF53 then 255 else 0;
    }

    /** `ext2_extract_bgdt`. */
    method ExtractBgdt()
      requires disk.Length > 1
      modifies this`bgdt
      ensures bgdt == disk[1]
    {
      var buffer := new byte[BLOCK_SIZE];
      ReadBlock(1, buffer);
      bgdt := buffer[..];
    }

    /** Mounting, as the kernel does it: on a sound volume the driver starts in the invariant. */
    method Mount(ghost g: Geometry, ghost T: set<nat>) returns (err: nat)
      requires file.buff.Length == BLOCK_SIZE && file.Value() == CLOSED && 2 <= disk.Length
      requires Sound(Fs(g, disk[..], disk[0][SB_OFFSET..SB_OFFSET + SB_SIZE], disk[1]), T)
      modifies this
      ensures State() == World(Fs(g, disk[..], disk[0][SB_OFFSET..SB_OFFSET + SB_SIZE], disk[1]), T, CLOSED)
      ensures Inv(State()) && Clean(State())
      ensures err == 0 <==> Magic(sb) == 0xEF53
    {
      hide Sound;
      err := ExtractSb();
      ExtractBgdt();
      geo, tracked := g, T;
    }

    /** `ext2_write_sb`. */
    method WriteSb()
      requires disk.Length > 0
      modifies disk
      ensures disk[..] == old(disk[..])[0 := Splice(old(disk[0]), 1024, sb)]
    {
      var buffer := new byte[BLOCK_SIZE];
      ReadBlock(0, buffer);
      MemCpy(buffer, SB_OFFSET, sb);
      WriteBlock(0, buffer);
    }

    /** `ext2_write_bgdt`: the table fills the block. */
    method WriteBgdt()
      requires disk.Length > 1
      modifies disk
      ensures disk[..] == old(disk[..])[1 := bgdt]
    {
      var buffer := new byte[BLOCK_SIZE];
      ReadBlock(1, buffer);
      MemCpy(buffer, 0, bgdt);
      assert buffer[..] == bgdt;
      WriteBlock(1, buffer);
    }

    /** The updates once bit `i` was found clear: bitmap, descriptor count, superblock count, each written
        back at once. */
    method TakeInodeBit(group: nat, i: nat, at: nat, bitmap: array<byte>)
      requires Mounted(Vol()) && group < |geo.bb| && i < 32768 && GroupOk(geo, group)
      requires at == geo.ib[group] && bitmap.Length == BLOCK_SIZE && bitmap[..] == disk[at]
      modifies this`sb, this`bgdt, disk, bitmap
      ensures Vol() == TakeInode(old(Vol()), group, i)
      ensures InodesPerGroup(sb) == old(InodesPerGroup(sb)) && BlocksPerGroup(sb) == old(BlocksPerGroup(sb))
    {
      hide Sane, Describes, Mul, U16, U32, PutU16, PutU32, ByteOr, Splice, Dec16, Dec32, InodesPerGroup, BlocksPerGroup;
      CountKeepsSb(sb, 16, Dec32(FreeInodes(sb)));
      bitmap[i / 8] := ByteOr(bitmap[i / 8], i % 8);
      assert bitmap[..] == SetBit(old(bitmap[..]), i);
      WriteBlock(at, bitmap);
      bgdt := PutU16(bgdt, 32 * group + 14, Dec16(GroupFreeInodes(bgdt, group)));
      WriteBgdt();
      sb := PutU32(sb, 16, Dec32(FreeInodes(sb)));
      WriteSb();
    }

    /** `ext2_free_inode_alloc`. */
    method FreeInodeAlloc(group: nat) returns (n: nat)
      requires Mounted(Vol()) && group < |geo.bb|
      modifies this`sb, this`bgdt, disk
      ensures (Vol(), n) == AllocInode(old(Vol()), group)
    {
      hide Sane, Mul, TakeInode, Bit, AllocInode, InodesPerGroup, BlocksPerGroup, BlockNumber, InodeNumber;
      SaneGroup(geo, group);
      assert DescribesGroup(geo, bgdt, group);
      var bitmap := new byte[BLOCK_SIZE];
      var at := GroupInodeBitmap(bgdt, group);
      ReadBlock(at, bitmap);
      ghost var bm := disk[at];
      hide Describes;
      var i := 0;
      while i < InodesPerGroup(sb)
        invariant 0 <= i <= geo.ipg && geo.ipg == InodesPerGroup(sb) && geo.bpg == BlocksPerGroup(sb)
        invariant Vol() == old(Vol()) && bitmap[..] == bm
        invariant forall j :: 0 <= j < i ==> Bit(bm, j)
      {
        BitOfByte(bm, i);
        assert bitmap[i / 8] == bm[i / 8];
        if !NatBit(bitmap[i / 8], i % 8) {
          InodeScanIs(Vol(), group, i);
          TakeInodeBit(group, i, at, bitmap);
          return group * InodesPerGroup(sb) + i + 1;
        }
        i := i + 1;
      }
      InodeScanIs(Vol(), group, i);
      return 0;
    }

    /** The updates once bit `i` was found clear: bitmap, descriptor count, superblock count, each written
        back at once. */
    method TakeBlockBit(group: nat, i: nat, at: nat, bitmap: array<byte>)
      requires Mounted(Vol()) && group < |geo.bb| && i < 32768 && GroupOk(geo, group)
      requires at == geo.bb[group] && bitmap.Length == BLOCK_SIZE && bitmap[..] == disk[at]
      modifies this`sb, this`bgdt, disk, bitmap
      ensures Vol() == TakeBlock(old(Vol()), group, i)
      ensures InodesPerGroup(sb) == old(InodesPerGroup(sb)) && BlocksPerGroup(sb) == old(BlocksPerGroup(sb))
    {
      hide Sane, Describes, Mul, U16, U32, PutU16, PutU32, ByteOr, Splice, Dec16, Dec32, InodesPerGroup, BlocksPerGroup;
      CountKeepsSb(sb, 12, Dec32(FreeBlocks(sb)));
      bitmap[i / 8] := ByteOr(bitmap[i / 8], i % 8);
      assert bitmap[..] == SetBit(old(bitmap[..]), i);
      WriteBlock(at, bitmap);
      bgdt := PutU16(bgdt, 32 * group + 12, Dec16(GroupFreeBlocks(bgdt, group)));
      WriteBgdt();
      sb := PutU32(sb, 12, Dec32(FreeBlocks(sb)));
      WriteSb();
    }

    /** `ext2_free_block_alloc`. */
    method FreeBlockAlloc(group: nat) returns (n: nat)
      requires Mounted(Vol()) && group < |geo.bb|
      modifies this`sb, this`bgdt, disk
      ensures (Vol(), n) == AllocBlock(old(Vol()), group)
    {
      hide Sane, Mul, TakeBlock, Bit, AllocBlock, InodesPerGroup, BlocksPerGroup, BlockNumber, InodeNumber;
      SaneGroup(geo, group);
      assert DescribesGroup(geo, bgdt, group);
      var bitmap := new byte[BLOCK_SIZE];
      var at := GroupBlockBitmap(bgdt, group);
      ReadBlock(at, bitmap);
      ghost var bm := disk[at];
      hide Describes;
      var i := 0;
      while i < InodesPerGroup(sb)
        invariant 0 <= i <= geo.ipg && geo.ipg == InodesPerGroup(sb) && geo.bpg == BlocksPerGroup(sb)
        invariant Vol() == old(Vol()) && bitmap[..] == bm
        invariant forall j :: 0 <= j < i ==> Bit(bm, j)
      {
        BitOfByte(bm, i);
        assert bitmap[i / 8] == bm[i / 8];
        if !NatBit(bitmap[i / 8], i % 8) {
          BlockScanIs(Vol(), group, i);
          TakeBlockBit(group, i, at, bitmap);
          return group * BlocksPerGroup(sb) + i;
        }
        i := i + 1;
      }
      BlockScanIs(Vol(), group, i);
      return 0;
    }

    /** `ext2_extract_inode`: the static current inode is overwritten. */
    method ExtractInode(n: nat)
      requires Mounted(Vol()) && ValidIno(geo, n)
      modifies this`currentInode
      ensures currentInode == Image(Vol(), n)
    {
      hide Sane, Mul, U16, U32, InodeBlock, InodeOffset;
      SlotIs(geo, bgdt, n);
      var ipg, isz := InodesPerGroup(sb), InodeSize(sb);
      var group, index := (n - 1) / ipg, (n - 1) % ipg;
      var block := GroupInodeTable(bgdt, group) + index * isz / BLOCK_SIZE;
      var offset := index * isz % BLOCK_SIZE;
      var buffer := new byte[BLOCK_SIZE];
      ReadBlock(block, buffer);
      currentInode := buffer[offset..offset + INODE_SIZE];
    }

    /** `ext2_inode_write`. */
    method InodeWrite(n: nat, x: InodeImage)
      requires Mounted(Vol()) && ValidIno(geo, n)
      modifies disk
      ensures Vol() == SetInode(old(Vol()), n, x)
    {
      hide Sane, Mul, U16, U32, InodeBlock, InodeOffset;
      SlotIs(geo, bgdt, n);
      var ipg, isz := InodesPerGroup(sb), InodeSize(sb);
      var group, index := (n - 1) / ipg, (n - 1) % ipg;
      var block := GroupInodeTable(bgdt, group) + index * isz / BLOCK_SIZE;
      var offset := index * isz % BLOCK_SIZE;
      var buffer := new byte[BLOCK_SIZE];
      ReadBlock(block, buffer);
      MemCpy(buffer, offset, x);
      WriteBlock(block, buffer);
    }

    /** `ext2_list_directory`: the entries go into the caller's array. Of a slot's name only the bytes of
        the new name are overwritten. */
    method ListDirectory(n: nat, entries: array<Entry>) returns (count: nat)
      requires Mounted(Vol()) && ValidIno(geo, n) && Slotted(entries[..])
      requires IsDir(Image(Vol(), n)) ==> ListReadable(disk[..], Image(Vol(), n), 0, MAX_SUBDIRS)
      modifies this`currentInode, entries
      ensures count == |List(geo, disk[..], n)|
      ensures entries[..] == Overlay(old(entries[..]), List(geo, disk[..], n))
    {
      hide Sane, Describes, Mul, InodeAt, IsDir, ListFrom, ListReadable, Listing, Remaining, Ptr, Overlay, Slotted, Short;
      ExtractInode(n);
      ghost var done: seq<Entry>, slots := [], entries[..];
      NoOverlay(slots);
      if !IsDir(currentInode) {
        return 0;
      }
      ghost var x, l := currentInode, List(geo, disk[..], n);
      RemainingFirst(disk[..], x);
      var buffer := new byte[BLOCK_SIZE];
      var i, j := 0, 0;
      while i < NDIR_BLOCKS && Ptr(currentInode, i) != 0
        invariant 0 <= i <= NDIR_BLOCKS && 0 <= j <= MAX_SUBDIRS && currentInode == x
        invariant |done| == j && Short(done) && entries[..] == Overlay(slots, done)
        invariant Remaining(l, done, disk[..], x, i)
        decreases NDIR_BLOCKS - i
      {
        ListingNext(l, done, disk[..], x, i);
        ReadBlock(Ptr(currentInode, i), buffer);
        var full;
        j, full, done := ListBlock(buffer, entries, j, slots, l, done, disk[..], x, i + 1);
        if full {
          return j;
        }
        i := i + 1;
      }
      RemainingLast(l, done, disk[..], x, i);
      return j;
    }

    /** The records of one block, from entry `start` on; `full` when the array has no more slots. */
    static method ListBlock(buffer: array<byte>, entries: array<Entry>, start: nat, ghost slots: seq<Entry>,
                            ghost l: seq<Entry>, ghost before: seq<Entry>, ghost blocks: seq<Block>,
                            ghost x: InodeImage, ghost i: nat)
        returns (j: nat, full: bool, ghost done: seq<Entry>)
      requires buffer.Length == BLOCK_SIZE && Slotted(slots) && Short(before) && |before| == start
      requires entries[..] == Overlay(slots, before) && Listing(l, before, blocks, x, buffer[..], 0, i)
      modifies entries
      ensures |done| == j <= MAX_SUBDIRS && Short(done) && entries[..] == Overlay(slots, done)
      ensures Remaining(l, done, blocks, x, i) && (full ==> l == done)
    {
      hide ListFrom, ListReadable, Listing, Remaining, U16, U32, EntryAt, Overlay, Copied, Slotted, Short;
      j, done, full := start, before, false;
      ghost var b := buffer[..];
      var offset: nat := 0;
      ShortSize(before);
      while offset < BLOCK_SIZE
        invariant j <= MAX_SUBDIRS && buffer[..] == b
        invariant |done| == j && Short(done) && entries[..] == Overlay(slots, done)
        invariant Listing(l, done, blocks, x, b, offset, i)
        decreases MAX_SUBDIRS - j
      {
        if j >= MAX_SUBDIRS {
          ListingEnd(l, done, blocks, x, b, offset, i);
          full := true;
          return;
        }
        ListingStep(l, done, blocks, x, b, offset, i);
        if RecInode(buffer[..], offset) == 0 {
          break;
        }
        var e := EntryAt(buffer[..], offset);
        OverlayStep(slots, done, e);
        entries[j] := Copied(entries[j], e);
        done := done + [e];
        offset := offset + RecLen(buffer[..], offset);
        j := j + 1;
      }
      ListingEnd(l, done, blocks, x, b, offset, i);
    }

    /** The stores of `ext2_add_dir_entry` for the last record at `offset`. */
    method PutEntry(buffer: array<byte>, offset: nat, ino: nat, name: seq<byte>)
      requires buffer.Length == BLOCK_SIZE && offset + 8 <= BLOCK_SIZE && Fits(offset, name) && |name| <= NAME_LEN
      modifies buffer
      ensures buffer[..] == Insert(old(buffer[..]), offset, ino, name)
    {
      hide U32, PutU32, PutU16, Splice, U16;
      ghost var b := buffer[..];
      var size := (8 + |name| + 3) / 4 * 4;
      var oldLen := RecLen(buffer[..], offset);
      StoreU16(buffer, offset + 4, offset + size);
      PutGet16(b, offset + 4, offset + size);
      var len := RecLen(buffer[..], offset);
      var q := offset + len;
      StoreU32(buffer, q, ino);
      StoreU16(buffer, q + 4, (oldLen + 0x1_0000 - len) % 0x1_0000);
      buffer[q + 6] := |name| % 256;
      buffer[q + 7] := 0;
      MemCpy(buffer, q + 8, name);
    }

    /** `ext2_add_dir_entry`. Every record either is the last one, and the call returns, or ends inside
        the block: the loop never moves on to a second block. */
    method AddDirEntry(x: InodeImage, ino: nat, name: seq<byte>) returns (err: nat)
      requires SafeToAdd(disk[..], x, name)
      modifies disk
      ensures (disk[..], err) == AddEntry(old(disk[..]), x, ino, name)
    {
      hide Ptr, Insert, Fits, U16, U32, IsDir, FindLast, ScanSafe;
      if !IsDir(x) {
        return 0;
      }
      if Ptr(x, 0) == 0 {
        return 1;
      }
      var buffer := new byte[BLOCK_SIZE];
      ReadBlock(Ptr(x, 0), buffer);
      ghost var b := disk[Ptr(x, 0)];
      var j, offset: nat := 0, 0;
      while offset < BLOCK_SIZE
        invariant j <= MAX_SUBDIRS && buffer[..] == b && disk[..] == old(disk[..])
        invariant offset < BLOCK_SIZE && ScanSafe(b, offset, j) && FindLast(b, offset, j) == FindLast(b, 0, 0)
        decreases MAX_SUBDIRS - j
      {
        ScanStep(b, offset, j);
        if j >= MAX_SUBDIRS {
          return 1;
        }
        if offset + RecLen(buffer[..], offset) >= BLOCK_SIZE {
          PutEntry(buffer, offset, ino, name);
          WriteBlock(Ptr(x, 0), buffer);
          return 0;
        }
        j := j + 1;
        offset := offset + RecLen(buffer[..], offset);
      }
    }

    /** The search of `ext2_inode_find` through the slots of one listing: the inode of the first one that
        holds the name in `row`, or the directory itself. */
    method Search(entries: array<Entry>, count: nat, row: seq<byte>, dir: nat) returns (n: nat)
      requires Slotted(entries[..]) && count <= MAX_SUBDIRS && Terminated(row)
      requires forall j :: 0 <= j < count ==> entries[j].ino != 0
      ensures n == if Lookup(entries[..count], CString(row)) == 0 then dir else Lookup(entries[..count], CString(row))
    {
      hide CString, Lookup, Terminated;
      var j := 0;
      ghost var es := entries[..count];
      while j < count
        invariant 0 <= j <= count
        invariant forall i :: 0 <= i < j ==> CString(es[i].name) != CString(row)
      {
        SlotTerminated(es[j].name);
        var cmp := StrCmp(row, entries[j].name);
        if cmp == 0 {
          LookupHit(es, j, CString(row));
          return entries[j].ino;
        }
        j := j + 1;
      }
      LookupMiss(es, CString(row));
      return dir;
    }

    /** `ext2_inode_find`. The array of entries is the same for all components; it is taken to be cleared
        at the start. */
    method InodeFind(path: seq<byte>) returns (n: nat)
      requires Sound(Vol(), tracked) && Parsable(path)
      modifies this`currentInode
      ensures ValidIno(geo, ROOT) && n == Find(geo, disk[..], path) && n in tracked
    {
      hide Sane, Describes, Marked, CountsMatch, Mul, Owned, DirOk, CString, Split, Rows, Parsable, Walk, List,
        Terminated, Lookup, Overlay;
      RootIsValid(Vol(), tracked);
      FindTracked(Vol(), tracked, path);
      var rows := new byte[MAX_PATH_DEPTH, ROW_LEN]((i, j) => 0);
      var depth := UnpackDirPath(path, rows);
      n := ROOT;
      var entries := new Entry[MAX_SUBDIRS](_ => EMPTY);
      assert entries[..] == Fresh();
      RootPath(path);
      if path == [SLASH] {
        RootWalk(Vol(), path);
        return;
      }
      ghost var comps := Components(path);
      var i := 1;
      while i < depth
        invariant 1 <= i <= depth && n in tracked && ValidIno(geo, n) && Slotted(entries[..])
        invariant Find(geo, disk[..], path) == Walk(geo, disk[..], comps[i - 1..], n, entries[..])
        invariant forall j :: 0 <= j < depth ==> CString(RowOf(rows, j)) == Rows(path)[j]
      {
        var was := n;
        RowTerminated(rows, path, i);
        assert comps[i - 1..][0] == Rows(path)[i];
        assert comps[i - 1..][1..] == comps[i..];
        n := LookUp(n, RowOf(rows, i), entries, comps[i - 1..]);
        if was == n {
          return;
        }
        i := i + 1;
      }
      WalkEnd(Vol(), comps[i - 1..], n, entries[..]);
    }

    /** One turn of the loop: the directory is listed into the array, and the row is searched there. */
    method LookUp(n: nat, row: seq<byte>, entries: array<Entry>, ghost comps: seq<seq<byte>>) returns (m: nat)
      requires Sound(Vol(), tracked) && n in tracked && ValidIno(geo, n) && Slotted(entries[..])
      requires Terminated(row) && comps != [] && CString(row) == comps[0]
      modifies this`currentInode, entries
      ensures m in tracked && ValidIno(geo, m) && Slotted(entries[..])
      ensures Walk(geo, disk[..], comps, n, old(entries[..]))
           == if m == n then n else Walk(geo, disk[..], comps[1..], m, entries[..])
    {
      hide Sane, Describes, Marked, CountsMatch, Mul, Owned, DirOk, CString, Walk, List, Terminated, Lookup, Overlay;
      ghost var slots, l := entries[..], List(geo, disk[..], n);
      ListedTracked(Vol(), tracked, n);
      ListedFacts(Vol(), n);
      var count := ListDirectory(n, entries);
      assert entries[..count] == Overlay(slots, l)[..count];
      m := Search(entries, count, row, n);
      WalkStep(Vol(), tracked, comps, n, m, slots);
    }

    /** `strlen` of a row. */
    method RowLen(rows: array2<byte>, j: nat) returns (len: nat)
      requires j < rows.Length0 && Terminated(RowOf(rows, j))
      ensures len == |CString(RowOf(rows, j))|
    {
      ghost var s := RowOf(rows, j);
      ghost var z :| 0 <= z < |s| && s[z] == 0;
      len := 0;
      while rows[j, len] != 0
        invariant 0 <= len <= z
        invariant forall i :: 0 <= i < len ==> s[i] != 0
        decreases z - len
      {
        len := len + 1;
      }
      CStringIs(s, len);
    }

    /** The parent's path, built by `strncat` in a buffer that starts empty. It always fits. */
    method BuildParent(path: seq<byte>, rows: array2<byte>, depth: nat, parent: array<byte>)
      requires |path| <= MAX_PATH_LEN == parent.Length && forall i :: 0 <= i < parent.Length ==> parent[i] == 0
      requires rows.Length0 == MAX_PATH_DEPTH && 2 <= depth == |Rows(path)| <= MAX_PATH_DEPTH
      requires forall j :: 0 <= j < depth ==> CString(RowOf(rows, j)) == Rows(path)[j] && |Rows(path)[j]| < rows.Length1
      modifies parent
      ensures CString(parent[..]) == ParentPath(path)
    {
      hide CString, Rows, Concat, Terminated, NoNul;
      ghost var r := Rows(path);
      ConcatNone();
      EmptyParent(parent[..]);
      assert r[..0] == [];
      for i := 0 to depth - 1
        invariant CString(parent[..]) == Concat(r[..i]) && Terminated(parent[..])
        invariant forall j :: 0 <= j < depth ==> CString(RowOf(rows, j)) == r[j]
      {
        ConcatStep(r, i);
        ParentShorter(path, i + 1);
        StillTerminated(RowOf(rows, i), r[i]);
        RowIs(RowOf(rows, i), r[i]);
        var len := RowLen(rows, i);
        StrNCat(parent, RowOf(rows, i), len);
        StillTerminated(parent[..], Concat(r[..i + 1]));
      }
    }

    /** `ext2_file_create` from the extracted parent inode on. That inode is the static current inode,
        which nothing overwrites before the name is added; `junk` is the content of the uninitialised
        inode on the stack. */
    method CreateUnder(parent: nat, name: seq<byte>, junk: InodeImage) returns (err: nat)
      requires file.buff.Length == BLOCK_SIZE && Sound(Vol(), tracked)
      requires ValidIno(geo, parent) && currentInode == Image(Vol(), parent)
      requires |Rows(file.path)| > 0 && name == BaseName(file.path) && |name| <= NAME_LEN
      requires IsDir(currentInode) ==>
        parent in tracked && (DirFull(disk[..], currentInode) || Roomy(disk[..], currentInode, name))
      modifies this, disk, file
      ensures geo == old(geo) && (State(), err) == CreateIn(old(State()), parent, junk)
    {
      hide Sane, Describes, Marked, CountsMatch, Mul, Owned, DirOk, Rows, Reserve, NewInode, SafeToAdd, AddEntry,
        Roomy, DirFull, IsDir, AllocInode, AllocBlock, InodeAt, PutInode, InodesPerGroup, BaseName;
      ghost var w := State();
      if !IsDir(currentInode) {
        return 1;
      }
      GroupIs(Vol(), parent);
      var group := (parent - 1) / InodesPerGroup(sb);
      ReserveIs(Vol(), group);
      var inodeNum := FreeInodeAlloc(group);
      if inodeNum == 0 {
        return 1;
      }
      var blockNum := FreeBlockAlloc(group);
      if blockNum == 0 {
        return 1;
      }
      StagedSafe(w.fs, tracked, parent, junk, name);
      var inode := NewInode(junk, blockNum);
      file.inodeNum := inodeNum;
      file.inode := inode;
      InodeWrite(inodeNum, inode);
      tracked := tracked + {inodeNum};
      err := AddDirEntry(currentInode, inodeNum, name);
      if err != 0 {
        return err;
      }
      file.exist := true;
    }

    /** `ext2_file_create`. */
    method FileCreate(junk: InodeImage) returns (err: nat)
      requires file.buff.Length == BLOCK_SIZE && Sound(Vol(), tracked)
      requires |file.path| <= MAX_PATH_LEN ==> CanCreate(Vol(), tracked, file.path)
      modifies this, disk, file
      ensures geo == old(geo) && (State(), err) == Create(old(State()), junk)
    {
      hide Sane, Describes, Marked, CountsMatch, Mul, Owned, DirOk, CString, Split, Rows, Parsable, Find, CreateIn,
        Roomy, DirFull, IsDir, InodeAt, CanCreate, Concat;
      if |file.path| > MAX_PATH_LEN {
        return 1;
      }
      CreateFacts(Vol(), tracked, file.path);
      var rows := new byte[MAX_PATH_DEPTH, ROW_LEN]((i, j) => 0);
      var depth := UnpackDirPath(file.path, rows);
      var parentPath := new byte[MAX_PATH_LEN](_ => 0);
      BuildParent(file.path, rows, depth, parentPath);
      var parent := InodeFind(CString(parentPath[..]));
      ExtractInode(parent);
      err := CreateUnder(parent, CString(RowOf(rows, depth - 1)), junk);
    }

    /** `ext2_fopen`. */
    method Fopen(path: seq<byte>, mode: byte)
      requires file.buff.Length == BLOCK_SIZE && Inv(State()) && CanOpen(State(), path)
      modifies this`currentInode, file, file.buff
      ensures State() == Open(old(State()), path, mode)
    {
      hide Sane, Describes, Marked, CountsMatch, Mul, InodeAt, Find, DirOk, Owned, SectorsToBlocks, Attached,
        IsFile, IsDir, Parsable;
      if |path| > MAX_PATH_LEN {
        return;
      }
      if file.open {
        return;
      }
      var n := InodeFind(path);
      ExtractInode(n);
      if !IsFile(currentInode) {
        if mode != MODE_W {
          return;
        }
        file.exist := false;
      } else {
        file.exist := true;
      }
      StartFile(n, path, mode);
    }

    /** The fields of a freshly opened file; the buffer is cleared, not loaded. */
    method StartFile(n: nat, path: seq<byte>, mode: byte)
      requires file.buff.Length == BLOCK_SIZE
      modifies file, file.buff
      ensures file.Value() == File(n, mode, true, 0, 0, false, old(file.exist), path, ZERO_BLOCK, currentInode)
    {
      file.open := true;
      file.pos := 0;
      file.dirty := false;
      file.newBytes := 0;
      file.inodeNum := n;
      file.mode := mode;
      file.inode := currentInode;
      file.path := path;
      MemSet(file.buff, 0, BLOCK_SIZE);
      assert file.buff[..] == ZERO_BLOCK;
    }

    /** `ext2_fread`: the bytes go to the start of the caller's buffer; nothing else changes. */
    method Fread(buff: array<byte>, size: nat) returns (err: nat)
      requires file.buff.Length == BLOCK_SIZE && buff != file.buff && size <= buff.Length
      requires ReadFine(State(), size)
      modifies buff
      ensures err == 0 <==> file.open && size <= BLOCK_SIZE
      ensures State() == old(State())
      ensures buff[..] == if err == 0 then Splice(old(buff[..]), 0, ReadBytes(State(), size)) else old(buff[..])
    {
      hide Attached, Ptr, Splice, ReadBytes, ReadFine, SectorsToBlocks, Sectors;
      if !file.open {
        return 1;
      }
      if size > BLOCK_SIZE {
        return 1;
      }
      ReadParts(State(), size);
      var p := file.pos % BLOCK_SIZE;
      if p + size > BLOCK_SIZE {
        MemCpy(buff, 0, file.buff[p..]);
        var tmp := new byte[BLOCK_SIZE];
        ReadBlock(Ptr(file.inode, file.pos / BLOCK_SIZE + 1), tmp);
        MemCpy(buff, BLOCK_SIZE - p, tmp[..size + p - BLOCK_SIZE]);
        SplicePair(old(buff[..]), 0, file.buff[p..], tmp[..size + p - BLOCK_SIZE]);
      } else {
        MemCpy(buff, 0, file.buff[p..p + size]);
      }
      return 0;
    }

    /** One more block for the open file, as `ext2_fwrite` and `ext2_fseek` allocate it; 0 on failure. */
    method AttachBlockNow() returns (blk: nat)
      requires file.buff.Length == BLOCK_SIZE && Mounted(Vol()) && ValidIno(geo, file.inodeNum)
      modifies this`sb, this`bgdt, disk, file`inode
      ensures (State(), blk) == AttachNew(old(State()))
    {
      hide Sane, Describes, Mul, AllocBlock, AttachBlock, InodesPerGroup, SectorsToBlocks, Sectors;
      GroupIs(Vol(), file.inodeNum);
      var attached := SectorsToBlocks(Sectors(file.inode));
      var group := (file.inodeNum - 1) / InodesPerGroup(sb);
      blk := FreeBlockAlloc(group);
      if blk == 0 {
        return 0;
      }
      if attached < NDIR_BLOCKS {
        file.inode := AttachBlock(file.inode, attached, blk);
      } else {
        return 0;
      }
    }

    /** The last step of a write: the size, and the inode to disk. */
    method CommitSize(n: nat)
      requires file.buff.Length == BLOCK_SIZE && Mounted(Vol()) && ValidIno(geo, file.inodeNum)
      modifies disk, file`inode
      ensures State() == WriteSize(old(State()), n)
    {
      hide Sane, Describes, Mul, Resize, LowerSize, PutInode;
      if file.pos % BLOCK_SIZE + n > LowerSize(file.inode) {
        file.inode := Resize(file.inode, file.pos % BLOCK_SIZE + n);
      }
      InodeWrite(file.inodeNum, file.inode);
    }

    /** The second block of a straddling write: the next attached block, or a newly attached one. */
    method FindNext() returns (blk: nat)
      requires file.buff.Length == BLOCK_SIZE && Mounted(Vol()) && ValidIno(geo, file.inodeNum) && InFile(file.Value())
      modifies this`sb, this`bgdt, disk, file`inode
      ensures (State(), blk) == NextBlock(old(State()))
    {
      hide Sane, Describes, Mul, AttachNew, SectorsToBlocks, Sectors, Ptr, Attached;
      if SectorsToBlocks(Sectors(file.inode)) < file.pos / BLOCK_SIZE + 2 {
        blk := AttachBlockNow();
      } else {
        blk := Ptr(file.inode, file.pos / BLOCK_SIZE + 1);
      }
    }

    /** `ext2_fwrite` once the file exists and the size is in range. */
    method WriteOpen(data: seq<byte>) returns (err: nat)
      requires file.buff.Length == BLOCK_SIZE && Usable(State()) && |data| <= BLOCK_SIZE
      modifies this`sb, this`bgdt, disk, file, file.buff
      ensures geo == old(geo) && (State(), err) == WriteExisting(old(State()), data)
    {
      hide Sane, Describes, Marked, CountsMatch, Mul, InodeAt, Ptr, Attached, NextBlock, Inv, WriteSize, Splice,
        WriteExisting, Far;
      ghost var w := State();
      HereIsPtr(w);
      WriteSteps(w, data);
      var p, size := file.pos % BLOCK_SIZE, |data|;
      var blockNum := Ptr(file.inode, file.pos / BLOCK_SIZE);
      if p + size > BLOCK_SIZE {
        MemCpy(file.buff, p, data[..BLOCK_SIZE - p]);
        WriteBlock(blockNum, file.buff);
        assert State() == WriteNear(w, data);
        ghost var w1 := State();
        blockNum := FindNext();
        WriteIsSteps(w, data, w1, State(), blockNum);
        if blockNum == 0 {
          return 1;
        }
        var newBuff := new byte[BLOCK_SIZE](_ => 0);
        ghost var zeros := newBuff[..];
        MemCpy(newBuff, 0, data[BLOCK_SIZE - p..]);
        FarIs(w.f, data, zeros);
        WriteBlock(blockNum, newBuff);
      } else {
        MemCpy(file.buff, p, data);
        WriteBlock(blockNum, file.buff);
        assert State() == WriteNear(w, data);
        WriteIsSteps(w, data, State(), w, 0);
      }
      CommitSize(size);
      return 0;
    }

    /** `ext2_fwrite`; only the first `size` bytes of the caller's buffer are written. */
    method Fwrite(buff: array<byte>, size: nat, junk: InodeImage) returns (err: nat)
      requires file.buff.Length == BLOCK_SIZE && buff != file.buff && size <= buff.Length
      requires Inv(State()) && WriteFine(State(), buff[..size])
      modifies this, disk, file, file.buff
      ensures geo == old(geo) && (State(), err) == Write(old(State()), old(buff[..size]), junk)
    {
      hide Sound, Create, Attached, WriteExisting, IsFile, IsDir, SectorsToBlocks, CanCreate;
      if !file.open {
        return 1;
      }
      if !file.exist {
        CreateInv(State(), junk);
        var failed := FileCreate(junk);
        if failed != 0 {
          return 1;
        }
      }
      if size > BLOCK_SIZE {
        return 1;
      }
      err := WriteOpen(buff[..size]);
    }

    /** Save the dirty buffer, and the size when there are new bytes. */
    method FlushNow()
      requires file.buff.Length == BLOCK_SIZE && Inv(State()) && file.open && file.exist && InFile(file.Value())
      modifies disk, file`inode
      ensures old(Mounted(Vol()) && ValidIno(geo, file.inodeNum) && Here(State()) < disk.Length)
      ensures State() == Flush(old(State()))
    {
      hide Sane, Describes, Marked, CountsMatch, Mul, Owned, DirOk, Attached, IsFile, IsDir, SectorsToBlocks,
        Resize, Ptr, PutInode, InodeAt;
      HereIsPtr(State());
      FlushSteps(State());
      WriteBlock(Ptr(file.inode, file.pos / BLOCK_SIZE), file.buff);
      if file.newBytes > 0 {
        file.inode := Resize(file.inode, (file.pos + file.newBytes) % 0x1_0000_0000);
        InodeWrite(file.inodeNum, file.inode);
      }
    }

    /** `ext2_fseek`. */
    method Fseek(newPos: nat, junk: InodeImage) returns (err: nat)
      requires file.buff.Length == BLOCK_SIZE && Inv(State()) && SeekFine(State(), newPos)
      modifies this, disk, file, file.buff
      ensures geo == old(geo) && (State(), err) == Seek(old(State()), newPos, junk)
    {
      hide Sound, Create, Attached, SeekExisting, IsFile, IsDir, SectorsToBlocks, CanCreate;
      if !file.open {
        return 1;
      }
      if file.pos == newPos {
        return 0;
      }
      if !file.exist {
        CreateInv(State(), junk);
        var failed := FileCreate(junk);
        if failed != 0 {
          return 1;
        }
      }
      err := SeekOpen(newPos);
    }

    /** The position change of a seek, after saving a dirty buffer of another block. */
    method MoveTo(newPos: nat)
      requires file.buff.Length == BLOCK_SIZE && Inv(State()) && file.open && file.exist
      modifies disk, file
      ensures State() == Moved(old(State()), newPos)
    {
      hide Sound, Attached, Flush, IsFile, IsDir, SectorsToBlocks;
      if file.dirty && newPos / BLOCK_SIZE != file.pos / BLOCK_SIZE {
        FlushNow();
      }
      file.pos := newPos;
      file.newBytes := 0;
      file.dirty := false;
    }

    /** `ext2_fseek` to another position of an existing file. */
    method SeekOpen(newPos: nat) returns (err: nat)
      requires file.buff.Length == BLOCK_SIZE && Inv(State()) && file.open && file.exist && newPos < 0x1_0000_0000
      modifies this`sb, this`bgdt, disk, file, file.buff
      ensures geo == old(geo) && (State(), err) == SeekExisting(old(State()), newPos)
    {
      hide Sane, Describes, Marked, CountsMatch, Mul, InodeAt, Ptr, IsData, Attached, Sound, Moved, AttachNew,
        Splice, Resize,
        SectorsToBlocks, Sectors, PutInode, IsFile, IsDir;
      MovedInv(State(), newPos);
      MoveTo(newPos);
      MountedFile(State());
      if SectorsToBlocks(Sectors(file.inode)) < newPos / BLOCK_SIZE + 1 {
        AttachNewKeeps(State());
        var blockNum := AttachBlockNow();
        if blockNum == 0 {
          return 1;
        }
        ReadBlock(blockNum, file.buff);
        ghost var b := file.buff[..];
        MemSet(file.buff, 0, newPos % BLOCK_SIZE);
        ZeroedIs(b, newPos % BLOCK_SIZE, file.buff[..]);
        file.inode := Resize(file.inode, newPos % BLOCK_SIZE);
        InodeWrite(file.inodeNum, file.inode);
      } else {
        SeekTarget(State());
        ReadBlock(Ptr(file.inode, newPos / BLOCK_SIZE), file.buff);
      }
      return 0;
    }

    /** `ext2_fclose`: a failed creation still closes the file and reports success. */
    method Fclose(junk: InodeImage) returns (err: nat)
      requires file.buff.Length == BLOCK_SIZE && Inv(State())
      requires file.open && !file.exist ==> CreateFine(State())
      modifies this, disk, file, file.buff
      ensures geo == old(geo) && (State(), err) == Close(old(State()), junk)
    {
      hide Sound, Create, Attached, Flush, IsFile, IsDir, SectorsToBlocks, CanCreate;
      if !file.open {
        return 1;
      }
      var failed := 0;
      if !file.exist {
        CreateInv(State(), junk);
        failed := FileCreate(junk);
      }
      if failed == 0 {
        if file.dirty {
          FlushNow();
        }
      }
      ClearFile();
      return 0;
    }

    /** The end of `ext2_fclose`: every field is zeroed. */
    method ClearFile()
      requires file.buff.Length == BLOCK_SIZE
      modifies file, file.buff
      ensures file.Value() == CLOSED
    {
      file.open := false;
      file.pos := 0;
      file.exist := false;
      file.newBytes := 0;
      file.inodeNum := 0;
      file.dirty := false;
      file.mode := 0;
      file.inode := ZERO_INODE;
      file.path := [];
      MemSet(file.buff, 0, BLOCK_SIZE);
      assert file.buff[..] == ZERO_BLOCK;
    }
  }
}
