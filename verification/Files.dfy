/** The open file and the calls on it, as functions on the state of the driver. The methods of the
    driver are proved against these functions; the theorems about them are in Creation,
    Writing, Session, Refinement and Calls. */
module Files {
  import opened Bytes
  import opened Arith
  import opened Volume
  import opened Alloc
  import opened Records
  import opened Paths
  import opened Namespace
  import opened Ownership

  const MODE_W: byte := 119

  /** `ext2_file_t`; the path is the C string in the array, the mode its first character. */
  datatype File = File(inodeNum: nat, mode: byte, open: bool, pos: nat, newBytes: nat, dirty: bool,
                       exist: bool, path: seq<byte>, buff: Block, inode: InodeImage)

  const ZERO_INODE: InodeImage := Zeros(128)

  const CLOSED: File := File(0, 0, false, 0, 0, false, false, [], ZERO_BLOCK, ZERO_INODE)

  /** The volume, the inodes tracked by the invariant, and the one file structure. */
  datatype World = World(fs: Fs, tracked: set<nat>, f: File)

  /** The number of attached blocks of the open file, as the driver computes it. */
  function Allocated(f: File): nat {
    SectorsToBlocks(Sectors(f.inode))
  }

  /** Position `pos` lies in an attached direct block. */
  predicate InFile(f: File) {
    f.pos / BLOCK_SIZE < Attached(f.inode)
  }

  /** What holds of the file structure between calls. An existing file is a tracked regular file with
      direct blocks only, and its inode in memory is the one on disk. */
  ghost predicate FileOk(w: World)
    requires Mounted(w.fs)
  {
    && (!w.f.open ==> w.f == CLOSED)
    && (w.f.open && !w.f.exist ==> w.f.pos == 0 && !w.f.dirty)
    && (w.f.open && w.f.exist ==>
          && w.f.inodeNum in w.tracked && ValidIno(w.fs.g, w.f.inodeNum)
          && Image(w.fs, w.f.inodeNum) == w.f.inode
          && IsFile(w.f.inode) && !IsDir(w.f.inode)
          && Allocated(w.f) <= NDIR_BLOCKS
          && (w.f.dirty ==> InFile(w.f)))
    && w.f.pos < 0x1_0000_0000
  }

  ghost predicate Inv(w: World) {
    Sound(w.fs, w.tracked) && FileOk(w)
  }

  /** Nothing is ever left to be flushed. */
  predicate Clean(w: World) {
    !w.f.dirty && w.f.newBytes == 0
  }

  // Creating the file.

  /** The fields that `ext2_file_create` sets in an uninitialised inode. */
  function NewInode(junk: InodeImage, blk: nat): InodeImage {
    PutU32(PutU32(PutU16(PutU32(PutU16(junk, 0, 0x81A4), 40, blk), 26, 1), 28, 8), 4, 0)
  }

  function Concat(rows: seq<seq<byte>>): seq<byte> {
    if rows == [] then [] else Concat(rows[..|rows| - 1]) + rows[|rows| - 1]
  }

  /** The parent's path as `ext2_file_create` builds it: the rows before the last, without separators. */
  function ParentPath(path: seq<byte>): seq<byte>
    requires |Rows(path)| > 0
  {
    Concat(Rows(path)[..|Rows(path)| - 1])
  }

  function BaseName(path: seq<byte>): seq<byte>
    requires |Rows(path)| > 0
  {
    Rows(path)[|Rows(path)| - 1]
  }

  /** The scan for the last record passes 128 records first. */
  predicate ScanFull(b: Block, o: nat, j: nat)
    decreases MAX_SUBDIRS - j
  {
    j >= MAX_SUBDIRS
    || (o + 8 <= BLOCK_SIZE && o + RecLen(b, o) < BLOCK_SIZE && ScanFull(b, o + RecLen(b, o), j + 1))
  }

  /** Adding to this directory fails cleanly: it has no block, or its first block is full. */
  predicate DirFull(disk: seq<Block>, x: InodeImage) {
    Ptr(x, 0) == 0 || (Ptr(x, 0) < |disk| && ScanFull(disk[Ptr(x, 0)], 0, 0))
  }

  /** Creating a file at this path stays inside all buffers: the parent is no directory, is full, or has
      room for the record. */
  ghost predicate CanCreate(fs: Fs, T: set<nat>, path: seq<byte>)
    requires Sound(fs, T)
  {
    && Parsable(path) && |Rows(path)| >= 2 && Parsable(ParentPath(path))
    && ValidIno(fs.g, ROOT)
    && var d := Find(fs.g, fs.disk, ParentPath(path));
       var x := Image(fs, d);
       IsDir(x) ==> d in T && (DirFull(fs.disk, x) || Roomy(fs.disk, x, BaseName(path)))
  }

  lemma AllocInodeGood(fs: Fs, k: nat)
    requires Good(fs) && k < |fs.g.bb|
    ensures Good(AllocInode(fs, k).0) && AllocInode(fs, k).0.g == fs.g
  {
    hide Good, AllocInode;
    AllocInodeKeeps(fs, k);
  }

  /** An inode and a block taken from group `k`; the number 0 stands for a failure. */
  ghost function Reserve(fs: Fs, k: nat): (Fs, nat, nat)
    requires Good(fs) && k < |fs.g.bb|
  {
    hide Sane, Describes, Marked, CountsMatch, AllocInode;
    AllocInodeGood(fs, k);
    var (fs1, ino) := AllocInode(fs, k);
    if ino == 0 then (fs1, 0, 0) else (AllocBlock(fs1, k).0, ino, AllocBlock(fs1, k).1)
  }

  lemma ReserveKeeps(fs: Fs, k: nat)
    requires Good(fs) && k < |fs.g.bb|
    ensures var (r, ino, blk) := Reserve(fs, k);
      && Touches(fs, r, {}, {})
      && (ino == 0 ==> blk == 0)
      && (ino != 0 ==> ValidIno(fs.g, ino) && !InodeUsed(fs.g, fs.disk, ino) && InodeUsed(fs.g, r.disk, ino))
      && (blk != 0 ==> Held(fs.g, r.disk, blk) && !Held(fs.g, fs.disk, blk) && blk < |fs.disk|)
  {
    hide Sane, Describes, Marked, CountsMatch, BlockUsed, InodeUsed, Mul, InodeAt, AllocBlock, AllocInode;
    AllocInodeKeeps(fs, k);
    var (fs1, ino) := AllocInode(fs, k);
    if ino != 0 {
      AllocBlockKeeps(fs1, k);
      TouchesTrans(fs, fs1, AllocBlock(fs1, k).0, {}, {}, {}, {});
    }
  }

  lemma ReserveMounted(fs: Fs, k: nat)
    requires Good(fs) && k < |fs.g.bb|
    ensures var (r, ino, blk) := Reserve(fs, k); Mounted(r) && r.g == fs.g && (blk != 0 ==> ino != 0 && ValidIno(r.g, ino))
  {
    hide Sane, Describes, Marked, CountsMatch, InodeAt, Reserve, Mul;
    ReserveKeeps(fs, k);
  }

  /** `ext2_file_create` once the parent directory `d` is known: the state afterwards and the error
      code. The inode is written, and tracked, before the name is added. */
  ghost function CreateIn(w: World, d: nat, junk: InodeImage): (World, nat)
    requires Good(w.fs) && ValidIno(w.fs.g, d) && |Rows(w.f.path)| > 0
  {
    hide Sane, Describes, Marked, CountsMatch, Reserve, PutInode, InodeAt, AddEntry, Mul, IsDir, NewInode, Rows;
    var x := Image(w.fs, d);
    if !IsDir(x) then (w, 1)
    else
      var (fs2, ino, blk) := Reserve(w.fs, InoGroup(w.fs.g, d));
      if blk == 0 then (w.(fs := fs2), 1)
      else
        ReserveMounted(w.fs, InoGroup(w.fs.g, d));
        var y := NewInode(junk, blk);
        var fs3 := SetInode(fs2, ino, y);
        var (disk, err) := AddEntry(fs3.disk, x, ino, BaseName(w.f.path));
        (World(fs3.(disk := disk), w.tracked + {ino},
               w.f.(inodeNum := ino, inode := y, exist := w.f.exist || err == 0)), err)
  }

  /** `ext2_file_create`; `junk` is what the uninitialised inode held. */
  ghost function Create(w: World, junk: InodeImage): (World, nat)
    requires Sound(w.fs, w.tracked) && (|w.f.path| <= MAX_PATH_LEN ==> CanCreate(w.fs, w.tracked, w.f.path))
  {
    if |w.f.path| > MAX_PATH_LEN then (w, 1)
    else CreateIn(w, Find(w.fs.g, w.fs.disk, ParentPath(w.f.path)), junk)
  }

  // Reading, writing and seeking in an existing file.

  /** The inode after block `blk` was attached at index `i`. */
  function AttachBlock(x: InodeImage, i: nat, blk: nat): InodeImage
    requires i < NDIR_BLOCKS
  {
    PutU32(PutU32(x, 40 + 4 * i, blk), 28, (Sectors(x) + 8) % 0x1_0000_0000)
  }

  function Resize(x: InodeImage, size: nat): InodeImage {
    PutU32(x, 4, size)
  }

  /** Allocate one more block for the open file, in its inode's group, and attach it in memory; the
      block number, or 0 when there is none or all direct pointers are taken (the block then leaks). */
  ghost function AttachNew(w: World): (World, nat)
    requires Mounted(w.fs) && ValidIno(w.fs.g, w.f.inodeNum)
  {
    var (fs2, blk) := AllocBlock(w.fs, InoGroup(w.fs.g, w.f.inodeNum));
    if blk == 0 || Allocated(w.f) >= NDIR_BLOCKS then (w.(fs := fs2), 0)
    else (w.(fs := fs2, f := w.f.(inode := AttachBlock(w.f.inode, Allocated(w.f), blk))), blk)
  }

  /** The open file can be read and written at its position. */
  ghost predicate Usable(w: World) {
    Inv(w) && w.f.open && w.f.exist && InFile(w.f)
  }

  /** Block `i` of the open file. */
  function FileBlock(w: World, i: nat): nat
    requires i < 15
  {
    Ptr(w.f.inode, i)
  }

  /** A write of `n` bytes at the position reaches into the next block. */
  predicate Straddles(f: File, n: nat) {
    f.pos % BLOCK_SIZE + n > BLOCK_SIZE
  }

  /** The bytes that fall into the block of the position. */
  function Near(f: File, data: seq<byte>): seq<byte> {
    if Straddles(f, |data|) then data[..BLOCK_SIZE - f.pos % BLOCK_SIZE] else data
  }

  /** ... and the second block of a straddling write: the remaining bytes, then zeros. */
  function Far(f: File, data: seq<byte>): Block
    requires |data| <= BLOCK_SIZE && Straddles(f, |data|)
  {
    var rest := data[BLOCK_SIZE - f.pos % BLOCK_SIZE..];
    rest + Zeros(BLOCK_SIZE - |rest|)
  }

  /** First step of a write: the buffer takes the near bytes and goes to disk. */
  ghost function WriteNear(w: World, data: seq<byte>): World
    requires InFile(w.f) && FileBlock(w, w.f.pos / BLOCK_SIZE) < |w.fs.disk| && |data| <= BLOCK_SIZE
  {
    var buff := Splice(w.f.buff, w.f.pos % BLOCK_SIZE, Near(w.f, data));
    w.(fs := SetData(w.fs, FileBlock(w, w.f.pos / BLOCK_SIZE), buff), f := w.f.(buff := buff))
  }

  /** Second step of a straddling write: find or allocate the next block; 0 if there is none. */
  ghost function NextBlock(w: World): (World, nat)
    requires Mounted(w.fs) && ValidIno(w.fs.g, w.f.inodeNum) && InFile(w.f)
  {
    if Allocated(w.f) < w.f.pos / BLOCK_SIZE + 2 then AttachNew(w) else (w, FileBlock(w, w.f.pos / BLOCK_SIZE + 1))
  }

  /** Last step: the size, computed from the position within the block, and the inode go to disk. */
  ghost function WriteSize(w: World, n: nat): World
    requires Mounted(w.fs) && ValidIno(w.fs.g, w.f.inodeNum)
  {
    var end := w.f.pos % BLOCK_SIZE + n;
    var y := if end > LowerSize(w.f.inode) then Resize(w.f.inode, end) else w.f.inode;
    w.(fs := SetInode(w.fs, w.f.inodeNum, y), f := w.f.(inode := y))
  }
}
