/** The file exercise that the kernel runs at boot. */
module Kernel {
  import opened Bytes
  import opened Volume
  import opened Alloc
  import opened Paths
  import opened Ownership
  import opened Files
  import opened Creation
  import opened Writing
  import opened Session
  import opened Refinement
  import opened Calls
  import opened Space
  import opened Arith
  import opened Namespace
  import opened Memory
  import opened Driver

  predicate AllAre(s: seq<byte>, c: byte) { forall i :: 0 <= i < |s| ==> s[i] == c }

  /** The path can be opened for writing: it names a file with at least one block, or it can be created. */
  ghost predicate CanExercise(w: World, path: seq<byte>) {
    && Inv(w) && Clean(w) && !w.f.open && |path| <= MAX_PATH_LEN && CanOpen(w, path)
    && var x := Image(w.fs, Find(w.fs.g, w.fs.disk, path));
       if IsFile(x) then Attached(x) > 0 else CanCreate(w.fs, w.tracked, path)
  }

  /** Opening leaves a file that can be written at position 0. */
  lemma OpenedFine(w: World, path: seq<byte>, data: seq<byte>)
    requires CanExercise(w, path)
    ensures var w1 := Open(w, path, MODE_W); Inv(w1) && Clean(w1) && w1.f.open && w1.f.pos == 0 && WriteFine(w1, data)
  {
    hide Sane, Describes, Marked, CountsMatch, Find, DirOk, Owned, SectorsToBlocks, Attached, IsFile, IsDir,
      Parsable, CanCreate;
    OpenInv(w, path, MODE_W);
  }

  /** A seek inside the first block of a file in step succeeds, and the file can be written there. */
  lemma SoughtInStep(w: World, p: nat, junk: InodeImage)
    requires InStep(w) && p < BLOCK_SIZE
    ensures SeekFine(w, p)
    ensures var (w2, err) := Seek(w, p, junk);
      && err == 0 && InStep(w2) && w2.f.pos == p && w2.fs == w.fs && w2.tracked == w.tracked
      && w2.f.inode == w.f.inode && w2.f.inodeNum == w.f.inodeNum
  {
    hide Sane, Describes, Marked, CountsMatch, DirOk, Owned, Create, Attached, SeekExisting, IsFile, IsDir,
      SectorsToBlocks;
    if p != w.f.pos {
      SeekLoads(w, p);
    }
  }

  /** After a successful write to a file in step the bytes are read back at once. */
  lemma WroteReadsBack(w: World, data: seq<byte>, junk: InodeImage)
    requires InStep(w) && |data| <= BLOCK_SIZE
    ensures WriteFine(w, data)
    ensures var (w2, err) := Write(w, data, junk);
      err == 0 ==> Inv(w2) && Clean(w2) && w2.f.open && w2.f.exist && ReadsBack(w2, data)
  {
    hide Sane, Describes, Marked, CountsMatch, DirOk, Owned, Create, Attached, WriteExisting, IsFile, IsDir,
      SectorsToBlocks,
      Coherent, ReadsBack;
    var (w2, err) := Write(w, data, junk);
    if err == 0 {
      WriteInStep(w, data);
      WriteTouches(w, data);
      WriteReadBack(w, data, w2, []);
    }
  }

  lemma ReadableBack(w: World, data: seq<byte>)
    requires ReadsBack(w, data) && |data| <= BLOCK_SIZE
    ensures ReadFine(w, |data|) && ReadBytes(w, |data|) == data
  {
  }

  // When the exercise runs to its end.

  /** An existing file has two blocks or can be given a second one; a missing one can be created, and a
      second free block is left for it. */
  ghost predicate HasRoom(w: World, path: seq<byte>)
    requires CanExercise(w, path)
  {
    hide Sound, Sane, Describes, Find, Attached, IsFile, IsDir, Parsable, Roomy, TwoFree;
    ExerciseFacts(w, path);
    var n := Find(w.fs.g, w.fs.disk, path);
    if IsFile(Image(w.fs, n)) then Attached(Image(w.fs, n)) >= 2 || !NoFreeBlock(w.fs, InoGroup(w.fs.g, n))
    else
      var d := Find(w.fs.g, w.fs.disk, ParentPath(path));
      var k := InoGroup(w.fs.g, d);
      && IsDir(Image(w.fs, d)) && Roomy(w.fs.disk, Image(w.fs, d), BaseName(path))
      && !NoFreeInode(w.fs, k) && TwoFree(w.fs, k)
  }

  lemma ExerciseFacts(w: World, path: seq<byte>)
    requires CanExercise(w, path)
    ensures Mounted(w.fs) && ValidIno(w.fs.g, Find(w.fs.g, w.fs.disk, path))
    ensures InoGroup(w.fs.g, Find(w.fs.g, w.fs.disk, path)) < |w.fs.g.bb|
    ensures !IsFile(Image(w.fs, Find(w.fs.g, w.fs.disk, path))) ==>
      |Rows(path)| >= 2 && InoGroup(w.fs.g, Find(w.fs.g, w.fs.disk, ParentPath(path))) < |w.fs.g.bb|
  {
    hide Sane, Describes, Marked, CountsMatch, DirOk, Owned, Attached, IsFile, IsDir, Parsable, Roomy, DirFull;
    FindTracked(w.fs, w.tracked, path);
  }

  /** The first write fails exactly when a missing file cannot be created; afterwards a second block can be
      had exactly when there was room for two. */
  lemma FirstWrite(w: World, path: seq<byte>, data: seq<byte>, junk: InodeImage)
    requires CanExercise(w, path) && |data| == BLOCK_SIZE
    ensures var w1 := Open(w, path, MODE_W);
      && Inv(w1) && WriteFine(w1, data)
      && var (w2, err) := Write(w1, data, junk);
         && (HasRoom(w, path) ==> err == 0)
         && (err == 0 ==>
               && InStep(w2) && w2.f.pos == 0 && Mounted(w2.fs) && ValidIno(w2.fs.g, w2.f.inodeNum)
               && (HasRoom(w, path) <==>
                     Attached(w2.f.inode) >= 2 || !NoFreeBlock(w2.fs, InoGroup(w2.fs.g, w2.f.inodeNum))))
  {
    hide Sane, Describes, Marked, CountsMatch, DirOk, Owned, Create, Attached, WriteExisting, IsFile, IsDir,
      SectorsToBlocks, CanCreate, NoFreeBlock, NoFreeInode, TwoFree, Roomy, Find, Parsable, Mul, InStep, FileOk;
    OpenedFine(w, path, data);
    var w1 := Open(w, path, MODE_W);
    if w1.f.exist {
      PlainWrite(w1, data);
    } else {
      MissingWrite(w1, data, junk);
      ExerciseFacts(w, path);
      if HasRoom(w, path) {
        TwoFreeIsFree(w.fs, InoGroup(w.fs.g, Find(w.fs.g, w.fs.disk, ParentPath(path))));
      }
    }
  }

  lemma MissingWrite(w: World, data: seq<byte>, junk: InodeImage)
    requires Inv(w) && Clean(w) && w.f.open && !w.f.exist && |w.f.path| <= MAX_PATH_LEN && |data| == BLOCK_SIZE
    requires CanCreate(w.fs, w.tracked, w.f.path)
    ensures var d := Find(w.fs.g, w.fs.disk, ParentPath(w.f.path));
      && ValidIno(w.fs.g, d)
      && var (k, (w2, err)) := (InoGroup(w.fs.g, d), Write(w, data, junk));
         && (err == 0 <==>
               IsDir(Image(w.fs, d)) && Roomy(w.fs.disk, Image(w.fs, d), BaseName(w.f.path))
               && !NoFreeInode(w.fs, k) && !NoFreeBlock(w.fs, k))
         && (err == 0 ==>
               && InStep(w2) && w2.f.pos == 0 && Mounted(w2.fs) && ValidIno(w2.fs.g, w2.f.inodeNum)
               && Attached(w2.f.inode) == 1
               && (TwoFree(w.fs, k) <==> !NoFreeBlock(w2.fs, InoGroup(w2.fs.g, w2.f.inodeNum))))
  {
    hide Sane, Describes, Marked, CountsMatch, DirOk, Owned, Create, Attached, WriteExisting, IsFile, IsDir,
      SectorsToBlocks, CanCreate, NoFreeBlock, NoFreeInode, TwoFree, Roomy, Find, Parsable, Mul, InStep, Sound;
    CreateInv(w, junk);
    CreateSucceedsIff(w, junk);
    var (w2, err) := Create(w, junk);
    if err == 0 {
      CreateLeaves(w, junk);
      PlainWrite(w2, data);
    } else {
      ParentValid(w);
    }
  }

  lemma ParentValid(w: World)
    requires Inv(w) && CanCreate(w.fs, w.tracked, w.f.path)
    ensures ValidIno(w.fs.g, Find(w.fs.g, w.fs.disk, ParentPath(w.f.path)))
  {
    hide Sane, Describes, Marked, CountsMatch, DirOk, Owned;
  }

  /** Two free blocks are one free block. */
  lemma TwoFreeIsFree(fs: Fs, k: nat)
    requires Mounted(fs) && k < |fs.g.bb| && TwoFree(fs, k)
    ensures !NoFreeBlock(fs, k)
  {
    hide Sane, Describes;
  }

  /** A write of up to a block at position 0 succeeds and takes no block. */
  lemma PlainWrite(w: World, data: seq<byte>)
    requires Usable(w) && Clean(w) && w.f.pos == 0 && |data| <= BLOCK_SIZE
    ensures var (w2, err) := WriteExisting(w, data);
      && err == 0 && InStep(w2) && w2.f.pos == 0 && w2.f.inodeNum == w.f.inodeNum
      && Attached(w2.f.inode) == Attached(w.f.inode)
      && Mounted(w.fs) && Mounted(w2.fs) && w2.fs.g == w.fs.g && ValidIno(w.fs.g, w.f.inodeNum)
      && (NoFreeBlock(w2.fs, InoGroup(w.fs.g, w.f.inodeNum)) <==> NoFreeBlock(w.fs, InoGroup(w.fs.g, w.f.inodeNum)))
  {
    hide Sane, Describes, Marked, CountsMatch, Mul, InodeAt, Ptr, Inv, Attached, Held, WriteExisting, NoFreeBlock, Took,
      Sectors, SectorsToBlocks;
    WriteTouches(w, data);
    WriteInode(w, data);
    WriteInStep(w, data);
    UsableFacts(w);
    PlainWriteTakes(w, data);
    SameFree(w.fs, WriteExisting(w, data).0.fs, InoGroup(w.fs.g, w.f.inodeNum), {});
  }

  /** The second write, at position 10, succeeds exactly when there is a second block or a free one. */
  lemma SecondWrite(w: World, data: seq<byte>, junk: InodeImage)
    requires InStep(w) && w.f.pos == 10 && |data| == BLOCK_SIZE
    ensures Mounted(w.fs) && ValidIno(w.fs.g, w.f.inodeNum) && WriteFine(w, data)
    ensures var (w2, err) := Write(w, data, junk);
      && (err == 0 <==> Attached(w.f.inode) >= 2 || !NoFreeBlock(w.fs, InoGroup(w.fs.g, w.f.inodeNum)))
      && (err == 0 ==> Inv(w2) && w2.f.inodeNum == w.f.inodeNum && Rewritten(w, w2, data))
  {
    hide Sane, Describes, Marked, CountsMatch, DirOk, Owned, Create, Attached, WriteExisting, IsFile, IsDir,
      SectorsToBlocks, NoFreeBlock, ByteAt, Content, Coherent, Inv;
    WriteSucceedsIff(w, data);
    if WriteExisting(w, data).1 == 0 {
      WriteInv(w, data);
      WriteTouches(w, data);
      WriteLength(w, data);
      var w2 := WriteExisting(w, data).0;
      forall q: nat | q < 10 + BLOCK_SIZE
        ensures q < |Content(w2)| && (q < 10 ==> q < |Content(w)|)
        ensures Content(w2)[q] == if q < 10 then Content(w)[q] else data[q - 10]
      {
        WriteContents(w, data, q);
        if q < 10 {
          LoadedBlock(w);
        }
      }
    }
  }

  /** The contents after the second write: ten old bytes, then the written ones. */
  ghost predicate Rewritten(w: World, w2: World, data: seq<byte>) {
    && 10 <= |Content(w)| && 10 + |data| <= |Content(w2)|
    && Content(w2)[..10 + |data|] == Content(w)[..10] + data
  }

  /** The first write leaves its bytes in the first block. */
  lemma FirstBytes(w: World, data: seq<byte>, junk: InodeImage)
    requires Inv(w) && Clean(w) && WriteFine(w, data) && w.f.open && w.f.pos == 0 && |data| == BLOCK_SIZE
    requires Write(w, data, junk).1 == 0
    ensures data <= Content(Write(w, data, junk).0)
  {
    hide Sane, Describes, Marked, CountsMatch, DirOk, Owned, Create, Attached, WriteExisting, IsFile, IsDir,
      SectorsToBlocks, ByteAt, Content;
    var w1 := w;
    if !w.f.exist {
      CreateInv(w, junk);
      w1 := Create(w, junk).0;
    }
    WriteInv(w1, data);
    var w2 := WriteExisting(w1, data).0;
    WriteLength(w1, data);
    WrittenContent(w1, data, w2);
    assert data == Content(w2)[..BLOCK_SIZE];
  }

  /** Inode `n` of the volume holds ten bytes `first` and then a block of `second`. */
  ghost predicate Holds(w: World, n: nat, first: byte, second: byte) {
    && Mounted(w.fs) && n in w.tracked && ValidIno(w.fs.g, n)
    && 10 + BLOCK_SIZE <= BLOCK_SIZE * Attached(Image(w.fs, n))
    && forall q: nat :: q < 10 + BLOCK_SIZE ==>
         ByteAt(w.fs.disk, Image(w.fs, n), q) == if q < 10 then first else second
  }

  lemma RewrittenHolds(w: World, w2: World, data: seq<byte>, first: byte, second: byte)
    requires Inv(w2) && w2.f.open && w2.f.exist && Rewritten(w, w2, data) && |data| == BLOCK_SIZE
    requires AllAre(data, second) && forall q :: 0 <= q < 10 ==> Content(w)[q] == first
    ensures Holds(w2, w2.f.inodeNum, first, second)
  {
    hide Sane, Describes, Marked, CountsMatch, DirOk, Owned, Attached, ByteAt, IsFile, IsDir, SectorsToBlocks;
    forall q: nat | q < 10 + BLOCK_SIZE
      ensures Content(w2)[q] == if q < 10 then first else second
    {
      assert Content(w2)[q] == Content(w2)[..10 + BLOCK_SIZE][q];
    }
  }

  /** Open, write a block of one byte, seek to position 10, write a block of another byte (which straddles
      into a second block), read a block back, close. The run reaches its end exactly when there is room;
      then the second byte was read, and the file on disk holds both. Here the run stops at the first
      failure. */
  method Exercise(fs: Ext2, path: seq<byte>, junk: InodeImage, first: byte, second: byte)
    returns (readBuffer: array<byte>, done: bool)
    requires fs.file.buff.Length == BLOCK_SIZE && CanExercise(fs.State(), path)
    modifies fs, fs.disk, fs.file, fs.file.buff
    ensures Inv(fs.State()) && Clean(fs.State())
    ensures done <==> HasRoom(old(fs.State()), path)
    ensures done ==> readBuffer.Length == 4096 && AllAre(readBuffer[..], second)
    ensures done ==> exists n :: Holds(fs.State(), n, first, second)
  {
    hide Inv, Clean, CanOpen, WriteFine, Usable, InStep, Write, Open, CanCreate, IsFile, Attached, Image, HasRoom,
      Holds, Content, NoFreeBlock, CanExercise, Mounted, AllAre, Find;
    readBuffer := new byte[4096];
    var buffer := new byte[4096];
    MemSet(buffer, first, 4096);
    ghost var w0, data := fs.State(), buffer[..4096];
    FirstReady(w0, path, data);
    fs.Fopen(path, MODE_W);
    ghost var w := fs.State();
    var err := fs.Fwrite(buffer, 4096, junk);
    FirstHalf(w0, path, w, data, junk, fs.State(), err, first);
    if err != 0 {
      return readBuffer, false;
    }
    MemSet(buffer, second, 4096);
    SetAll(buffer[..], second);
    done := Rewrite(fs, buffer, readBuffer, junk, first, second);
  }

  lemma SetAll(s: seq<byte>, c: byte)
    requires forall i :: 0 <= i < |s| ==> s[i] == c
    ensures AllAre(s, c)
  {
  }

  lemma FirstReady(w0: World, path: seq<byte>, data: seq<byte>)
    requires CanExercise(w0, path)
    ensures Inv(w0) && CanOpen(w0, path)
    ensures var w := Open(w0, path, MODE_W); Inv(w) && Clean(w) && w.f.open && w.f.pos == 0 && WriteFine(w, data)
  {
    OpenedFine(w0, path, data);
    hide CanOpen, Open, Inv, Clean;
  }

  /** What the first write leaves, in the terms of the second half. */
  lemma FirstHalf(w0: World, path: seq<byte>, w: World, data: seq<byte>, junk: InodeImage, w1: World, err: nat, first: byte)
    requires CanExercise(w0, path) && Open(w0, path, MODE_W) == w && |data| == BLOCK_SIZE
    requires forall i :: 0 <= i < |data| ==> data[i] == first
    requires Inv(w) && WriteFine(w, data) && Write(w, data, junk) == (w1, err)
    ensures Inv(w1) && Clean(w1) && (HasRoom(w0, path) ==> err == 0)
    ensures err == 0 ==> InStep(w1) && w1.f.pos == 0 && Mounted(w1.fs) && ValidIno(w1.fs.g, w1.f.inodeNum)
    ensures err == 0 ==> |Content(w1)| >= 10 && forall q :: 0 <= q < 10 ==> Content(w1)[q] == first
    ensures err == 0 ==> (HasRoom(w0, path) <==>
      Attached(w1.f.inode) >= 2 || !NoFreeBlock(w1.fs, InoGroup(w1.fs.g, w1.f.inodeNum)))
  {
    hide Inv, Clean, WriteFine, InStep, Write, CanExercise, Open, HasRoom, Content, NoFreeBlock, Attached, CanOpen, Mounted;
    FirstReady(w0, path, data);
    FirstWrite(w0, path, data, junk);
    WriteCallInv(w, data, junk);
    if err == 0 {
      FirstBytes(w, data, junk);
      assert forall q :: 0 <= q < 10 ==> Content(w1)[q] == data[q];
    }
  }

  /** The second half: seek, write, read back, close. */
  method Rewrite(fs: Ext2, buffer: array<byte>, readBuffer: array<byte>, junk: InodeImage,
                 ghost first: byte, ghost second: byte) returns (done: bool)
    requires fs.file.buff.Length == BLOCK_SIZE && InStep(fs.State()) && fs.State().f.pos == 0
    requires buffer.Length == readBuffer.Length == 4096 && AllAre(buffer[..], second)
    requires |Content(fs.State())| >= 10 && forall q :: 0 <= q < 10 ==> Content(fs.State())[q] == first
    requires Mounted(fs.State().fs) && ValidIno(fs.State().fs.g, fs.State().f.inodeNum)
    requires buffer != readBuffer && fs.file.buff !in {buffer, readBuffer}
    modifies fs, fs.disk, fs.file, fs.file.buff, readBuffer
    ensures Inv(fs.State()) && Clean(fs.State())
    ensures done <==> old(Attached(fs.State().f.inode) >= 2
                          || !NoFreeBlock(fs.State().fs, InoGroup(fs.State().fs.g, fs.State().f.inodeNum)))
    ensures done ==> readBuffer[..] == old(buffer[..])
    ensures done ==> exists n :: Holds(fs.State(), n, first, second)
  {
    hide Inv, Clean, WriteFine, Usable, InStep, Write, Seek, ReadsBack, Close, ReadFine, ReadBytes, SeekFine, Attached,
      NoFreeBlock, Content, Holds, AllAre, Mounted, Closes;
    ghost var w, data := fs.State(), buffer[..4096];
    assert data == buffer[..];
    InStepFacts(w);
    SoughtInStep(w, 10, junk);
    var err := fs.Fseek(10, junk);
    ghost var w1 := fs.State();
    SecondReady(w1, data);
    err := fs.Fwrite(buffer, 4096, junk);
    SecondHalf(w, w1, data, junk, fs.State(), err, first, second);
    if err != 0 {
      return false;
    }
    ghost var w2 := fs.State();
    err := fs.Fread(readBuffer, 4096);
    ClosesAs(w2, junk, first, second);
    err := fs.Fclose(junk);
    return true;
  }

  /** What the second write leaves: a file that reads back, and that closing leaves alone. */
  ghost predicate Closes(w2: World, first: byte, second: byte) {
    && Inv(w2) && Clean(w2) && w2.f.open && w2.f.exist && Holds(w2, w2.f.inodeNum, first, second)
  }

  lemma ClosesAs(w2: World, junk: InodeImage, first: byte, second: byte)
    requires Closes(w2, first, second)
    ensures Inv(w2) && w2.f.open && w2.f.exist
    ensures var w3 := Close(w2, junk).0; Inv(w3) && Clean(w3) && exists n :: Holds(w3, n, first, second)
  {
    hide Inv, Holds, Close;
    CloseInv(w2, junk);
    SameVolumeHolds(w2, Close(w2, junk).0, w2.f.inodeNum, first, second);
  }

  lemma SecondReady(w1: World, data: seq<byte>)
    requires InStep(w1) && |data| == BLOCK_SIZE
    ensures Inv(w1) && Clean(w1) && WriteFine(w1, data)
  {
    hide Inv, Clean;
  }

  /** The file has a second block or can be given one. */
  ghost predicate CanExtend(w: World)
    requires Mounted(w.fs) && ValidIno(w.fs.g, w.f.inodeNum)
  {
    hide Sane, Describes, NoFreeBlock;
    Attached(w.f.inode) >= 2 || !NoFreeBlock(w.fs, InoGroup(w.fs.g, w.f.inodeNum))
  }

  ghost predicate Begins(w: World, first: byte) {
    hide ByteAt, Attached;
    |Content(w)| >= 10 && forall q :: 0 <= q < 10 ==> Content(w)[q] == first
  }

  ghost predicate ReadGives(w: World, data: seq<byte>) {
    hide Ptr, ReadBytes, SectorsToBlocks;
    w.f.open && ReadFine(w, 4096) && ReadBytes(w, 4096) == data
  }

  lemma SecondHalf(w: World, w1: World, data: seq<byte>, junk: InodeImage, w2: World, err: nat, first: byte, second: byte)
    requires InStep(w) && w.f.pos == 0 && |data| == BLOCK_SIZE && AllAre(data, second) && Begins(w, first)
    requires Mounted(w.fs) && ValidIno(w.fs.g, w.f.inodeNum)
    requires InStep(w1) && w1.f.pos == 10 && w1.fs == w.fs && w1.tracked == w.tracked
    requires w1.f.inode == w.f.inode && w1.f.inodeNum == w.f.inodeNum
    requires Inv(w1) && WriteFine(w1, data) && Write(w1, data, junk) == (w2, err)
    ensures Inv(w2) && Clean(w2) && (err == 0 <==> CanExtend(w))
    ensures err == 0 ==> ReadGives(w2, data) && Closes(w2, first, second)
  {
    hide WriteFine, Usable, Write, ReadsBack, ReadFine, ReadBytes, Attached, NoFreeBlock, Content, Holds, Rewritten, Inv,
      Clean, InStep, AllAre, Mounted;
    InStepFacts(w1);
    SameContent(w, w1);
    WroteReadsBack(w1, data, junk);
    SecondWrite(w1, data, junk);
    WriteCallInv(w1, data, junk);
    if err == 0 {
      RewrittenHolds(w1, w2, data, first, second);
      ReadableBack(w2, data);
    }
  }

  lemma SameVolumeHolds(a: World, b: World, n: nat, first: byte, second: byte)
    requires Holds(a, n, first, second) && a.fs == b.fs && a.tracked == b.tracked
    ensures Holds(b, n, first, second)
  {
  }

  lemma InStepFacts(w: World)
    requires InStep(w)
    ensures Inv(w) && Clean(w)
  {
  }
}
