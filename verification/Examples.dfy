/** Inputs at which the driver does not do what it is for, on small volumes that satisfy the invariant. */
module Examples {
  import opened Bytes
  import opened Arith
  import opened Volume
  import opened Alloc
  import opened Records
  import opened Slots
  import opened Namespace
  import opened Ownership
  import opened Files
  import opened Creation
  import opened Writing
  import opened Session
  import opened Refinement
  import opened Calls
  import opened Keeping
  import opened Closing
  import opened Finding
  import opened Layout
  import opened Space
  import opened Formatted
  import opened Kernel
  import opened Paths

  predicate Name(s: seq<byte>) { 1 <= |s| <= NAME_LEN && NoNul(s) && NoSlash(s) }

  const DOT: seq<byte> := [46]

  function Path1(a: seq<byte>): seq<byte> { [SLASH] + a }

  /** The formatted volume with the driver just mounted. */
  ghost function Idle(): World { World(Volume0(), {ROOT}, CLOSED) }

  lemma Facts0()
    ensures Mounted(Volume0()) && ValidIno(GEO, ROOT) && Image(Volume0(), ROOT) == Root()
    ensures IsDir(Root()) && !IsFile(Root()) && InoGroup(GEO, ROOT) == 0 < |GEO.bb|
    ensures Inv(Idle()) && Clean(Idle())
    ensures List(GEO, Disk(), ROOT) == [EntryAt(RootBlock(), 0)] && EntryAt(RootBlock(), 0).ino == ROOT
    ensures EntryAt(RootBlock(), 0).name == DOT
  {
    hide Root, DotBlock, Sb, Table, Blank, Disk, Sound, Ptr, TypePerm, Sane, InodeAt, EntryAt, Describes;
    FormattedIsSound();
    Mounted0();
    RootImage();
    RootFields();
    FreeLeft();
    RootKind();
    RootList();
  }

  /** The root of this volume has mode 0755, in the first two bytes of its inode, and lists itself. */
  lemma RootLists()
    ensures Mounted(Volume0()) && ValidIno(GEO, 2) && Image(Volume0(), 2)[0] == 0xED && Image(Volume0(), 2)[1] == 0x41
    ensures var l := List(GEO, Disk(), 2); |l| == 1 && l[0].ino == 2 && l[0].name == [46]
  {
    RootMode();
    hide Root, DotBlock, Disk, Sane, InodeAt, EntryAt, Describes, List, Sound, Inv, Clean;
    Facts0();
  }

  lemma RootMode()
    ensures Root()[0] == 0xED && Root()[1] == 0x41
  {
    RootFields();
    hide Root;
    var low: int, high: int := Root()[0], Root()[1];
    assert low + high * 256 == 0x41ED;
  }

  lemma RootKind()
    ensures IsDir(Root()) && !IsFile(Root())
  {
    hide Root;
    RootFields();
  }

  lemma RootList()
    requires Shaped(GEO, Disk())
    ensures ListFrom(Disk(), Root(), 0, MAX_SUBDIRS) == [EntryAt(RootBlock(), 0)]
    ensures EntryAt(RootBlock(), 0).ino == ROOT && EntryAt(RootBlock(), 0).name == DOT
  {
    RootFields();
    DotRecord(ROOT);
    DiskBlocks();
    hide Root, DotBlock, Sb, Table, Blank, Disk, Ptr, EntryAt, Parse, Tiled, Count, LastOffset;
    assert ListFrom(Disk(), Root(), 1, MAX_SUBDIRS - 1) == [];
  }

  /** Every walk on this volume stays in the root. */
  lemma StaysInRoot(comps: seq<seq<byte>>)
    ensures Shaped(GEO, Disk()) && ValidIno(GEO, ROOT) && Walk(GEO, Disk(), comps, ROOT, Fresh()) == ROOT
  {
    hide Root, DotBlock, Disk, Sane, Fresh, Seen, List, EntryAt, Inv, Clean, Describes;
    Facts0();
    if comps != [] {
      SeenIn(Fresh(), List(GEO, Disk(), ROOT), comps[0]);
    }
  }

  lemma FindRoot(path: seq<byte>)
    ensures Mounted(Volume0()) && ValidIno(GEO, ROOT) && Find(GEO, Disk(), path) == ROOT
  {
    hide Root, DotBlock, Disk, Sane, Fresh, Walk, EntryAt, Inv, Clean, Describes, Components, List;
    Facts0();
    StaysInRoot(Components(path));
  }

  // The kernel's exercise.

  lemma TwoFreeBlocks()
    ensures Mounted(Volume0()) && 0 < |GEO.bb| && TwoFree(Volume0(), 0)
  {
    hide Root, DotBlock, Sb, Table, Blank, Disk, Bitmaps.Bit, Describes, Sane;
    Mounted0();
    GeoIsSane();
    DiskBlocks();
    Bits(6);
    Bits(7);
    assert Volume0().disk == Disk() && Volume0().g == GEO;
    assert GroupOk(GEO, 0);
    assert !Bitmaps.Bit(Disk()[GEO.bb[0]], 6) && !Bitmaps.Bit(Disk()[GEO.bb[0]], 7);
  }

  /** On the formatted volume the exercise runs to its end, whatever the file's name. */
  lemma ExerciseRuns(name: seq<byte>)
    requires Name(name)
    ensures CanExercise(Idle(), Path1(name)) && HasRoom(Idle(), Path1(name))
  {
    hide Root, DotBlock, Sb, Table, Blank, Disk, Inv, Clean, Sane, InodeAt, EntryAt, Describes, Parsable, Find, Roomy,
      NoFreeInode, NoFreeBlock, TwoFree, CanCreate, Accepts, IsDir, IsFile, Rows, BaseName, ParentPath, List;
    Facts0();
    var path := Path1(name);
    AnyNameCreatable(name);
    PathOf(name);
    FindRoot(path);
    FindRoot(ParentPath(path));
    FreeLeft();
    TwoFreeBlocks();
    RootAccepts(name);
    AcceptsIsRoomy(Disk(), Root(), name);
  }

  // Seeking and the size.

  /** The state after opening a new file in the root. */
  ghost function New(name: seq<byte>): World
    requires Name(name)
  {
    Idle().(f := File(ROOT, MODE_W, true, 0, 0, false, false, Path1(name), ZERO_BLOCK, Root()))
  }

  lemma NewIsOpened(name: seq<byte>)
    requires Name(name)
    ensures Inv(Idle()) && CanOpen(Idle(), Path1(name)) && Open(Idle(), Path1(name), MODE_W) == New(name)
    ensures Inv(New(name)) && Clean(New(name))
  {
    hide Root, DotBlock, Sb, Table, Blank, Disk, Sound, Sane, InodeAt, EntryAt, Describes, Parsable, Find, IsDir, IsFile,
      Rows, List;
    Facts0();
    PathOf(name);
    FindRoot(Path1(name));
    OpenInv(Idle(), Path1(name), MODE_W);
  }

  /** Creating the file gives it one block, and leaves a free one. */
  lemma NewCreated(name: seq<byte>, junk: InodeImage)
    requires Name(name)
    ensures Inv(New(name)) && CreateFine(New(name))
    ensures var (w1, err) := Create(New(name), junk);
      && err == 0 && Usable(w1) && Clean(w1) && w1.f.pos == 0 && Attached(w1.f.inode) == 1 && LowerSize(w1.f.inode) == 0
      && Good(w1.fs) && ValidIno(w1.fs.g, w1.f.inodeNum)
      && !NoFreeBlock(w1.fs, InoGroup(w1.fs.g, w1.f.inodeNum))
  {
    hide Root, DotBlock, Sb, Table, Blank, Disk, Sound, Sane, InodeAt, EntryAt, Describes, Parsable, Find, IsDir, IsFile,
      Rows, List, Create, NoFreeBlock, TwoFree, Roomy, Attached, LowerSize;
    NewIsOpened(name);
    FirstCreateSucceeds(New(name), name, junk);
    CreateInv(New(name), junk);
    CreateLeaves(New(name), junk);
    PathOf(name);
    FindRoot(ParentPath(Path1(name)));
    TwoFreeBlocks();
    Facts0();
    SoundIsGood(Create(New(name), junk).0);
  }

  lemma SoundIsGood(w: World)
    requires Inv(w)
    ensures Good(w.fs)
  {
  }

  /** Seeking to 8192 in a file of one block succeeds, and the position lies in no block of the file. */
  lemma SeekTooFar(name: seq<byte>, junk: InodeImage)
    requires Name(name)
    ensures Inv(New(name)) && SeekFine(New(name), 8192)
    ensures var (w, err) := Seek(New(name), 8192, junk); err == 0 && w.f.exist && w.f.pos == 8192 && !InFile(w.f)
  {
    hide Root, DotBlock, Sb, Table, Blank, Disk, Sound, Sane, Describes, Create, NoFreeBlock, Attached, LowerSize, SeekExisting;
    NewCreated(name, junk);
    var w1 := Create(New(name), junk).0;
    SeekSucceedsIff(w1, 8192);
    SeekReaches(w1, 8192);
    SeekInv(w1, 8192);
  }

  /** After creating a file, seeking to 4096 and writing one byte there the size is 1, not 4097. */
  lemma SizeOne(name: seq<byte>, b: byte, junk: InodeImage)
    requires Name(name)
    ensures Inv(New(name)) && SeekFine(New(name), 4096)
    ensures var (w2, err) := Seek(New(name), 4096, junk);
      && err == 0 && Usable(w2) && WriteFine(w2, [b])
      && var (w3, err3) := Write(w2, [b], junk);
         err3 == 0 && w3.f.pos == 4096 && LowerSize(w3.f.inode) == 1
  {
    hide Root, DotBlock, Sb, Table, Blank, Disk, Sound, Sane, Describes, Create, NoFreeBlock, Attached, LowerSize, SeekExisting,
      WriteExisting, Content, GainsBlock, FileOk;
    NewCreated(name, junk);
    var w1 := Create(New(name), junk).0;
    SeekSucceedsIff(w1, 4096);
    SeekAppends(w1, 4096);
    OneByteSize(SeekExisting(w1, 4096).0, b);
  }

  lemma OneByteSize(w: World, b: byte)
    requires Usable(w) && w.f.pos % BLOCK_SIZE == 0 && LowerSize(w.f.inode) == 0
    ensures var (w2, err) := WriteExisting(w, [b]); err == 0 && w2.f.pos == w.f.pos && LowerSize(w2.f.inode) == 1
  {
    hide Inv, NoFreeBlock, Attached, LowerSize, WriteExisting;
    WriteSucceedsIff(w, [b]);
    WriteInode(w, [b]);
    WriteTouches(w, [b]);
  }

  /** The call succeeds and leads from `w` to `w2`. */
  ghost predicate Sought(w: World, p: nat, junk: InodeImage, w2: World) {
    Inv(w) && SeekFine(w, p) && Seek(w, p, junk) == (w2, 0)
  }

  ghost predicate Wrote(w: World, data: seq<byte>, junk: InodeImage, w2: World) {
    Inv(w) && WriteFine(w, data) && Write(w, data, junk) == (w2, 0)
  }

  lemma SoughtIs(w: World, p: nat, junk: InodeImage, w2: World)
    requires Usable(w) && p != w.f.pos && p < 0x1_0000_0000 && SeekExisting(w, p) == (w2, 0)
    ensures Sought(w, p, junk, w2)
  {
    hide Sound, FileOk, SeekExisting, Create, CreateFine;
  }

  lemma WroteIs(w: World, data: seq<byte>, junk: InodeImage, w2: World)
    requires Usable(w) && |data| <= BLOCK_SIZE && WriteExisting(w, data) == (w2, 0)
    ensures Wrote(w, data, junk, w2)
  {
    hide Sound, FileOk, WriteExisting, Create, CreateFine, Attached;
  }

  /** The first call on a new file creates it. */
  lemma FirstSeek(name: seq<byte>, p: nat, junk: InodeImage, w2: World)
    requires Name(name) && 0 < p < 0x1_0000_0000
    requires Inv(New(name)) && CreateFine(New(name)) && Create(New(name), junk).1 == 0
    requires Usable(Create(New(name), junk).0) && SeekExisting(Create(New(name), junk).0, p) == (w2, 0)
    ensures Sought(New(name), p, junk, w2)
  {
    hide Sound, FileOk, SeekExisting, Create, CreateFine, Root, Disk;
  }

  lemma FirstCallWrites(name: seq<byte>, data: seq<byte>, junk: InodeImage, w2: World)
    requires Name(name) && |data| <= BLOCK_SIZE
    requires Inv(New(name)) && CreateFine(New(name)) && Create(New(name), junk).1 == 0
    requires Usable(Create(New(name), junk).0) && WriteExisting(Create(New(name), junk).0, data) == (w2, 0)
    ensures Wrote(New(name), data, junk, w2)
  {
    hide Sound, FileOk, WriteExisting, Create, CreateFine, Root, Disk, Attached;
  }

  /** A file of any size up to a block has size 0 after a seek to 4096. */
  lemma SizeLost(name: seq<byte>, data: seq<byte>, junk: InodeImage) returns (w2: World, w3: World)
    requires Name(name) && |data| <= BLOCK_SIZE
    ensures Wrote(New(name), data, junk, w2) && LowerSize(w2.f.inode) == |data|
    ensures Sought(w2, 4096, junk, w3) && LowerSize(w3.f.inode) == 0
  {
    hide Sound, FileOk, CanCreate, Create, NoFreeBlock, LowerSize, SeekExisting, WriteExisting, Usable, Clean, New, Marked,
      CountsMatch, Sane, Describes, Attached;
    NewCreated(name, junk);
    var w1 := Create(New(name), junk).0;
    w2, w3 := SizeSteps(w1, data);
    FirstCallWrites(name, data, junk, w2);
    SoughtIs(w2, 4096, junk, w3);
  }

  lemma SizeSteps(w1: World, data: seq<byte>) returns (w2: World, w3: World)
    requires Usable(w1) && Clean(w1) && w1.f.pos == 0 && Attached(w1.f.inode) == 1 && LowerSize(w1.f.inode) == 0
    requires Mounted(w1.fs) && ValidIno(w1.fs.g, w1.f.inodeNum) && !NoFreeBlock(w1.fs, InoGroup(w1.fs.g, w1.f.inodeNum))
    requires |data| <= BLOCK_SIZE
    ensures WriteExisting(w1, data) == (w2, 0) && Usable(w2) && w2.f.pos == 0 && LowerSize(w2.f.inode) == |data|
    ensures SeekExisting(w2, 4096) == (w3, 0) && LowerSize(w3.f.inode) == 0
  {
    hide Inv, NoFreeBlock, Attached, LowerSize, SeekExisting, WriteExisting, Content, GainsBlock, Coherent, Sane, Describes;
    PlainWrite(w1, data);
    WriteInode(w1, data);
    w2 := WriteExisting(w1, data).0;
    SeekSucceedsIff(w2, 4096);
    SeekAppends(w2, 4096);
    w3 := SeekExisting(w2, 4096).0;
  }

  /** A byte of a two-block file at position 4146 is cleared by writing ten bytes at 4090, which end at 4100. */
  lemma TailLost(name: seq<byte>, b: byte, data: seq<byte>, junk: InodeImage)
      returns (w2: World, w3: World, w4: World, w5: World)
    requires Name(name) && b != 0 && |data| == 10
    ensures Sought(New(name), 4146, junk, w2) && Wrote(w2, [b], junk, w3)
    ensures Sought(w3, 4090, junk, w4) && Wrote(w4, data, junk, w5)
    ensures |Content(w4)| == |Content(w5)| == 8192 && Content(w4)[4146] == b && Content(w5)[4146] == 0
  {
    hide Sound, FileOk, CanCreate, Create, NoFreeBlock, LowerSize, SeekExisting, WriteExisting, Usable, Clean, New, Marked,
      CountsMatch, Sane, Describes, Attached,
      Content;
    NewCreated(name, junk);
    var w1 := Create(New(name), junk).0;
    w2 := TailSought(w1);
    ByteAtTail(w2, b);
    w3 := WriteExisting(w2, [b]).0;
    w4 := TailReturned(w3);
    TailCleared(w4, data);
    w5 := WriteExisting(w4, data).0;
    FirstSeek(name, 4146, junk, w2);
    WroteIs(w2, [b], junk, w3);
    SoughtIs(w3, 4090, junk, w4);
    WroteIs(w4, data, junk, w5);
  }

  lemma TailSought(w1: World) returns (w2: World)
    requires Usable(w1) && Clean(w1) && Attached(w1.f.inode) == 1
    requires Mounted(w1.fs) && ValidIno(w1.fs.g, w1.f.inodeNum) && !NoFreeBlock(w1.fs, InoGroup(w1.fs.g, w1.f.inodeNum))
    ensures SeekExisting(w1, 4146) == (w2, 0) && Usable(w2) && Clean(w2) && w2.f.pos == 4146 && Attached(w2.f.inode) == 2
  {
    hide Inv, NoFreeBlock, Attached, LowerSize, SeekExisting, Content, GainsBlock, Sane, Describes;
    SeekSucceedsIff(w1, 4146);
    SeekAppends(w1, 4146);
    w2 := SeekExisting(w1, 4146).0;
    TwoBlocks(w1, w2);
  }

  lemma TailReturned(w3: World) returns (w4: World)
    requires Usable(w3) && Clean(w3) && w3.f.pos == 4146 && Attached(w3.f.inode) == 2
    ensures SeekExisting(w3, 4090) == (w4, 0) && Usable(w4) && w4.f.pos == 4090 && Attached(w4.f.inode) == 2
    ensures Content(w4) == Content(w3)
  {
    hide Inv, Attached, LowerSize, SeekExisting, Content, Coherent;
    SeekLoads(w3, 4090);
    w4 := SeekExisting(w3, 4090).0;
    SameContent(w3, w4);
  }

  lemma TwoBlocks(w: World, w2: World)
    requires InFile(w2.f) && GainsBlock(w, w2, 4146 % BLOCK_SIZE) && Attached(w.f.inode) == 1
    ensures Attached(w2.f.inode) == 2
  {
    hide Attached;
  }

  lemma ByteAtTail(w: World, b: byte)
    requires Usable(w) && Clean(w) && w.f.pos == 4146 && Attached(w.f.inode) == 2
    ensures var (w2, err) := WriteExisting(w, [b]);
      && err == 0 && Usable(w2) && Clean(w2) && w2.f.pos == 4146 && Attached(w2.f.inode) == 2
      && |Content(w2)| == 8192 && Content(w2)[4146] == b
  {
    hide Inv, NoFreeBlock, Attached, LowerSize, WriteExisting, Content, Coherent, ByteAt;
    WriteSucceedsIff(w, [b]);
    WriteTouches(w, [b]);
    WriteInv(w, [b]);
    WriteCoherent(w, [b]);
    WriteLength(w, [b]);
    WriteContents(w, [b], 4146);
  }

  lemma TailCleared(w: World, data: seq<byte>)
    requires Usable(w) && w.f.pos == 4090 && Attached(w.f.inode) == 2 && |data| == 10
    ensures var (w2, err) := WriteExisting(w, data); err == 0 && |Content(w2)| == 8192 && Content(w2)[4146] == 0
  {
    hide Inv, NoFreeBlock, Attached, LowerSize, WriteExisting, Content, ByteAt;
    WriteSucceedsIff(w, data);
    WriteLength(w, data);
    WriteContents(w, data, 4146);
  }

  /** Names after a creation in the root: the new one, and the old ones as before. */
  lemma RootGained(w: World, name: seq<byte>, junk: InodeImage)
    requires w.fs == Volume0() && w.tracked == {ROOT} && |Rows(w.f.path)| > 0
    requires Name(name) && BaseName(w.f.path) == name && name != DOT && Sound(w.fs, w.tracked)
    requires Mounted(w.fs) && ValidIno(w.fs.g, ROOT) && CreateIn(w, ROOT, junk).1 == 0
    ensures NameGained(w.fs, CreateIn(w, ROOT, junk).0.fs, w.tracked, ROOT, CreateIn(w, ROOT, junk).0.f.inodeNum, name)
  {
    hide Root, DotBlock, Sb, Table, Blank, Disk, Sound, Sane, InodeAt, EntryAt, Describes, Accepts, Rows, List, CreateIn, Inv,
      Clean, NameGained, CString;
    Facts0();
    RootAccepts(name);
    DotOnly(name);
    CreatedGained(w, ROOT, junk);
  }

  lemma DotOnly(name: seq<byte>)
    requires Shaped(GEO, Disk()) && ValidIno(GEO, ROOT)
    ensures Lookup(List(GEO, Disk(), ROOT), name) == if name == DOT then ROOT else 0
  {
    hide Root, DotBlock, Sb, Table, Blank, Disk, Sane, InodeAt, EntryAt, Describes, List, Inv, Clean;
    Facts0();
    CStringOf(DOT);
    var l := List(GEO, Disk(), ROOT);
    assert l[1..] == [];
  }

  // Paths.

  /** The absolute path of some components. */
  function PathTo(comps: seq<seq<byte>>): seq<byte> { Join([[]] + comps) }

  predicate Names(comps: seq<seq<byte>>) { forall k :: 0 <= k < |comps| ==> Name(comps[k]) }

  lemma PathFacts(comps: seq<seq<byte>>)
    requires 1 <= |comps| <= 9 && Names(comps)
    ensures var path := PathTo(comps);
      && Split(path) == [[]] + comps && Rows(path) == [[SLASH]] + comps && Components(path) == comps
      && Parsable(path) && |path| <= MAX_PATH_LEN && |Rows(path)| == |comps| + 1 && BaseName(path) == comps[|comps| - 1]
  {
    hide Split, Join, NoNul, NoSlash, EndsInSlash;
    var r: seq<seq<byte>>, path := [[]] + comps, PathTo(comps);
    EmptyName();
    SplitJoin(r);
    NoFinalSlash(r);
    JoinBound(r);
    var e: seq<byte> := [];
    assert e + [SLASH] == [SLASH];
    assert r[0 := e + [SLASH]] == [[SLASH]] + comps;
    assert ([[SLASH]] + comps)[1..] == comps;
  }

  lemma EmptyName()
    ensures NoNul([]) && NoSlash([])
  {
  }

  lemma {:induction false} JoinBound(r: seq<seq<byte>>)
    requires |r| > 0 && forall k :: 0 <= k < |r| ==> |r[k]| <= NAME_LEN && NoNul(r[k])
    ensures |Join(r)| <= 256 * |r| && NoNul(Join(r)) && (|r| > 1 ==> |Join(r)| > 0)
  {
    if |r| > 1 {
      JoinBound(r[..|r| - 1]);
    }
  }

  lemma OneComponentPath(name: seq<byte>)
    ensures PathTo([name]) == Path1(name)
  {
    var e: seq<byte> := [];
    assert [e] + [name] == [e, name];
    assert [e, name][..1] == [e];
    assert Join([e]) == e;
    assert e + [SLASH] == [SLASH];
  }

  /** After creating x in the root, "/./x" resolves to the new inode, but the driver stops at "." and
      gives the root. */
  lemma DotStops(name: seq<byte>, junk: InodeImage)
    requires Name(name) && name != DOT
    ensures Inv(New(name)) && CreateFine(New(name))
    ensures var (w1, err) := Create(New(name), junk);
      && err == 0 && Mounted(w1.fs) && ValidIno(w1.fs.g, ROOT) && w1.f.inodeNum != ROOT
      && Resolve(w1.fs.g, w1.fs.disk, Components(PathTo([DOT, name])), ROOT) == w1.f.inodeNum
      && Find(w1.fs.g, w1.fs.disk, PathTo([DOT, name])) == ROOT
  {
    hide Root, DotBlock, Sb, Table, Blank, Disk, Sound, Sane, InodeAt, EntryAt, Describes, Parsable, IsDir, IsFile,
      Rows, List, CreateIn, NoFreeBlock, Attached, LowerSize, Child, Lookup, Seen, Fresh, PathTo, Roomy, Find, Resolve,
      Components, FileOk, CanCreate, NameGained, ParentPath, BaseName;
    NewCreated(name, junk);
    Facts0();
    PathOf(name);
    assert |Path1(name)| <= MAX_PATH_LEN;
    FindRoot(ParentPath(Path1(name)));
    RootGained(New(name), name, junk);
    RootChildren(Create(New(name), junk).0.fs, Create(New(name), junk).0.f.inodeNum, name);
    DotWalk(Create(New(name), junk).0.fs, name);
  }

  /** The root's children after it has gained a name. */
  lemma RootChildren(b: Fs, ino: nat, name: seq<byte>)
    requires NameGained(Volume0(), b, {ROOT}, ROOT, ino, name) && name != DOT
    ensures Mounted(b) && ValidIno(b.g, ROOT)
    ensures Child(b.g, b.disk, ROOT, name) == ino != ROOT && Child(b.g, b.disk, ROOT, DOT) == ROOT
    ensures forall c :: c !in {DOT, name} ==> Child(b.g, b.disk, ROOT, c) == 0
  {
    hide Root, DotBlock, Sb, Table, Blank, Disk, Sane, InodeAt, EntryAt, Describes, List, Child, Inv, Clean;
    Facts0();
    assert GainedAt(Volume0(), b, ROOT, ino, name, ROOT);
    DotOnly(DOT);
    IsChild(DOT);
    forall c | c !in {DOT, name}
      ensures Child(b.g, b.disk, ROOT, c) == 0
    {
      DotOnly(c);
      IsChild(c);
    }
  }

  lemma IsChild(c: seq<byte>)
    requires Shaped(GEO, Disk()) && ValidIno(GEO, ROOT)
    requires Lookup(List(GEO, Disk(), ROOT), c) in {0, ROOT}
    ensures Child(GEO, Disk(), ROOT, c) == Lookup(List(GEO, Disk(), ROOT), c)
  {
    hide Disk, List, Lookup;
  }

  lemma DotWalk(b: Fs, name: seq<byte>)
    requires Mounted(b) && ValidIno(b.g, ROOT) && Child(b.g, b.disk, ROOT, DOT) == ROOT && Name(name)
    ensures Resolve(b.g, b.disk, Components(PathTo([DOT, name])), ROOT) == Child(b.g, b.disk, ROOT, name)
    ensures Find(b.g, b.disk, PathTo([DOT, name])) == ROOT
  {
    hide Sane, Describes, List, Lookup, Seen, Fresh, PathTo, Components;
    PathFacts([DOT, name]);
    var comps := [DOT, name];
    assert comps[1..] == [name] && [name][1..] == [];
    assert Resolve(b.g, b.disk, [name], ROOT) == Child(b.g, b.disk, ROOT, name);
    FreshSees(List(b.g, b.disk, ROOT), DOT);
  }

  /** Opening "/a/b/c" on the formatted volume, which has no directory "a". */
  ghost function NewDeep(a: seq<byte>, b: seq<byte>, c: seq<byte>): World {
    Idle().(f := File(ROOT, MODE_W, true, 0, 0, false, false, PathTo([a, b, c]), ZERO_BLOCK, Root()))
  }

  /** The file can be created, under the name `name` in what is found at `parent`. */
  ghost predicate CreatesIn(w: World, parent: seq<byte>, name: seq<byte>)
    requires Inv(w)
  {
    && |w.f.path| <= MAX_PATH_LEN && CanCreate(w.fs, w.tracked, w.f.path)
    && ParentPath(w.f.path) == parent && BaseName(w.f.path) == name
  }

  lemma DeepFine(a: seq<byte>, b: seq<byte>, c: seq<byte>)
    requires Name(a) && Name(b) && Name(c) && |a| + |b| <= NAME_LEN
    ensures Inv(NewDeep(a, b, c)) && CreatesIn(NewDeep(a, b, c), PathTo([a + b]), c)
  {
    hide Root, DotBlock, Sb, Table, Blank, Disk, Sane, InodeAt, EntryAt, Describes, IsDir, IsFile,
      Rows, List, Attached, PathTo, Roomy, Accepts, Find, ParentPath, Split, Good, Owned;
    Facts0();
    PathFacts([a, b, c]);
    PathFacts([a + b]);
    DeepPath(a, b, c);
    FindRoot(ParentPath(PathTo([a, b, c])));
    RootAccepts(c);
    AcceptsIsRoomy(Disk(), Root(), c);
  }

  /** Its creation succeeds: the parent is looked up as "/ab", the walk ends in the root, and "c" is put
      there. */
  lemma DeepCreate(a: seq<byte>, b: seq<byte>, c: seq<byte>, junk: InodeImage)
    requires Name(a) && Name(b) && Name(c) && |a| + |b| <= NAME_LEN && a !in {DOT, c} && c != DOT
    ensures Inv(NewDeep(a, b, c)) && CreateFine(NewDeep(a, b, c))
    ensures var (w1, err) := Create(NewDeep(a, b, c), junk);
      && err == 0 && Mounted(w1.fs) && ValidIno(w1.fs.g, ROOT)
      && Child(w1.fs.g, w1.fs.disk, ROOT, c) == w1.f.inodeNum
      && Resolve(w1.fs.g, w1.fs.disk, [a, b, c], ROOT) == 0
  {
    hide Root, DotBlock, Sb, Table, Blank, Disk, Sound, Sane, InodeAt, EntryAt, Describes, Parsable, IsDir, IsFile,
      Rows, List, NoFreeBlock, NoFreeInode, Attached, LowerSize, Child, PathTo, Roomy, Accepts, Find, ParentPath,
      CreateIn, BaseName, NameGained, CanCreate;
    Facts0();
    DeepFine(a, b, c);
    PathFacts([a, b, c]);
    var w := NewDeep(a, b, c);
    FindRoot(ParentPath(w.f.path));
    RootAccepts(c);
    AcceptsIsRoomy(Disk(), Root(), c);
    FreeLeft();
    CreateSucceedsIff(w, junk);
    RootGained(w, c, junk);
    RootChildren(Create(w, junk).0.fs, Create(w, junk).0.f.inodeNum, c);
  }

  lemma DeepPath(a: seq<byte>, b: seq<byte>, c: seq<byte>)
    requires NoSlash(a) && NoSlash(b) && NoSlash(c) && c != []
    ensures |Rows(PathTo([a, b, c]))| == 4 && ParentPath(PathTo([a, b, c])) == PathTo([a + b])
  {
    DeepParentExample(a, b, c);
    var e: seq<byte> := [];
    assert [e] + [a, b, c] == [e, a, b, c];
    OneComponentPath(a + b);
    assert [SLASH] + (a + b) == [SLASH] + a + b;
  }

  // Insertion.

  /** A tiled block whose only record has a name of more than four bytes is damaged by the name "a": the
      record's new length of 12 no longer covers it. */
  lemma LongNameDamaged(long: seq<byte>, n: nat, ino: nat)
    requires 4 < |long| <= NAME_LEN && 0 < n < 0x1_0000_0000 && 0 < ino < 0x1_0000_0000
    ensures var b := PutRecord(ZERO_BLOCK, 0, n, 4096, long);
      Tiled(b, 0) && Fits(0, [97]) && !Tiled(Insert(b, 0, ino, [97]), 0)
  {
    PutRecordFields(ZERO_BLOCK, 0, n, 4096, long);
    var b := PutRecord(ZERO_BLOCK, 0, n, 4096, long);
    hide U32, U16, PutRecord, Insert;
    assert Tiled(b, BLOCK_SIZE);
    assert LastOffset(b, 0) == 0;
    InsertTiled(b, ino, [97]);
  }

  // The buffer after opening.

  /** Writing one byte at the start of a file of one block. */
  lemma WriteOne(w: World, b: byte)
    requires Usable(w) && Clean(w) && w.f.pos == 0 && Attached(w.f.inode) == 1
    ensures var (w2, err) := WriteExisting(w, [b]);
      && err == 0 && Usable(w2) && Clean(w2) && Attached(w2.f.inode) == 1 && w2.f.inodeNum == w.f.inodeNum
      && Content(w2)[..1] == [b]
  {
    hide Sane, Describes, Marked, CountsMatch, Mul, InodeAt, Ptr, Inv, Attached, Held, WriteExisting, SectorsToBlocks,
      Sectors, ByteAt, Content, Coherent, LowerSize;
    WriteTouches(w, [b]);
    WriteInv(w, [b]);
    WriteLength(w, [b]);
    WriteCoherent(w, [b]);
    WrittenContent(w, [b], WriteExisting(w, [b]).0);
  }

  /** A new file with the byte written at its start. */
  lemma Written(name: seq<byte>, b: byte, junk: InodeImage) returns (w: World)
    requires Name(name) && name != DOT
    ensures Inv(New(name)) && WriteFine(New(name), [b]) && Write(New(name), [b], junk) == (w, 0)
    ensures Usable(w) && Clean(w) && Attached(w.f.inode) == 1 && Content(w)[..1] == [b]
    ensures Mounted(w.fs) && ValidIno(w.fs.g, ROOT) && Find(w.fs.g, w.fs.disk, Path1(name)) == w.f.inodeNum
  {
    hide Root, DotBlock, Sb, Table, Blank, Disk, Sound, Sane, InodeAt, EntryAt, Describes, Parsable, IsDir,
      Rows, List, NoFreeBlock, Attached, LowerSize, Child, Roomy, Find, CanCreate, Create, FileOk,
      WriteExisting, SectorsToBlocks, Sectors, ByteAt, Ptr, IsFile, Content;
    NewCreated(name, junk);
    var w1 := Create(New(name), junk).0;
    w := WriteExisting(w1, [b]).0;
    WriteOne(w1, b);
    FindsNew(name, junk);
    NewNotZero(w1);
    WriteKeepsList(w1, [b], ROOT);
    SameFind(w1.fs, w.fs, name);
  }

  lemma NewNotZero(w: World)
    requires Usable(w)
    ensures w.f.inodeNum != 0
  {
    hide Sane, Describes, Marked, CountsMatch, Owned, DirOk, Good;
  }

  /** Closing the file and opening its path again. */
  ghost predicate Reopened(w1: World, w2: World, w3: World, path: seq<byte>, junk: InodeImage) {
    && Inv(w1) && w1.f.open && w1.f.exist && Close(w1, junk) == (w2, 0)
    && Inv(w2) && CanOpen(w2, path) && Open(w2, path, MODE_W) == w3
  }

  /** After writing a byte other than 0 to a new file, closing it and opening it again, a read of one byte
      delivers 0. */
  lemma ReadsZero(name: seq<byte>, b: byte, junk: InodeImage) returns (w1: World, w2: World, w3: World)
    requires Name(name) && name != DOT && b != 0
    ensures Inv(New(name)) && WriteFine(New(name), [b]) && Write(New(name), [b], junk) == (w1, 0)
    ensures Reopened(w1, w2, w3, Path1(name), junk)
    ensures w3.f.open && w3.f.exist && w3.f.inodeNum == w1.f.inodeNum && w3.f.pos == 0
    ensures ReadInFile(w3, 1) && ReadBytes(w3, 1) == [0]
    ensures |Content(w3)| >= 1 && Content(w3)[0] == b
  {
    hide Root, DotBlock, Sb, Table, Blank, Disk, Sound, Sane, InodeAt, EntryAt, Describes, Parsable, IsDir,
      Rows, List, Attached, LowerSize, Child, Find, Create, Write, WriteFine, SectorsToBlocks, Sectors, ByteAt, Ptr,
      Content, ReadBytes, StartsZero;
    var path := Path1(name);
    w1 := Written(name, b, junk);
    CloseInv(w1, junk);
    w2 := Close(w1, junk).0;
    OneComponentPath(name);
    PathFacts([name]);
    w3 := Open(w2, path, MODE_W);
    OpenedReads(w2, path, MODE_W, 1);
    SameContent(w1, w3);
    assert Zeros(1) == [0] by { OneZero(); }
  }

  lemma OneZero()
    ensures Zeros(1) == [0]
  {
  }

  /** The new file is found. */
  lemma FindsNew(name: seq<byte>, junk: InodeImage)
    requires Name(name) && name != DOT
    ensures Inv(New(name)) && CreateFine(New(name))
    ensures var (w1, err) := Create(New(name), junk);
      && err == 0 && ROOT in w1.tracked && w1.f.inodeNum != ROOT && Mounted(w1.fs) && ValidIno(w1.fs.g, ROOT)
      && ValidIno(w1.fs.g, w1.f.inodeNum)
      && Child(w1.fs.g, w1.fs.disk, ROOT, name) == w1.f.inodeNum
  {
    hide Root, DotBlock, Sb, Table, Blank, Disk, Sane, InodeAt, EntryAt, Describes, Parsable, IsDir,
      Rows, List, NoFreeBlock, Attached, LowerSize, Child, Roomy, Find, CanCreate, CreateIn, FileOk, DirOk, Owned,
      NameGained, ParentPath, BaseName, SectorsToBlocks, Sectors, Ptr, IsFile, Good;
    NewCreated(name, junk);
    Facts0();
    PathOf(name);
    assert |Path1(name)| <= MAX_PATH_LEN by { OneComponentPath(name); PathFacts([name]); }
    FindRoot(ParentPath(Path1(name)));
    RootGained(New(name), name, junk);
    RootChildren(Create(New(name), junk).0.fs, Create(New(name), junk).0.f.inodeNum, name);
  }

  /** A volume whose root lists the same finds the same child. */
  lemma SameFind(a: Fs, b: Fs, name: seq<byte>)
    requires Mounted(a) && Mounted(b) && a.g == b.g && ValidIno(b.g, ROOT) && Name(name)
    requires List(b.g, b.disk, ROOT) == List(a.g, a.disk, ROOT) && Child(a.g, a.disk, ROOT, name) !in {0, ROOT}
    ensures Find(b.g, b.disk, Path1(name)) == Child(a.g, a.disk, ROOT, name)
  {
    hide Sane, Describes, List, Lookup, Seen, Fresh, Components, PathTo;
    PathFacts([name]);
    OneComponentPath(name);
    FreshSees(List(b.g, b.disk, ROOT), name);
    assert [name][1..] == [];
    assert Walk(b.g, b.disk, [name], ROOT, Fresh()) == Child(a.g, a.disk, ROOT, name);
  }

  // Opening and closing.

  /** The calls succeed: closing the missing file, and opening a path for writing. */
  ghost predicate ClosesTo(w: World, junk: InodeImage, w2: World) {
    Inv(w) && w.f.open && !w.f.exist && CreateFine(w) && Close(w, junk) == (w2, 0)
  }

  ghost predicate OpensTo(w: World, path: seq<byte>, mode: byte, w2: World) {
    Inv(w) && CanOpen(w, path) && Open(w, path, mode) == w2
  }

  /** On the formatted volume, opening a new name for writing and closing it creates the file: the driver then
      finds it. */
  lemma CloseCreates(name: seq<byte>, junk: InodeImage) returns (w1: World, w2: World, ino: nat)
    requires Name(name) && name != DOT
    ensures OpensTo(Idle(), Path1(name), 119, w1) && ClosesTo(w1, junk, w2) && Blanked(w2.f)
    ensures Mounted(w2.fs) && ValidIno(w2.fs.g, ROOT) && ValidIno(w2.fs.g, ino) && ino != ROOT
    ensures Find(w2.fs.g, w2.fs.disk, Path1(name)) == ino && NewFile(Image(w2.fs, ino))
    ensures Entry(ino, 0, name) in List(w2.fs.g, w2.fs.disk, ROOT)
  {
    hide Root, DotBlock, Sb, Table, Blank, Disk, Sound, Sane, InodeAt, EntryAt, Describes, Parsable, IsDir, IsFile, Rows, List,
      Create, NoFreeBlock, NoFreeInode, Attached, LowerSize, Child, Roomy, Find, CanCreate, FileOk, ParentPath, BaseName, NewFile,
      RecordAdded, Untouched, SameList, Accepts, Lookup, Close, Tiled, Count, Ptr;
    NewCreated(name, junk);
    NewIsOpened(name);
    w1 := New(name);
    CreateCall(w1, junk);
    CloseMissing(w1, junk);
    w2 := Close(w1, junk).0;
    PathOf(name);
    PlaceShort(w1);
    ino :| AddedBy(w1, w2, ino);
    Facts0();
    FindRoot(ParentPath(Path1(name)));
    RootAccepts(name);
    DotOnly(name);
    RootTakes();
    NotZero(w2.fs.g, ino);
    SameFind(w2.fs, w2.fs, name);
  }

  lemma RootTakes()
    ensures Mounted(Volume0()) && ValidIno(GEO, ROOT) && TakesListed(Volume0(), ROOT)
  {
    hide DirImage, Sb, Table, Blank, Disk, Sane, InodeAt, EntryAt, Describes, DotBlock, Ptr, Parse, Tiled, Count, LastOffset,
      Inv, Clean, IsDir, IsFile;
    Facts0();
    RootFields();
    DiskBlocks();
    DotRecord(ROOT);
  }

  /** Opening a new name for reading is refused, so there is nothing to close. */
  lemma ReadRefused(name: seq<byte>, junk: InodeImage)
    requires Name(name)
    ensures OpensTo(Idle(), Path1(name), 114, Idle()) && Close(Idle(), junk) == (Idle(), 1)
  {
    hide Root, DotBlock, Sb, Table, Blank, Disk, Sound, Sane, InodeAt, EntryAt, Describes, Parsable, Find, IsDir,
      Rows, List, Close, FileOk;
    Facts0();
    NewIsOpened(name);
    PathOf(name);
    FindRoot(Path1(name));
    OpenCall(Idle(), Path1(name), 114);
    InodeKind(Root());
    CloseExists(Idle(), junk);
  }
}
