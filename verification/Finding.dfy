/** What the driver finds after a file was created: under the new path, and under the old ones. */
module Finding {
  import opened Bytes
  import opened Arith
  import opened Volume
  import opened Alloc
  import opened Paths
  import opened Records
  import opened Slots
  import opened Namespace
  import opened Ownership
  import opened Files
  import opened Creation

  /** What the array holds after a walk along components that all resolve. */
  function Pass(g: Geometry, disk: seq<Block>, comps: seq<seq<byte>>, n: nat, slots: seq<Entry>): (r: seq<Entry>)
    requires Shaped(g, disk) && ValidIno(g, n) && Slotted(slots)
    ensures Slotted(r)
    decreases |comps|
  {
    if comps == [] then slots
    else
      var m := Child(g, disk, n, comps[0]);
      if m == 0 then slots else Pass(g, disk, comps[1..], m, Overlay(slots, List(g, disk, n)))
  }

  /** Walking components that all resolve and are followed, and then the rest. */
  lemma {:induction false} WalkThrough(g: Geometry, disk: seq<Block>, comps: seq<seq<byte>>, rest: seq<seq<byte>>,
                                       n: nat, slots: seq<Entry>)
    requires Shaped(g, disk) && ValidIno(g, n) && Slotted(slots)
    requires Resolve(g, disk, comps, n) != 0 && Follows(g, disk, comps, n, slots)
    ensures Walk(g, disk, comps + rest, n, slots)
         == Walk(g, disk, rest, Resolve(g, disk, comps, n), Pass(g, disk, comps, n, slots))
    decreases |comps|
  {
    hide Sane, Child, SeenChild, List, Overlay, Slotted, ValidIno;
    if comps == [] {
      assert comps + rest == rest;
    } else {
      assert (comps + rest)[1..] == comps[1..] + rest;
      WalkThrough(g, disk, comps[1..], rest, Child(g, disk, n, comps[0]), Overlay(slots, List(g, disk, n)));
    }
  }

  // The last step.

  /** Nothing left in the array keeps the name from being seen behind the entries `front`: none of them
      reads as the name, and its own slot holds no byte behind it. */
  predicate Clear(slots: seq<Entry>, front: seq<Entry>, name: seq<byte>)
    requires Slotted(slots) && Short(front) && |front| < MAX_SUBDIRS && |name| <= NAME_LEN
  {
    && slots[|front|].name[|name|] == 0
    && forall j :: 0 <= j < |front| ==> CString(Copied(slots[j], front[j]).name) != name
  }

  /** A new entry is seen under its name exactly when the array is clear for it. */
  lemma SeenIff(slots: seq<Entry>, front: seq<Entry>, ino: nat, name: seq<byte>, back: seq<Entry>)
    requires var es := front + [Entry(ino, 0, name)] + back; Slotted(slots) && Short(front) && Short(es)
    requires |front| < MAX_SUBDIRS && |name| <= NAME_LEN && NoNul(name) && ino != 0
    requires forall e :: e in front || e in back ==> e.ino != ino
    ensures Seen(slots, front + [Entry(ino, 0, name)] + back, name) == ino <==> Clear(slots, front, name)
  {
    hide CString, Lookup, NoNul, Overlay, Splice;
    var es, p := front + [Entry(ino, 0, name)] + back, |front|;
    var seen := Overlay(slots, es)[..|es|];
    assert es[p] == Entry(ino, 0, name);
    SlotReadsIff(slots[p].name, name);
    CStringOf(name);
    NulFree(name);
    assert forall j :: 0 <= j < |es| && j != p ==> es[j] in front || es[j] in back;
    FirstHitIff(seen, name, p);
  }

  lemma NulFree(s: seq<byte>)
    requires NoNul(s)
    ensures 0 !in s
  {
  }

  /** An inode number that one entry alone has is found exactly when that entry is the first with the name. */
  lemma FirstHitIff(es: seq<Entry>, name: seq<byte>, p: nat)
    requires p < |es| && es[p].ino != 0
    requires forall j :: 0 <= j < |es| && j != p ==> es[j].ino != es[p].ino
    ensures Lookup(es, name) == es[p].ino
       <==> (CString(es[p].name) == name && forall j :: 0 <= j < p ==> CString(es[j].name) != name)
  {
    hide CString, Lookup;
    if CString(es[p].name) == name && forall j :: 0 <= j < p ==> CString(es[j].name) != name {
      LookupHit(es, p, name);
    }
    if Lookup(es, name) == es[p].ino {
      FirstHit(es, name, p);
    }
  }

  lemma {:induction false} FirstHit(es: seq<Entry>, name: seq<byte>, p: nat)
    requires p < |es| && Lookup(es, name) == es[p].ino != 0
    requires forall j :: 0 <= j < |es| && j != p ==> es[j].ino != es[p].ino
    ensures CString(es[p].name) == name && forall j :: 0 <= j < p ==> CString(es[j].name) != name
  {
    hide CString;
    if p > 0 {
      FirstHit(es[1..], name, p - 1);
      assert forall j :: 0 < j < p ==> es[j] == es[1..][j - 1];
    } else {
      LookupIn(es[1..], name);
    }
  }

  // The listings after a creation.

  /** The volume with only the name added: what a caller can work out before the call. */
  ghost function Preview(w: World, d: nat, ino: nat): Fs
    requires Sound(w.fs, w.tracked) && ValidIno(w.fs.g, d) && |Rows(w.f.path)| > 0 && d in w.tracked
    requires Accepts(w.fs.disk, Image(w.fs, d), BaseName(w.f.path))
  {
    AcceptsIsRoomy(w.fs.disk, Image(w.fs, d), BaseName(w.f.path));
    AddName(w.fs, w.tracked, d, ino, BaseName(w.f.path))
  }

  lemma OtherList(fs: Fs, T: set<nat>, d: nat, ino: nat, name: seq<byte>, n: nat)
    requires Sound(fs, T) && Takes(fs, T, d, name) && 0 < ino < 0x1_0000_0000 && n in T && n != d
    ensures var b := AddName(fs, T, d, ino, name);
      Mounted(b) && b.g == fs.g && ValidIno(fs.g, n) && List(b.g, b.disk, n) == List(fs.g, fs.disk, n)
  {
    hide Sane, Describes, Marked, CountsMatch, IsData, BlockUsed, InodeUsed, Mul, KindOk, IsDir, Ptr, Attached,
      InodeAt, Roomy, Added, ListFrom, ListReadable, Held, DirOk;
    var b, D := AddName(fs, T, d, ino, name), {Ptr(Image(fs, d), 0)};
    AddTouches(fs, T, d, ino, name);
    FirstBlock(fs, T, d, name);
    assert InodeOwned(fs, n) && InodeOwned(fs, d);
    forall i | 0 <= i < Attach(fs.g, fs.disk, n)
      ensures PtrOf(fs.g, fs.disk, n, i) !in D
    {
      assert Apart(fs, d, 0, n, i);
    }
    DirStays(fs, b, T, T, D, {}, n);
  }

  /** The directory itself lists the same in both volumes to which the name was added. */
  lemma SameAdded(a: Fs, b: Fs, T: set<nat>, U: set<nat>, d: nat, ino: nat, name: seq<byte>)
    requires Sound(a, T) && Sound(b, U) && Takes(a, T, d, name) && Takes(b, U, d, name)
    requires Touches(a, b, {}, {ino}) && d != ino && 0 < ino < 0x1_0000_0000
    requires Image(b, d) == Image(a, d)
    ensures var (e, c) := (AddName(a, T, d, ino, name), AddName(b, U, d, ino, name));
      Mounted(e) && Mounted(c) && e.g == c.g == a.g && ValidIno(a.g, d) && List(c.g, c.disk, d) == List(e.g, e.disk, d)
  {
    hide Sane, Describes, Marked, CountsMatch, BlockUsed, InodeUsed, Mul, KindOk, Attached,
      InodeAt, Roomy, ListFrom, ListReadable, DirOk, Insert, FindLast, Ptr, Owned;
    var e, c := AddName(a, T, d, ino, name), AddName(b, U, d, ino, name);
    AddTouches(a, T, d, ino, name);
    AddTouches(b, U, d, ino, name);
    FirstBlock(a, T, d, name);
    SameInode(a, e, {Ptr(Image(a, d), 0)}, d);
    SameInode(b, c, {Ptr(Image(b, d), 0)}, d);
    var x := Image(a, d);
    forall j | 0 <= j < NDIR_BLOCKS && Ptr(x, j) != 0 && Ptr(x, j) < |e.disk|
      ensures c.disk[Ptr(x, j)] == e.disk[Ptr(x, j)]
    {
      HeldPtr(a, T, d, j);
    }
    ListFrame(e.disk, c.disk, x, 0, MAX_SUBDIRS);
  }

  /** A directory's pointers are to data blocks in use. */
  lemma HeldPtr(fs: Fs, T: set<nat>, d: nat, j: nat)
    requires Sound(fs, T) && d in T && ValidIno(fs.g, d) && IsDir(Image(fs, d))
    requires j < NDIR_BLOCKS && Ptr(Image(fs, d), j) != 0
    ensures Held(fs.g, fs.disk, Ptr(Image(fs, d), j))
  {
    hide Sane, Describes, Marked, CountsMatch, BlockUsed, InodeUsed, Mul, InodeAt, Ptr, IsDir, Attached, DirOk, IsData;
    assert InodeOwned(fs, d);
    assert Held(fs.g, fs.disk, PtrOf(fs.g, fs.disk, d, j));
  }

  /** All tracked directories list the same after a creation as in the preview. */
  lemma PreviewLists(w: World, d: nat, junk: InodeImage, n: nat)
    requires Sound(w.fs, w.tracked) && ValidIno(w.fs.g, d) && |Rows(w.f.path)| > 0 && d in w.tracked
    requires Accepts(w.fs.disk, Image(w.fs, d), BaseName(w.f.path)) && CreateIn(w, d, junk).1 == 0
    requires n in w.tracked
    ensures var (w2, e) := (CreateIn(w, d, junk).0, Preview(w, d, CreateIn(w, d, junk).0.f.inodeNum));
      && Mounted(w2.fs) && Mounted(e) && w2.fs.g == e.g == w.fs.g && ValidIno(w.fs.g, n)
      && List(w2.fs.g, w2.fs.disk, n) == List(e.g, e.disk, n)
      && (n != d ==> List(e.g, e.disk, n) == List(w.fs.g, w.fs.disk, n))
  {
    hide Sane, Describes, Marked, CountsMatch, BlockUsed, InodeUsed, Mul, InodeAt, IsDir, Attached, Ptr, DirOk, Owned,
      Reserve, NewInode, Roomy, DirFull, AddEntry, Rows, Added, PutInode, CreateIn, Staged, ListFrom, BaseName, AddName, Accepts;
    var w2, name := CreateIn(w, d, junk).0, BaseName(w.f.path);
    AcceptsIsRoomy(w.fs.disk, Image(w.fs, d), name);
    CreateInSound(w, d, junk);
    var (fs3, ino) := Staged(w, d, junk);
    StagedKeeps(w, d, junk);
    StagedDir(w, d, junk, n);
    StagedFirst(w, d, junk, name);
    if n != d {
      OtherList(w.fs, w.tracked, d, ino, name, n);
      OtherList(fs3, w.tracked + {ino}, d, ino, name, n);
    } else {
      SameAdded(w.fs, fs3, w.tracked, w.tracked + {ino}, d, ino, name);
    }
  }

  /** The entries of a directory's first block. */
  function Front(fs: Fs, d: nat): (r: seq<Entry>)
    requires Mounted(fs) && ValidIno(fs.g, d) && Ptr(Image(fs, d), 0) < |fs.disk|
    ensures Short(r)
  {
    Parse(fs.disk[Ptr(Image(fs, d), 0)], 0, MAX_SUBDIRS)
  }

  /** After a creation the parent lists the entries of its first block, the new one, and the others. */
  lemma CreatedListing(w: World, d: nat, junk: InodeImage) returns (back: seq<Entry>)
    requires Sound(w.fs, w.tracked) && ValidIno(w.fs.g, d) && |Rows(w.f.path)| > 0 && d in w.tracked
    requires Accepts(w.fs.disk, Image(w.fs, d), BaseName(w.f.path)) && CreateIn(w, d, junk).1 == 0
    ensures var w2 := CreateIn(w, d, junk).0;
      && Mounted(w2.fs) && w2.fs.g == w.fs.g
      && Ptr(Image(w.fs, d), 0) < |w.fs.disk| && |Front(w.fs, d)| < MAX_SUBDIRS
      && List(w2.fs.g, w2.fs.disk, d) == Front(w.fs, d) + [Entry(w2.f.inodeNum, 0, BaseName(w.f.path))] + back
      && (forall e :: e in Front(w.fs, d) || e in back ==> e.ino != w2.f.inodeNum)
      && Front(w.fs, d) + back <= List(w.fs.g, w.fs.disk, d)
  {
    hide Sane, Describes, Marked, CountsMatch, BlockUsed, InodeUsed, Mul, InodeAt, IsDir, Attached, Ptr, DirOk, Owned,
      Reserve, NewInode, Roomy, Accepts, DirFull, AddEntry, Rows, PutInode, CreateIn, Staged, ListFrom, BaseName, Insert,
      Parse, FindLast, Added;
    var w2, name := CreateIn(w, d, junk).0, BaseName(w.f.path);
    AcceptsIsRoomy(w.fs.disk, Image(w.fs, d), name);
    AcceptsBlock(w.fs.disk, Image(w.fs, d), name);
    CreateInSound(w, d, junk);
    var (fs3, ino) := Staged(w, d, junk);
    StagedKeeps(w, d, junk);
    StagedFirst(w, d, junk, name);
    StagedDir(w, d, junk, d);
    var U, x := w.tracked + {ino}, Image(fs3, d);
    AddTouches(fs3, U, d, ino, name);
    SameInode(fs3, w2.fs, {Ptr(x, 0)}, d);
    AddListed(fs3.disk, x, ino, name);
    var front, others := Front(w.fs, d), Others(fs3.disk, x);
    back := Take(others, MAX_SUBDIRS - |front| - 1);
    ListsTracked(w.fs, w.tracked, d);
    assert List(w.fs.g, w.fs.disk, d) == front + others;
    forall e | e in front || e in back
      ensures e.ino != ino
    {
      assert e in front + others;
    }
  }

  lemma ListsTracked(fs: Fs, T: set<nat>, n: nat)
    requires Sound(fs, T) && n in T
    ensures ValidIno(fs.g, n) && forall e :: e in List(fs.g, fs.disk, n) ==> e.ino in T
  {
    hide Sane, Describes, Marked, CountsMatch, Mul, InodeAt, IsDir, ListFrom, ListReadable, KindOk, InodeUsed, Held;
    assert InodeOwned(fs, n) && DirOk(fs, T, n);
  }

  // Old paths.

  ghost predicate SameList(e: Fs, b: Fs, n: nat) {
    && Mounted(e) && Mounted(b) && e.g == b.g
    && ValidIno(b.g, n) && List(e.g, e.disk, n) == List(b.g, b.disk, n)
  }

  ghost predicate SameLists(e: Fs, b: Fs, T: set<nat>) {
    && Mounted(e) && Mounted(b) && e.g == b.g
    && forall n :: n in T ==> SameList(e, b, n)
  }

  /** Components that resolved before lead through the same directories after, and the walk sees on the way
      what the preview shows. */
  lemma {:induction false} SameWay(a: Fs, e: Fs, b: Fs, T: set<nat>, d: nat, ino: nat, name: seq<byte>,
                                   comps: seq<seq<byte>>, n: nat, slots: seq<Entry>)
    requires NameGained(a, b, T, d, ino, name) && SameLists(e, b, T) && n in T && ValidIno(a.g, n) && Slotted(slots)
    requires Resolve(a.g, a.disk, comps, n) != 0
    ensures Follows(e.g, e.disk, comps, n, slots) <==> Follows(b.g, b.disk, comps, n, slots)
    ensures Pass(e.g, e.disk, comps, n, slots) == Pass(b.g, b.disk, comps, n, slots)
    ensures Route(b.g, b.disk, comps, n) == Route(a.g, a.disk, comps, n)
    decreases |comps|
  {
    hide Sane, Describes, Mul, List, Overlay, Slotted, Lookup, Seen;
    assert SameList(e, b, n);
    if comps != [] {
      assert GainedAt(a, b, d, ino, name, n) && ChildTracked(a, T, n, comps[0]);
      var m := Child(a.g, a.disk, n, comps[0]);
      assert Child(b.g, b.disk, n, comps[0]) == m == Child(e.g, e.disk, n, comps[0]);
      assert SeenChild(e.g, e.disk, n, slots, comps[0]) == SeenChild(b.g, b.disk, n, slots, comps[0]);
      hide Child, SeenChild, GainedAt, ChildTracked;
      SameWay(a, e, b, T, d, ino, name, comps[1..], m, Overlay(slots, List(b.g, b.disk, n)));
    }
  }

  // Create then find.

  /** The directory components of the path: all but the last. */
  function Dirs(path: seq<byte>): seq<seq<byte>>
    requires |Components(path)| > 0
  {
    Components(path)[..|Components(path)| - 1]
  }

  /** Directory `d` has no entry of this name and its listing has room for one more. */
  predicate NewIn(fs: Fs, d: nat, name: seq<byte>)
    requires Mounted(fs) && ValidIno(fs.g, d)
  {
    |List(fs.g, fs.disk, d)| < MAX_SUBDIRS && Lookup(List(fs.g, fs.disk, d), name) == 0
  }

  /** The parent that the driver looks up is the directory that the path's own components resolve to; it
      takes the name without damage, and the name is new there. */
  ghost predicate Creatable(w: World, d: nat)
    requires Inv(w) && CanCreate(w.fs, w.tracked, w.f.path)
  {
    && |w.f.path| <= MAX_PATH_LEN && d == Find(w.fs.g, w.fs.disk, ParentPath(w.f.path)) != 0
    && Resolve(w.fs.g, w.fs.disk, Dirs(w.f.path), ROOT) == d
    && Accepts(w.fs.disk, Image(w.fs, d), BaseName(w.f.path)) && NewIn(w.fs, d, BaseName(w.f.path))
  }

  /** `n` is what the driver finds under the path. */
  ghost predicate FoundAs(fs: Fs, path: seq<byte>, n: nat) {
    Mounted(fs) && ValidIno(fs.g, ROOT) && Find(fs.g, fs.disk, path) == n
  }

  /** Every path that resolves in `a` resolves to the same inode in `b`. */
  ghost predicate PathsKept(a: Fs, b: Fs) {
    && Mounted(a) && Mounted(b) && ValidIno(a.g, ROOT) && ValidIno(b.g, ROOT)
    && forall comps: seq<seq<byte>> :: Resolve(a.g, a.disk, comps, ROOT) != 0
         ==> Resolve(b.g, b.disk, comps, ROOT) == Resolve(a.g, a.disk, comps, ROOT)
  }

  /** What a successful creation gives: the directory gains the name, and lists as in the preview. */
  lemma CreatedFacts(w: World, d: nat, junk: InodeImage)
    requires Inv(w) && CanCreate(w.fs, w.tracked, w.f.path) && Creatable(w, d) && Create(w, junk).1 == 0
    ensures var (w2, ino) := (Create(w, junk).0, Create(w, junk).0.f.inodeNum);
      && d in w.tracked && ROOT in w.tracked && ino != d && Create(w, junk) == CreateIn(w, d, junk)
      && NameGained(w.fs, w2.fs, w.tracked, d, ino, BaseName(w.f.path))
      && SameLists(Preview(w, d, ino), w2.fs, w.tracked)
      && Mounted(Preview(w, d, ino)) && Preview(w, d, ino).g == w.fs.g
      && forall n :: n in w.tracked && n != d ==> SameList(w.fs, Preview(w, d, ino), n)
  {
    hide Sane, Describes, Marked, CountsMatch, Mul, InodeAt, IsDir, DirOk, Owned, Reserve, Accepts, DirFull, Rows,
      CreateIn, Lookup, ListFrom, Parsable, Child, Attached, FileOk, GainedAt, ChildTracked, Preview, Roomy, Find;
    AcceptsDir(w.fs.disk, Image(w.fs, d), BaseName(w.f.path));
    CreatedGained(w, d, junk);
    var ino := CreateIn(w, d, junk).0.f.inodeNum;
    forall n | n in w.tracked
      ensures SameList(Preview(w, d, ino), CreateIn(w, d, junk).0.fs, n)
      ensures n != d ==> SameList(w.fs, Preview(w, d, ino), n)
    {
      PreviewLists(w, d, junk, n);
    }
    PreviewLists(w, d, junk, d);
  }

  /** Create then find: after a successful creation the path resolves to the new inode, every path that
      resolved before resolves to the same inode, and, when the walk follows the directory components,
      the driver finds the new inode under the path exactly when nothing left in the array of entries
      keeps the name from being seen. */
  lemma CreateThenFind(w: World, d: nat, junk: InodeImage)
    requires Inv(w) && CanCreate(w.fs, w.tracked, w.f.path) && Creatable(w, d) && Create(w, junk).1 == 0
    ensures var (w2, ino) := (Create(w, junk).0, Create(w, junk).0.f.inodeNum);
      && ino !in w.tracked && PathsKept(w.fs, w2.fs)
      && Resolve(w2.fs.g, w2.fs.disk, Components(w.f.path), ROOT) == ino
    ensures var (w2, ino) := (Create(w, junk).0, Create(w, junk).0.f.inodeNum);
      var e := Preview(w, d, ino);
      && Mounted(e) && ValidIno(e.g, ROOT) && Ptr(Image(w.fs, d), 0) < |w.fs.disk| && |Front(w.fs, d)| < MAX_SUBDIRS
      && (Follows(e.g, e.disk, Dirs(w.f.path), ROOT, Fresh()) ==>
            (FoundAs(w2.fs, w.f.path, ino)
             <==> Clear(Pass(e.g, e.disk, Dirs(w.f.path), ROOT, Fresh()), Front(w.fs, d), BaseName(w.f.path))))
  {
    hide Sane, Describes, Marked, CountsMatch, Mul, InodeAt, IsDir, DirOk, Owned, Accepts, DirFull, Rows,
      CreateIn, Create, Lookup, ListFrom, Parsable, Child, SeenChild, Attached, FileOk, GainedAt, ChildTracked, Preview,
      Roomy, Follows, Pass, Clear, Fresh, Front;
    var w2, path, name := Create(w, junk).0, w.f.path, BaseName(w.f.path);
    AcceptsDir(w.fs.disk, Image(w.fs, d), name);
    CreatedFacts(w, d, junk);
    var ino, e, dirs := w2.f.inodeNum, Preview(w, d, w2.f.inodeNum), Dirs(w.f.path);
    assert Components(path) == dirs + [name];
    var back := CreatedListing(w, d, junk);
    forall q: seq<seq<byte>> | Resolve(w.fs.g, w.fs.disk, q, ROOT) != 0
      ensures Resolve(w2.fs.g, w2.fs.disk, q, ROOT) == Resolve(w.fs.g, w.fs.disk, q, ROOT)
    {
      OldPathsResolve(w.fs, w2.fs, w.tracked, d, ino, name, q, ROOT);
    }
    ResolveThrough(w2.fs.g, w2.fs.disk, dirs, [name], ROOT);
    assert GainedAt(w.fs, w2.fs, d, ino, name, d);
    NewChild(w.fs, w2.fs, d, ino, name);
    SameWay(w.fs, e, w2.fs, w.tracked, d, ino, name, dirs, ROOT, Fresh());
    if Follows(e.g, e.disk, dirs, ROOT, Fresh()) {
      WalkThrough(w2.fs.g, w2.fs.disk, dirs, [name], ROOT, Fresh());
      var slots := Pass(w2.fs.g, w2.fs.disk, dirs, ROOT, Fresh());
      LastStep(w2.fs, d, slots, name, ino);
      SeenIff(slots, Front(w.fs, d), ino, name, back);
    }
  }

  lemma NewChild(a: Fs, b: Fs, d: nat, ino: nat, name: seq<byte>)
    requires Mounted(a) && Mounted(b) && a.g == b.g && ValidIno(a.g, d) && GainedAt(a, b, d, ino, name, d)
    ensures Resolve(b.g, b.disk, [name], d) == ino
  {
    hide Sane, Describes, Child, Mul;
    assert [name][1..] == [];
  }

  lemma {:induction false} ResolveThrough(g: Geometry, disk: seq<Block>, comps: seq<seq<byte>>, rest: seq<seq<byte>>, n: nat)
    requires Shaped(g, disk) && ValidIno(g, n) && Resolve(g, disk, comps, n) != 0
    ensures Resolve(g, disk, comps + rest, n) == Resolve(g, disk, rest, Resolve(g, disk, comps, n))
    decreases |comps|
  {
    hide Sane, Child, ValidIno;
    if comps == [] {
      assert comps + rest == rest;
    } else {
      assert (comps + rest)[1..] == comps[1..] + rest;
      ResolveThrough(g, disk, comps[1..], rest, Child(g, disk, n, comps[0]));
    }
  }

  lemma LastStep(fs: Fs, d: nat, slots: seq<Entry>, name: seq<byte>, ino: nat)
    requires Mounted(fs) && ValidIno(fs.g, d) && Slotted(slots) && ValidIno(fs.g, ino) && ino != d
    ensures Walk(fs.g, fs.disk, [name], d, slots) == ino <==> Seen(slots, List(fs.g, fs.disk, d), name) == ino
  {
    hide Sane, Describes, Mul, List, Seen;
    assert [name][1..] == [];
  }

  /** The old paths, as the driver walks them: a path that resolved before is walked after a creation
      through the same directories to the same inode exactly when the preview is followed. One component
      always is. */
  lemma FindKept(w: World, d: nat, junk: InodeImage, q: seq<seq<byte>>)
    requires Inv(w) && CanCreate(w.fs, w.tracked, w.f.path) && Creatable(w, d) && Create(w, junk).1 == 0
    requires Resolve(w.fs.g, w.fs.disk, q, ROOT) != 0
    ensures var (b, e) := (Create(w, junk).0.fs, Preview(w, d, Create(w, junk).0.f.inodeNum));
      && Mounted(b) && Mounted(e) && b.g == e.g == w.fs.g
      && (Trace(b.g, b.disk, q, ROOT, Fresh()) == Route(w.fs.g, w.fs.disk, q, ROOT)
          <==> Follows(e.g, e.disk, q, ROOT, Fresh()))
      && (Follows(e.g, e.disk, q, ROOT, Fresh()) || (|q| == 1 && SelfFree(w.fs.g, w.fs.disk, q, ROOT)) ==>
            Walk(b.g, b.disk, q, ROOT, Fresh()) == Resolve(w.fs.g, w.fs.disk, q, ROOT))
  {
    hide Sane, Describes, Marked, CountsMatch, Mul, InodeAt, IsDir, DirOk, Owned, Accepts, DirFull, Rows,
      CreateIn, Create, Lookup, ListFrom, Parsable, Child, SeenChild, Attached, FileOk, GainedAt, ChildTracked, Preview,
      Roomy, Follows, Fresh, Trace, Route, Walk;
    CreatedFacts(w, d, junk);
    var b := Create(w, junk).0.fs;
    var ino, name := Create(w, junk).0.f.inodeNum, BaseName(w.f.path);
    var e := Preview(w, d, ino);
    SameWay(w.fs, e, b, w.tracked, d, ino, name, q, ROOT, Fresh());
    OldPathsResolve(w.fs, b, w.tracked, d, ino, name, q, ROOT);
    FollowsIff(b.g, b.disk, q, ROOT, Fresh());
    if |q| == 1 && SelfFree(w.fs.g, w.fs.disk, q, ROOT) {
      assert q == [q[0]];
      OneFollows(b.g, b.disk, q[0], ROOT);
    }
    if Follows(b.g, b.disk, q, ROOT, Fresh()) {
      WalkResolves(b.g, b.disk, q, ROOT, Fresh());
    }
  }

  /** Create then find for paths of depth 2 and 3. In the root the driver always finds the new file. In a
      directory of the root it does exactly when the root's entries, which its walk has put into the array
      before, leave nothing that keeps the name from being seen. */
  lemma CreateThenFindShallow(w: World, d: nat, junk: InodeImage)
    requires Inv(w) && CanCreate(w.fs, w.tracked, w.f.path) && |w.f.path| <= MAX_PATH_LEN && Create(w, junk).1 == 0
    requires |Rows(w.f.path)| == 2 || (|Rows(w.f.path)| == 3 && Rows(w.f.path)[1] != [])
    requires d != 0 && Resolve(w.fs.g, w.fs.disk, Dirs(w.f.path), ROOT) == d
    requires SelfFree(w.fs.g, w.fs.disk, Dirs(w.f.path), ROOT)
    requires Accepts(w.fs.disk, Image(w.fs, d), BaseName(w.f.path)) && NewIn(w.fs, d, BaseName(w.f.path))
    ensures var (w2, ino) := (Create(w, junk).0, Create(w, junk).0.f.inodeNum);
      && ino !in w.tracked && PathsKept(w.fs, w2.fs)
      && Resolve(w2.fs.g, w2.fs.disk, Components(w.f.path), ROOT) == ino
      && Ptr(Image(w.fs, d), 0) < |w.fs.disk| && |Front(w.fs, d)| < MAX_SUBDIRS
      && (|Rows(w.f.path)| == 2 ==> FoundAs(w2.fs, w.f.path, ino))
      && (|Rows(w.f.path)| == 3 ==>
            (FoundAs(w2.fs, w.f.path, ino)
             <==> Clear(Overlay(Fresh(), List(w.fs.g, w.fs.disk, ROOT)), Front(w.fs, d), BaseName(w.f.path))))
  {
    hide Sane, Describes, Marked, CountsMatch, Mul, InodeAt, IsDir, DirOk, Owned, Accepts, DirFull, Rows,
      CreateIn, Create, Lookup, ListFrom, Parsable, Child, SeenChild, Attached, FileOk, GainedAt, ChildTracked, Preview,
      Roomy, Follows, Fresh, Front, Clear, NewIn, ParentPath, Find, SelfFree, Pass, FoundAs, PathsKept;
    var dirs := Dirs(w.f.path);
    ShallowFinds(w, d);
    CreateThenFind(w, d, junk);
    CreatedFacts(w, d, junk);
    var e := Preview(w, d, Create(w, junk).0.f.inodeNum);
    ShallowPass(w, d, e, dirs);
    if |Rows(w.f.path)| == 2 {
      AcceptsDir(w.fs.disk, Image(w.fs, d), BaseName(w.f.path));
      FreshClear(w.fs, d, BaseName(w.f.path));
    }
  }

  /** The parent that the driver looks up, at depth 2 and 3. */
  lemma ShallowFinds(w: World, d: nat)
    requires Inv(w) && CanCreate(w.fs, w.tracked, w.f.path)
    requires |Rows(w.f.path)| == 2 || (|Rows(w.f.path)| == 3 && Rows(w.f.path)[1] != [])
    requires d != 0 && Resolve(w.fs.g, w.fs.disk, Dirs(w.f.path), ROOT) == d
    requires SelfFree(w.fs.g, w.fs.disk, Dirs(w.f.path), ROOT)
    ensures Find(w.fs.g, w.fs.disk, ParentPath(w.f.path)) == d
  {
    hide Sane, Describes, Marked, CountsMatch, Mul, InodeAt, DirOk, Owned, Rows, Child, SeenChild, FileOk, Follows,
      SelfFree, Fresh, Roomy, DirFull, Find;
    var dirs := Dirs(w.f.path);
    ShallowParent(w.fs.g, w.fs.disk, w.f.path);
    if |dirs| == 1 {
      assert dirs == [dirs[0]];
      OneFollows(w.fs.g, w.fs.disk, dirs[0], ROOT);
    } else {
      assert dirs == [];
      assert Follows(w.fs.g, w.fs.disk, [], ROOT, Fresh()) by {
        NoneFollows(w.fs.g, w.fs.disk, ROOT, Fresh());
      }
    }
    WalkResolves(w.fs.g, w.fs.disk, dirs, ROOT, Fresh());
  }

  lemma NoneFollows(g: Geometry, disk: seq<Block>, n: nat, slots: seq<Entry>)
    requires Shaped(g, disk) && ValidIno(g, n) && Slotted(slots)
    ensures Follows(g, disk, [], n, slots) && Pass(g, disk, [], n, slots) == slots
    ensures Resolve(g, disk, [], n) == n
  {
    hide Sane;
  }

  /** What the walk to the parent leaves in the array, at depth 2 and 3. */
  lemma ShallowPass(w: World, d: nat, e: Fs, dirs: seq<seq<byte>>)
    requires Inv(w) && Mounted(e) && e.g == w.fs.g && |dirs| <= 1 && ROOT in w.tracked
    requires forall n :: n in w.tracked && n != d ==> SameList(w.fs, e, n)
    requires ValidIno(w.fs.g, ROOT) && d != 0 && Resolve(w.fs.g, w.fs.disk, dirs, ROOT) == d
    requires SelfFree(w.fs.g, w.fs.disk, dirs, ROOT)
    ensures Follows(e.g, e.disk, dirs, ROOT, Fresh())
    ensures Pass(e.g, e.disk, dirs, ROOT, Fresh())
         == if dirs == [] then Fresh() else Overlay(Fresh(), List(w.fs.g, w.fs.disk, ROOT))
  {
    hide Sane, Describes, Marked, CountsMatch, Mul, InodeAt, DirOk, Owned, Fresh, Lookup, List, Overlay, FileOk, Seen;
    if dirs == [] {
      NoneFollows(e.g, e.disk, ROOT, Fresh());
    } else {
      assert dirs == [dirs[0]] && dirs[1..] == [];
      assert SameList(w.fs, e, ROOT);
      OneFollows(e.g, e.disk, dirs[0], ROOT);
      assert Child(e.g, e.disk, ROOT, dirs[0]) == d;
    }
  }

  /** A cleared array is clear for every new name. */
  lemma FreshClear(fs: Fs, d: nat, name: seq<byte>)
    requires Mounted(fs) && ValidIno(fs.g, d) && Ptr(Image(fs, d), 0) < |fs.disk| && |Front(fs, d)| < MAX_SUBDIRS
    requires |name| <= NAME_LEN && NewIn(fs, d, name) && IsDir(Image(fs, d)) && Ptr(Image(fs, d), 0) != 0
    ensures Clear(Fresh(), Front(fs, d), name)
  {
    hide Sane, Describes, Mul, InodeAt, CString, Fresh, Lookup, Parse, Ptr, IsDir, ListFrom, ListReadable, Copied;
    var front, x := Front(fs, d), Image(fs, d);
    ListStep(fs.disk, x, 0, MAX_SUBDIRS);
    ParseNonzero(fs.disk[Ptr(x, 0)], 0, MAX_SUBDIRS);
    LookupFirst(front, ListFrom(fs.disk, x, 1, MAX_SUBDIRS - |front|), name);
    forall j | 0 <= j < |front|
      ensures CString(Copied(Fresh()[j], front[j]).name) != name
    {
      FreshDiffers(front, j, name);
    }
    EmptyByte(|name|);
  }

  lemma FreshDiffers(front: seq<Entry>, j: nat, name: seq<byte>)
    requires j < |front| && |front[j].name| <= NAME_LEN && Lookup(front, name) == 0
    requires forall i :: 0 <= i < |front| ==> front[i].ino != 0
    ensures CString(Copied(EMPTY, front[j]).name) != name
  {
    hide CString, Lookup, Copied;
    EmptyReads(front[j]);
    if CString(front[j].name) == name {
      Unfound(front, j, name);
    }
  }

  lemma EmptyReads(e: Entry)
    requires |e.name| <= NAME_LEN
    ensures CString(Copied(EMPTY, e).name) == CString(e.name)
  {
    SlotReadsIff(EMPTY.name, e.name);
  }

  lemma EmptyByte(p: nat)
    requires p < SLOT_LEN
    ensures EMPTY.name[p] == 0
  {
  }

  lemma {:induction false} Unfound(es: seq<Entry>, j: nat, name: seq<byte>)
    requires j < |es| && CString(es[j].name) == name && forall i :: 0 <= i < |es| ==> es[i].ino != 0
    ensures Lookup(es, name) != 0
  {
    hide CString;
    if j > 0 {
      Unfound(es[1..], j - 1, name);
    }
  }
}
