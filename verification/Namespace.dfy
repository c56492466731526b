/** Directories as the driver sees them: listings, the path walk, and adding an entry. */
module Namespace {
  import opened Bytes
  import opened Volume
  import opened Records
  import opened Paths
  import opened Slots

  const ROOT: nat := 2

  /** The listing of a directory inode from its direct block `i` on, at most `n` entries. */
  function ListFrom(disk: seq<Block>, x: InodeImage, i: nat, n: nat): (r: seq<Entry>)
    ensures |r| <= n && forall k :: 0 <= k < |r| ==> |r[k].name| <= NAME_LEN
    decreases NDIR_BLOCKS - i
  {
    if i >= NDIR_BLOCKS || Ptr(x, i) == 0 || Ptr(x, i) >= |disk| then []
    else
      var e := Parse(disk[Ptr(x, i)], 0, n);
      e + ListFrom(disk, x, i + 1, n - |e|)
  }

  /** Every record that such a listing visits lies inside its block. */
  predicate ListReadable(disk: seq<Block>, x: InodeImage, i: nat, n: nat)
    decreases NDIR_BLOCKS - i
  {
    i >= NDIR_BLOCKS || Ptr(x, i) == 0
    || (Ptr(x, i) < |disk| && Readable(disk[Ptr(x, i)], 0, n)
        && ListReadable(disk, x, i + 1, n - |Parse(disk[Ptr(x, i)], 0, n)|))
  }

  /** `ext2_list_directory`. */
  function List(g: Geometry, disk: seq<Block>, n: nat): (r: seq<Entry>)
    requires Shaped(g, disk) && ValidIno(g, n)
    ensures Short(r)
  {
    var x := InodeAt(g, disk, n);
    if IsDir(x) then ListFrom(disk, x, 0, MAX_SUBDIRS) else []
  }

  /** The inode of `name` in directory `n`; 0 if there is none (or it is not an inode number). */
  function Child(g: Geometry, disk: seq<Block>, n: nat, name: seq<byte>): (r: nat)
    requires Shaped(g, disk) && ValidIno(g, n)
    ensures r != 0 ==> ValidIno(g, r)
  {
    var m := Lookup(List(g, disk, n), name);
    if ValidIno(g, m) then m else 0
  }

  /** What the walk takes for the child when it lists `n` into the array `slots`. */
  function SeenChild(g: Geometry, disk: seq<Block>, n: nat, slots: seq<Entry>, name: seq<byte>): (r: nat)
    requires Shaped(g, disk) && ValidIno(g, n) && Slotted(slots)
    ensures r != 0 ==> ValidIno(g, r)
  {
    var m := Seen(slots, List(g, disk, n), name);
    if ValidIno(g, m) then m else 0
  }

  /** The loop of `ext2_inode_find` from inode `n` on: it stops at the first component that it does not
      see or that it takes for the directory it was looked up in. The array keeps what it held. */
  function Walk(g: Geometry, disk: seq<Block>, comps: seq<seq<byte>>, n: nat, slots: seq<Entry>): (r: nat)
    requires Shaped(g, disk) && ValidIno(g, n) && Slotted(slots)
    ensures ValidIno(g, r)
    decreases |comps|
  {
    if comps == [] then n
    else
      var m := SeenChild(g, disk, n, slots, comps[0]);
      if m == 0 || m == n then n else Walk(g, disk, comps[1..], m, Overlay(slots, List(g, disk, n)))
  }

  /** The components that the walk looks up: all rows but the first. */
  function Components(path: seq<byte>): seq<seq<byte>> {
    Rows(path)[if |Rows(path)| == 0 then 0 else 1..]
  }

  /** `ext2_inode_find`. */
  function Find(g: Geometry, disk: seq<Block>, path: seq<byte>): (r: nat)
    requires Shaped(g, disk) && ValidIno(g, ROOT)
    ensures ValidIno(g, r)
  {
    Walk(g, disk, Components(path), ROOT, Fresh())
  }

  // Reference definitions.

  /** Path resolution: every component must be found; 0 otherwise. */
  function Resolve(g: Geometry, disk: seq<Block>, comps: seq<seq<byte>>, n: nat): (r: nat)
    requires Shaped(g, disk) && ValidIno(g, n)
    ensures r != 0 ==> ValidIno(g, r)
    decreases |comps|
  {
    if comps == [] then n
    else
      var m := Child(g, disk, n, comps[0]);
      if m == 0 then 0 else Resolve(g, disk, comps[1..], m)
  }

  /** `r` is what the longest resolvable prefix of the components, of length `k`, resolves to. */
  ghost predicate LongestPrefix(g: Geometry, disk: seq<Block>, comps: seq<seq<byte>>, n: nat, k: nat, r: nat)
    requires Shaped(g, disk) && ValidIno(g, n)
  {
    && k <= |comps|
    && r != 0 && Resolve(g, disk, comps[..k], n) == r
    && (k < |comps| ==> Resolve(g, disk, comps[..k + 1], n) == 0)
  }

  ghost predicate EndsLongest(g: Geometry, disk: seq<Block>, comps: seq<seq<byte>>, n: nat, r: nat)
    requires Shaped(g, disk) && ValidIno(g, n)
  {
    exists k: nat :: LongestPrefix(g, disk, comps, n, k, r)
  }

  /** No component on the way names the directory it is looked up in. */
  predicate SelfFree(g: Geometry, disk: seq<Block>, comps: seq<seq<byte>>, n: nat)
    requires Shaped(g, disk) && ValidIno(g, n)
    decreases |comps|
  {
    comps == []
    || var m := Child(g, disk, n, comps[0]); m == 0 || (m != n && SelfFree(g, disk, comps[1..], m))
  }

  /** On the way along the components every name is seen as it is, through what the array holds, and none
      names the directory it is looked up in. */
  predicate Follows(g: Geometry, disk: seq<Block>, comps: seq<seq<byte>>, n: nat, slots: seq<Entry>)
    requires Shaped(g, disk) && ValidIno(g, n) && Slotted(slots)
    decreases |comps|
  {
    comps == []
    || var m, s := Child(g, disk, n, comps[0]), SeenChild(g, disk, n, slots, comps[0]);
       if m == 0 then s == 0 || s == n
       else s == m && m != n && Follows(g, disk, comps[1..], m, Overlay(slots, List(g, disk, n)))
  }

  /** The directories that the walk lists, and where it ends. */
  function Trace(g: Geometry, disk: seq<Block>, comps: seq<seq<byte>>, n: nat, slots: seq<Entry>): (r: seq<nat>)
    requires Shaped(g, disk) && ValidIno(g, n) && Slotted(slots)
    ensures r != [] && r[0] == n
    decreases |comps|
  {
    if comps == [] then [n]
    else
      var m := SeenChild(g, disk, n, slots, comps[0]);
      if m == 0 || m == n then [n]
      else [n] + Trace(g, disk, comps[1..], m, Overlay(slots, List(g, disk, n)))
  }

  /** The directories that the components lead through as far as they resolve. */
  function Route(g: Geometry, disk: seq<Block>, comps: seq<seq<byte>>, n: nat): (r: seq<nat>)
    requires Shaped(g, disk) && ValidIno(g, n)
    ensures r != [] && r[0] == n
    decreases |comps|
  {
    if comps == [] then [n]
    else
      var m := Child(g, disk, n, comps[0]);
      if m == 0 then [n] else [n] + Route(g, disk, comps[1..], m)
  }

  /** The first step at which the walk leaves the way of the components, if there is one, does no harm:
      what it stops at, or goes on from, ends where the longest prefix of the rest does. */
  ghost predicate Harmless(g: Geometry, disk: seq<Block>, comps: seq<seq<byte>>, n: nat, slots: seq<Entry>)
    requires Shaped(g, disk) && ValidIno(g, n) && Slotted(slots)
    decreases |comps|
  {
    comps == []
    || var m, s := Child(g, disk, n, comps[0]), SeenChild(g, disk, n, slots, comps[0]);
       var next := Overlay(slots, List(g, disk, n));
       if s == 0 || s == n then m == 0 || EndsLongest(g, disk, comps[1..], m, n)
       else if s == m then Harmless(g, disk, comps[1..], m, next)
       else if m == 0 then Walk(g, disk, comps[1..], s, next) == n
       else EndsLongest(g, disk, comps[1..], m, Walk(g, disk, comps[1..], s, next))
  }

  lemma LongestStep(g: Geometry, disk: seq<Block>, comps: seq<seq<byte>>, n: nat, k: nat, r: nat)
    requires Shaped(g, disk) && ValidIno(g, n) && comps != []
    requires Child(g, disk, n, comps[0]) != 0 && k <= |comps| - 1
    ensures LongestPrefix(g, disk, comps, n, k + 1, r)
       <==> LongestPrefix(g, disk, comps[1..], Child(g, disk, n, comps[0]), k, r)
  {
    hide Sane, Child;
    assert comps[..k + 1][1..] == comps[1..][..k];
    if k + 1 < |comps| {
      assert comps[..k + 2][1..] == comps[1..][..k + 1];
    }
  }

  /** There is a longest resolvable prefix, whatever the directories contain. */
  lemma {:induction false} LongestExists(g: Geometry, disk: seq<Block>, comps: seq<seq<byte>>, n: nat)
      returns (k: nat, r: nat)
    requires Shaped(g, disk) && ValidIno(g, n)
    ensures LongestPrefix(g, disk, comps, n, k, r)
    ensures r == Last(Route(g, disk, comps, n)) && k == |Route(g, disk, comps, n)| - 1 && k <= |comps|
    decreases |comps|
  {
    hide Sane, Child;
    assert comps[..0] == [];
    k, r := 0, n;
    if comps != [] {
      var m := Child(g, disk, n, comps[0]);
      if m == 0 {
        StuckAtOnce(g, disk, comps, n, 1);
      } else {
        k, r := LongestExists(g, disk, comps[1..], m);
        LongestStep(g, disk, comps, n, k, r);
        k := k + 1;
      }
    }
  }

  function Last(s: seq<nat>): nat
    requires s != []
  {
    s[|s| - 1]
  }

  /** ... and only one. */
  lemma {:induction false} LongestUnique(g: Geometry, disk: seq<Block>, comps: seq<seq<byte>>, n: nat,
                                         k: nat, r: nat, k': nat, r': nat)
    requires Shaped(g, disk) && ValidIno(g, n)
    requires LongestPrefix(g, disk, comps, n, k, r) && LongestPrefix(g, disk, comps, n, k', r')
    ensures k == k' && r == r'
    decreases |comps|
  {
    hide Sane, Child;
    assert comps[..0] == [];
    if comps != [] {
      var m := Child(g, disk, n, comps[0]);
      if m == 0 {
        StuckAtOnce(g, disk, comps, n, k);
        StuckAtOnce(g, disk, comps, n, k');
      } else {
        assert comps[..1][1..] == [];
        assert Resolve(g, disk, comps[..1], n) == m;
        LongestStep(g, disk, comps, n, k - 1, r);
        LongestStep(g, disk, comps, n, k' - 1, r');
        LongestUnique(g, disk, comps[1..], m, k - 1, r, k' - 1, r');
      }
    }
  }

  lemma StuckAtOnce(g: Geometry, disk: seq<Block>, comps: seq<seq<byte>>, n: nat, k: nat)
    requires Shaped(g, disk) && ValidIno(g, n)
    requires comps != [] && Child(g, disk, n, comps[0]) == 0 && k <= |comps|
    ensures Resolve(g, disk, comps[..k], n) == if k == 0 then n else 0
  {
  }

  /** The walk goes the way of the components, directory by directory, exactly when it sees every name on
      the way as it is and none names its own directory. */
  lemma {:induction false} FollowsIff(g: Geometry, disk: seq<Block>, comps: seq<seq<byte>>, n: nat, slots: seq<Entry>)
    requires Shaped(g, disk) && ValidIno(g, n) && Slotted(slots)
    ensures Trace(g, disk, comps, n, slots) == Route(g, disk, comps, n) <==> Follows(g, disk, comps, n, slots)
    ensures Walk(g, disk, comps, n, slots) == Last(Trace(g, disk, comps, n, slots))
    decreases |comps|
  {
    hide Sane, Child, SeenChild, Overlay, Slotted, List, ValidIno;
    if comps != [] {
      var m, s := Child(g, disk, n, comps[0]), SeenChild(g, disk, n, slots, comps[0]);
      var next := Overlay(slots, List(g, disk, n));
      if s != 0 && s != n {
        FollowsIff(g, disk, comps[1..], s, next);
        var t := Trace(g, disk, comps[1..], s, next);
        assert Trace(g, disk, comps, n, slots)[1..] == t;
        if m != 0 {
          assert Route(g, disk, comps, n)[1..] == Route(g, disk, comps[1..], m);
        }
      }
    }
  }

  /** Path walk: a walk that goes the way of the components ends at the inode of the longest resolvable
      prefix. */
  lemma WalkIsLongestPrefix(g: Geometry, disk: seq<Block>, comps: seq<seq<byte>>, n: nat, slots: seq<Entry>)
      returns (k: nat)
    requires Shaped(g, disk) && ValidIno(g, n) && Slotted(slots) && Follows(g, disk, comps, n, slots)
    ensures LongestPrefix(g, disk, comps, n, k, Walk(g, disk, comps, n, slots))
  {
    hide Sane, Child, SeenChild, Overlay, Slotted, List, ValidIno, Follows, Walk, Trace, Route, LongestPrefix;
    FollowsIff(g, disk, comps, n, slots);
    var r;
    k, r := LongestExists(g, disk, comps, n);
  }

  /** ... and any walk does so exactly when its first wrong step, if any, does no harm. */
  lemma {:induction false} WalkExactly(g: Geometry, disk: seq<Block>, comps: seq<seq<byte>>, n: nat, slots: seq<Entry>)
    requires Shaped(g, disk) && ValidIno(g, n) && Slotted(slots)
    ensures Harmless(g, disk, comps, n, slots)
       <==> EndsLongest(g, disk, comps, n, Walk(g, disk, comps, n, slots))
    decreases |comps|
  {
    hide Sane, Child, SeenChild, Overlay, Slotted, List, ValidIno, LongestPrefix, EndsLongest;
    if comps == [] {
      EndsHere(g, disk, comps, n, n);
    } else {
      var m, s := Child(g, disk, n, comps[0]), SeenChild(g, disk, n, slots, comps[0]);
      var next := Overlay(slots, List(g, disk, n));
      var w := Walk(g, disk, comps, n, slots);
      if m == 0 {
        EndsHere(g, disk, comps, n, w);
      } else {
        EndsOneOn(g, disk, comps, n, w);
      }
      if s != 0 && s != n && s == m {
        WalkExactly(g, disk, comps[1..], m, next);
      }
    }
  }

  /** Where nothing resolves the longest prefix is empty. */
  lemma EndsHere(g: Geometry, disk: seq<Block>, comps: seq<seq<byte>>, n: nat, r: nat)
    requires Shaped(g, disk) && ValidIno(g, n) && (comps == [] || Child(g, disk, n, comps[0]) == 0)
    ensures EndsLongest(g, disk, comps, n, r) <==> r == n
  {
    hide Sane, Child;
    var k, l := LongestExists(g, disk, comps, n);
    if EndsLongest(g, disk, comps, n, r) {
      var j: nat :| LongestPrefix(g, disk, comps, n, j, r);
      LongestUnique(g, disk, comps, n, j, r, k, l);
    }
  }

  lemma EndsOneOn(g: Geometry, disk: seq<Block>, comps: seq<seq<byte>>, n: nat, r: nat)
    requires Shaped(g, disk) && ValidIno(g, n) && comps != [] && Child(g, disk, n, comps[0]) != 0
    ensures EndsLongest(g, disk, comps, n, r) <==> EndsLongest(g, disk, comps[1..], Child(g, disk, n, comps[0]), r)
  {
    hide Sane, Child, LongestPrefix;
    var m := Child(g, disk, n, comps[0]);
    var k, l := LongestExists(g, disk, comps, n);
    var k', l' := LongestExists(g, disk, comps[1..], m);
    LongestStep(g, disk, comps, n, k', l');
    LongestUnique(g, disk, comps, n, k, l, k' + 1, l');
    if EndsLongest(g, disk, comps, n, r) {
      var j: nat :| LongestPrefix(g, disk, comps, n, j, r);
      LongestUnique(g, disk, comps, n, k, l, j, r);
    }
    if EndsLongest(g, disk, comps[1..], m, r) {
      var j: nat :| LongestPrefix(g, disk, comps[1..], m, j, r);
      LongestUnique(g, disk, comps[1..], m, j, r, k', l');
    }
  }

  /** A fully resolving path that the walk follows is walked to its end. */
  lemma {:induction false} WalkResolves(g: Geometry, disk: seq<Block>, comps: seq<seq<byte>>, n: nat, slots: seq<Entry>)
    requires Shaped(g, disk) && ValidIno(g, n) && Slotted(slots) && Follows(g, disk, comps, n, slots)
    requires Resolve(g, disk, comps, n) != 0
    ensures Walk(g, disk, comps, n, slots) == Resolve(g, disk, comps, n)
    decreases |comps|
  {
    hide Sane, Child, SeenChild, Overlay, Slotted, List, ValidIno;
    if comps != [] {
      WalkResolves(g, disk, comps[1..], Child(g, disk, n, comps[0]), Overlay(slots, List(g, disk, n)));
    }
  }

  /** A path of one component is looked up in a cleared array: it is seen as it is. */
  lemma OneFollows(g: Geometry, disk: seq<Block>, name: seq<byte>, n: nat)
    requires Shaped(g, disk) && ValidIno(g, n)
    ensures SeenChild(g, disk, n, Fresh(), name) == Child(g, disk, n, name)
    ensures Follows(g, disk, [name], n, Fresh()) <==> SelfFree(g, disk, [name], n)
  {
    hide Sane, List, Overlay, Fresh, Seen, Lookup;
    FreshSees(List(g, disk, n), name);
    assert [name][1..] == [];
  }

  // The condition on volumes where different ways lead to different inodes.

  /** A way without the steps that stay in a directory. */
  function Stripped(r: seq<nat>): (t: seq<nat>)
    requires r != []
    ensures t != [] && t[0] == r[0] && Last(t) == Last(r)
  {
    if |r| == 1 then r
    else if r[1] == r[0] then Stripped(r[1..])
    else [r[0]] + Stripped(r[1..])
  }

  /** Neither way returns to its start, and no inode is entered from two directories. */
  predicate OneEntry(t: seq<nat>, r: seq<nat>)
    requires t != [] && r != []
  {
    && (forall i :: 0 < i < |t| ==> t[i] != t[0]) && (forall j :: 0 < j < |r| ==> r[j] != r[0])
    && forall i, j :: 0 < i < |t| && 0 < j < |r| && t[i] == r[j] ==> t[i - 1] == r[j - 1]
  }

  lemma {:induction false} SameEnds(t: seq<nat>, r: seq<nat>)
    requires t != [] && r != [] && t[0] == r[0] && OneEntry(t, r) && Last(t) == Last(r)
    ensures t == r
    decreases |t|
  {
    var k, l := |t| - 1, |r| - 1;
    if k > 0 && l > 0 {
      assert t[k] == r[l];
      SameEnds(t[..k], r[..l]);
      assert t == t[..k] + [t[k]] && r == r[..l] + [r[l]];
    } else {
      assert k == 0 && l == 0;
    }
  }

  /** The components lead nowhere but to `n` itself. */
  predicate Stays(g: Geometry, disk: seq<Block>, comps: seq<seq<byte>>, n: nat)
    requires Shaped(g, disk) && ValidIno(g, n)
    decreases |comps|
  {
    comps == [] || var m := Child(g, disk, n, comps[0]); m == 0 || (m == n && Stays(g, disk, comps[1..], n))
  }

  lemma {:induction false} StaysIff(g: Geometry, disk: seq<Block>, comps: seq<seq<byte>>, n: nat)
    requires Shaped(g, disk) && ValidIno(g, n)
    ensures Stripped(Route(g, disk, comps, n)) == [n] <==> Stays(g, disk, comps, n)
    decreases |comps|
  {
    hide Sane, Child;
    if comps != [] {
      var m := Child(g, disk, n, comps[0]);
      if m != 0 {
        StaysIff(g, disk, comps[1..], m);
        RouteStep(g, disk, comps, n);
      }
    }
  }

  lemma RouteStep(g: Geometry, disk: seq<Block>, comps: seq<seq<byte>>, n: nat)
    requires Shaped(g, disk) && ValidIno(g, n) && comps != [] && Child(g, disk, n, comps[0]) != 0
    ensures var (m, r) := (Child(g, disk, n, comps[0]), Route(g, disk, comps[1..], Child(g, disk, n, comps[0])));
      && Route(g, disk, comps, n) == [n] + r
      && Stripped([n] + r) == if m == n then Stripped(r) else [n] + Stripped(r)
  {
    hide Sane, Child;
    var r := Route(g, disk, comps[1..], Child(g, disk, n, comps[0]));
    assert ([n] + r)[1..] == r;
  }

  lemma {:induction false} SelfFreeRoute(g: Geometry, disk: seq<Block>, comps: seq<seq<byte>>, n: nat)
    requires Shaped(g, disk) && ValidIno(g, n) && SelfFree(g, disk, comps, n)
    ensures Stripped(Route(g, disk, comps, n)) == Route(g, disk, comps, n)
    decreases |comps|
  {
    hide Sane, Child;
    if comps != [] && Child(g, disk, n, comps[0]) != 0 {
      SelfFreeRoute(g, disk, comps[1..], Child(g, disk, n, comps[0]));
      RouteStep(g, disk, comps, n);
    }
  }

  lemma EndsLongestIff(g: Geometry, disk: seq<Block>, comps: seq<seq<byte>>, n: nat, r: nat)
    requires Shaped(g, disk) && ValidIno(g, n)
    ensures EndsLongest(g, disk, comps, n, r) <==> r == Last(Route(g, disk, comps, n))
  {
    hide Sane, LongestPrefix, Route, Last;
    var k, l := LongestExists(g, disk, comps, n);
    if EndsLongest(g, disk, comps, n, r) {
      var j: nat :| LongestPrefix(g, disk, comps, n, j, r);
      LongestUnique(g, disk, comps, n, j, r, k, l);
    }
  }

  /** When different ways lead to different inodes, doing no harm comes down to what the walk sees: it ends
      at the longest prefix exactly when it lists the directories of the route, one by one. On a path without
      components that name their own directory that is to see every name on the way as it is; and where
      the walk stops at once it is that nothing else resolves. */
  lemma HarmlessIff(g: Geometry, disk: seq<Block>, comps: seq<seq<byte>>, n: nat, slots: seq<Entry>)
    requires Shaped(g, disk) && ValidIno(g, n) && Slotted(slots)
    requires OneEntry(Trace(g, disk, comps, n, slots), Stripped(Route(g, disk, comps, n)))
    ensures Harmless(g, disk, comps, n, slots)
       <==> Trace(g, disk, comps, n, slots) == Stripped(Route(g, disk, comps, n))
    ensures SelfFree(g, disk, comps, n) ==>
      (Harmless(g, disk, comps, n, slots) <==> Follows(g, disk, comps, n, slots))
    ensures Trace(g, disk, comps, n, slots) == [n] ==>
      (Harmless(g, disk, comps, n, slots) <==> Stays(g, disk, comps, n))
  {
    hide Sane, Child, SeenChild, Overlay, Slotted, List, ValidIno, Stays, Stripped, Follows, Harmless, SelfFree, Trace, Route,
      Walk, OneEntry, Last;
    var t, r := Trace(g, disk, comps, n, slots), Route(g, disk, comps, n);
    WalkExactly(g, disk, comps, n, slots);
    FollowsIff(g, disk, comps, n, slots);
    EndsLongestIff(g, disk, comps, n, Walk(g, disk, comps, n, slots));
    StaysIff(g, disk, comps, n);
    if Last(t) == Last(r) {
      SameEnds(t, Stripped(r));
    }
    if SelfFree(g, disk, comps, n) {
      SelfFreeRoute(g, disk, comps, n);
    }
  }

  // Adding an entry.

  /** `ext2_add_dir_entry` with inode image `x`: the blocks afterwards and the error code. A failed
      directory check returns 0. Only the first direct block is ever extended. (The callers make sure
      that the new record fits the block buffer.) */
  function AddEntry(disk: seq<Block>, x: InodeImage, ino: nat, name: seq<byte>): (r: (seq<Block>, nat))
    ensures |r.0| == |disk|
  {
    if !IsDir(x) then (disk, 0)
    else if Ptr(x, 0) == 0 || Ptr(x, 0) >= |disk| then (disk, 1)
    else
      var b := disk[Ptr(x, 0)];
      var o := FindLast(b, 0, 0);
      if o < 0 || !Fits(o, name) then (disk, 1) else (disk[Ptr(x, 0) := Insert(b, o, ino, name)], 0)
  }

  /** The first block of the directory takes the new name without damage: it is tiled, the new record
      fits behind the last one, whose new length still covers it, and the listing has room. */
  predicate Accepts(disk: seq<Block>, x: InodeImage, name: seq<byte>) {
    && IsDir(x) && Ptr(x, 0) != 0 && Ptr(x, 0) < |disk|
    && |name| <= NAME_LEN && NoNul(name)
    && var b := disk[Ptr(x, 0)];
       && Tiled(b, 0)
       && Fits(LastOffset(b, 0), name)
       && 8 + NameLen(b, LastOffset(b, 0)) <= LastOffset(b, 0) + RecSize(name)
       && Count(b, 0) < MAX_SUBDIRS
  }

  /** Adding the name stays inside the first block and writes no header but the last record's length; the
      last record's name may be damaged. */
  predicate Roomy(disk: seq<Block>, x: InodeImage, name: seq<byte>) {
    && IsDir(x) && Ptr(x, 0) != 0 && Ptr(x, 0) < |disk| && |name| <= NAME_LEN
    && var b := disk[Ptr(x, 0)];
       && Spaced(b, 0, 0) && FindLast(b, 0, 0) >= 0 && Fits(FindLast(b, 0, 0), name)
  }

  lemma AcceptsIsRoomy(disk: seq<Block>, x: InodeImage, name: seq<byte>)
    requires Accepts(disk, x, name)
    ensures Roomy(disk, x, name) && FindLast(disk[Ptr(x, 0)], 0, 0) == LastOffset(disk[Ptr(x, 0)], 0)
  {
    hide Tiled, LastOffset, Count, FindLast, Fits, NameLen, RecSize, Ptr, Spaced;
    FindLastTiled(disk[Ptr(x, 0)], 0, 0);
    TiledSpaced(disk[Ptr(x, 0)], 0, 0);
  }

  /** Blocks that a directory inode refers to are the same in both images. */
  ghost predicate SameDirBlocks(a: seq<Block>, b: seq<Block>, x: InodeImage, i: nat) {
    |a| == |b| && forall j :: i <= j < NDIR_BLOCKS && Ptr(x, j) != 0 && Ptr(x, j) < |a| ==> b[Ptr(x, j)] == a[Ptr(x, j)]
  }

  lemma SameFrom(a: seq<Block>, b: seq<Block>, x: InodeImage, i: nat)
    requires SameDirBlocks(a, b, x, i)
    ensures |a| == |b| && SameDirBlocks(a, b, x, i + 1)
    ensures i < NDIR_BLOCKS && Ptr(x, i) != 0 && Ptr(x, i) < |a| ==> b[Ptr(x, i)] == a[Ptr(x, i)]
  {
    hide Ptr;
  }

  lemma {:induction false} ListFrame(a: seq<Block>, b: seq<Block>, x: InodeImage, i: nat, n: nat)
    requires SameDirBlocks(a, b, x, i)
    ensures ListFrom(b, x, i, n) == ListFrom(a, x, i, n)
    ensures ListReadable(b, x, i, n) == ListReadable(a, x, i, n)
    decreases NDIR_BLOCKS - i
  {
    hide Parse, Readable, Ptr, SameDirBlocks;
    SameFrom(a, b, x, i);
    if i < NDIR_BLOCKS && Ptr(x, i) != 0 && Ptr(x, i) < |a| {
      ListFrame(a, b, x, i + 1, n - |Parse(a[Ptr(x, i)], 0, n)|);
    }
  }

  function Take<T>(s: seq<T>, m: nat): seq<T> {
    if |s| <= m then s else s[..m]
  }

  lemma TakeConcat<T>(p: seq<T>, l: seq<T>, m: nat)
    ensures Take(p + l, m) == Take(p, m) + Take(l, if |p| <= m then m - |p| else 0)
  {
  }

  lemma TakeHead<T>(x: T, l: seq<T>, m: nat)
    requires m > 0
    ensures Take([x] + l, m) == [x] + Take(l, m - 1)
  {
  }

  /** A smaller budget cuts a listing short. */
  lemma {:induction false} ParseCut(b: Block, o: nat, n: nat, m: nat)
    requires m <= n
    ensures Parse(b, o, m) == Take(Parse(b, o, n), m)
    ensures Readable(b, o, n) ==> Readable(b, o, m)
    decreases n
  {
    hide EntryAt, U16, U32;
    if m > 0 && Inside(b, o) && RecInode(b, o) != 0 {
      ParseCut(b, o + RecLen(b, o), n - 1, m - 1);
      TakeHead(EntryAt(b, o), Parse(b, o + RecLen(b, o), n - 1), m);
    }
  }

  lemma ListStep(disk: seq<Block>, x: InodeImage, i: nat, n: nat)
    requires i < NDIR_BLOCKS && Ptr(x, i) != 0 && Ptr(x, i) < |disk|
    ensures var p := Parse(disk[Ptr(x, i)], 0, n);
      && ListFrom(disk, x, i, n) == p + ListFrom(disk, x, i + 1, n - |p|)
      && ListReadable(disk, x, i, n)
           == (Readable(disk[Ptr(x, i)], 0, n) && ListReadable(disk, x, i + 1, n - |p|))
  {
    hide Parse, Readable, Ptr;
  }

  lemma {:induction false} ListCut(disk: seq<Block>, x: InodeImage, i: nat, n: nat, m: nat)
    requires m <= n
    ensures ListFrom(disk, x, i, m) == Take(ListFrom(disk, x, i, n), m)
    ensures ListReadable(disk, x, i, n) ==> ListReadable(disk, x, i, m)
    decreases NDIR_BLOCKS - i
  {
    hide Parse, Readable, Ptr;
    if i < NDIR_BLOCKS && Ptr(x, i) != 0 && Ptr(x, i) < |disk| {
      var b := disk[Ptr(x, i)];
      var p, q := Parse(b, 0, n), Parse(b, 0, m);
      ParseCut(b, 0, n, m);
      ListStep(disk, x, i, n);
      ListStep(disk, x, i, m);
      ListCut(disk, x, i + 1, n - |p|, m - |q|);
      hide ListFrom, ListReadable;
      TakeConcat(p, ListFrom(disk, x, i + 1, n - |p|), m);
    }
  }

  /** The blocks after the entry went into the directory's first block. */
  function Added(disk: seq<Block>, x: InodeImage, ino: nat, name: seq<byte>): (r: seq<Block>)
    requires Roomy(disk, x, name)
    ensures |r| == |disk|
  {
    var b := disk[Ptr(x, 0)];
    disk[Ptr(x, 0) := Insert(b, FindLast(b, 0, 0), ino, name)]
  }

  lemma AddEntryAdds(disk: seq<Block>, x: InodeImage, ino: nat, name: seq<byte>)
    requires Roomy(disk, x, name)
    ensures AddEntry(disk, x, ino, name) == (Added(disk, x, ino, name), 0)
  {
    hide FindLast, Fits, Insert, Ptr, Spaced;
  }

  /** Whether or not the last record is damaged, the listing stays inside the blocks and holds only old
      inode numbers and the new one. */
  lemma AddedReads(disk: seq<Block>, x: InodeImage, ino: nat, name: seq<byte>, T: set<nat>)
    requires Roomy(disk, x, name) && 0 < ino < 0x1_0000_0000 && ino in T
    requires SameDirBlocks(disk, Added(disk, x, ino, name), x, 1)
    requires ListReadable(disk, x, 0, MAX_SUBDIRS)
    requires forall e :: e in ListFrom(disk, x, 0, MAX_SUBDIRS) ==> e.ino in T
    ensures ListReadable(Added(disk, x, ino, name), x, 0, MAX_SUBDIRS)
    ensures forall e :: e in ListFrom(Added(disk, x, ino, name), x, 0, MAX_SUBDIRS) ==> e.ino in T
  {
    hide Parse, Readable, Ptr, ListFrom, ListReadable, SameDirBlocks, FindLast, Insert, Fits, Spaced, IsDir;
    var c, b := Added(disk, x, ino, name), disk[Ptr(x, 0)];
    ListStep(disk, x, 0, MAX_SUBDIRS);
    ListStep(c, x, 0, MAX_SUBDIRS);
    InsertReads(b, 0, 0, FindLast(b, 0, 0), ino, name, MAX_SUBDIRS);
    var p, q := Parse(b, 0, MAX_SUBDIRS), Parse(c[Ptr(x, 0)], 0, MAX_SUBDIRS);
    var n, m := MAX_SUBDIRS - |p|, MAX_SUBDIRS - |q|;
    ListFrame(disk, c, x, 1, m);
    ListCut(disk, x, 1, n, m);
    var rest := ListFrom(disk, x, 1, n);
    assert forall e: Entry :: e in p + rest ==> e.ino in T;
    forall e | e in q + Take(rest, m)
      ensures e.ino in T
    {
      if e in q {
        var i :| 0 <= i < |q| && q[i] == e;
        assert i < |p| ==> p[i] in p + rest;
      } else {
        assert e in rest;
        assert e in p + rest;
      }
    }
  }

  lemma AddedBlock(disk: seq<Block>, x: InodeImage, ino: nat, name: seq<byte>)
    requires Accepts(disk, x, name) && Roomy(disk, x, name) && 0 < ino < 0x1_0000_0000
    ensures var b, r := disk[Ptr(x, 0)], Added(disk, x, ino, name)[Ptr(x, 0)];
      && |Parse(b, 0, MAX_SUBDIRS)| < MAX_SUBDIRS
      && Parse(r, 0, MAX_SUBDIRS) == Parse(b, 0, MAX_SUBDIRS) + [Entry(ino, 0, name)]
      && Tiled(r, 0) && Readable(r, 0, MAX_SUBDIRS)
  {
    var b := disk[Ptr(x, 0)];
    AcceptsIsRoomy(disk, x, name);
    ParseTiled(b, 0, MAX_SUBDIRS);
    InsertListed(b, ino, name, MAX_SUBDIRS);
    InsertTiled(b, ino, name);
    ReadableTiled(Added(disk, x, ino, name)[Ptr(x, 0)], 0, MAX_SUBDIRS);
    hide Parse, Readable, Tiled, Insert, Ptr, LastOffset, Count, Fits, RecSize, NameLen, FindLast, Spaced;
  }

  lemma AcceptsBlock(disk: seq<Block>, x: InodeImage, name: seq<byte>)
    requires Accepts(disk, x, name)
    ensures Ptr(x, 0) != 0 && Ptr(x, 0) < |disk|
  {
  }

  /** What a listing reads from the blocks after the first. */
  function Others(disk: seq<Block>, x: InodeImage): seq<Entry>
    requires Ptr(x, 0) < |disk|
  {
    ListFrom(disk, x, 1, MAX_SUBDIRS - |Parse(disk[Ptr(x, 0)], 0, MAX_SUBDIRS)|)
  }

  /** The listing of a directory after an entry was added to its first block: the first block's
      entries, the new one, and the entries of the other blocks, as far as the budget goes. */
  lemma AddListed(disk: seq<Block>, x: InodeImage, ino: nat, name: seq<byte>)
    requires Accepts(disk, x, name) && Roomy(disk, x, name) && 0 < ino < 0x1_0000_0000
    requires SameDirBlocks(disk, Added(disk, x, ino, name), x, 1)
    ensures var p := Parse(disk[Ptr(x, 0)], 0, MAX_SUBDIRS);
      && |p| < MAX_SUBDIRS
      && ListFrom(disk, x, 0, MAX_SUBDIRS) == p + Others(disk, x)
      && ListFrom(Added(disk, x, ino, name), x, 0, MAX_SUBDIRS)
           == p + [Entry(ino, 0, name)] + Take(Others(disk, x), MAX_SUBDIRS - |p| - 1)
    ensures ListReadable(disk, x, 0, MAX_SUBDIRS) ==> ListReadable(Added(disk, x, ino, name), x, 0, MAX_SUBDIRS)
  {
    hide Parse, Readable, Tiled, Ptr, ListFrom, ListReadable, Take, SameDirBlocks, LastOffset, Count, Insert, Fits,
      NoNul, NameLen, RecSize, Added, FindLast, Spaced, Accepts;
    AcceptsBlock(disk, x, name);
    var p := Parse(disk[Ptr(x, 0)], 0, MAX_SUBDIRS);
    AddedBlock(disk, x, ino, name);
    var n := MAX_SUBDIRS - |p|;
    ListStep(disk, x, 0, MAX_SUBDIRS);
    ListStep(Added(disk, x, ino, name), x, 0, MAX_SUBDIRS);
    ListFrame(disk, Added(disk, x, ino, name), x, 1, n - 1);
    ListCut(disk, x, 1, n, n - 1);
  }

  /** ... and likewise when the insertion damages the last record: the directory lists it under the name that
      it now reads as. */
  lemma AddedLists(disk: seq<Block>, x: InodeImage, ino: nat, name: seq<byte>)
    requires Roomy(disk, x, name) && 0 < ino < 0x1_0000_0000
    requires SameDirBlocks(disk, Added(disk, x, ino, name), x, 1)
    requires Tiled(disk[Ptr(x, 0)], 0) && Count(disk[Ptr(x, 0)], 0) < MAX_SUBDIRS
    ensures var b := disk[Ptr(x, 0)];
      var p, o, c := Parse(b, 0, MAX_SUBDIRS), LastOffset(b, 0), Count(b, 0);
      && ListFrom(disk, x, 0, MAX_SUBDIRS) == p + Others(disk, x) && |p| == c > 0 && Fits(o, name)
      && ListFrom(Added(disk, x, ino, name), x, 0, MAX_SUBDIRS)
           == Swapped(p, c - 1, Entry(RecInode(b, o), b[o + 7], Misread(b, o, ino, name)))
              + [Entry(ino, 0, name)] + Take(Others(disk, x), MAX_SUBDIRS - c - 1)
  {
    hide Parse, Readable, Tiled, Ptr, ListFrom, ListReadable, Take, SameDirBlocks, LastOffset, Insert, Fits, Misread,
      NoNul, NameLen, RecSize, FindLast, Spaced, Swapped, U16, U32, EntryAt, Count, Added, Roomy;
    RoomyBlock(disk, x, name);
    AddedFirst(disk, x, ino, name);
    var c := Count(disk[Ptr(x, 0)], 0);
    var n := MAX_SUBDIRS - c;
    ListStep(disk, x, 0, MAX_SUBDIRS);
    ListStep(Added(disk, x, ino, name), x, 0, MAX_SUBDIRS);
    ListFrame(disk, Added(disk, x, ino, name), x, 1, n - 1);
    ListCut(disk, x, 1, n, n - 1);
  }

  lemma RoomyBlock(disk: seq<Block>, x: InodeImage, name: seq<byte>)
    requires Roomy(disk, x, name)
    ensures Ptr(x, 0) != 0 && Ptr(x, 0) < |disk|
  {
  }

  lemma AddedFirst(disk: seq<Block>, x: InodeImage, ino: nat, name: seq<byte>)
    requires Roomy(disk, x, name) && 0 < ino < 0x1_0000_0000
    requires Tiled(disk[Ptr(x, 0)], 0) && Count(disk[Ptr(x, 0)], 0) < MAX_SUBDIRS
    ensures var b, r := disk[Ptr(x, 0)], Added(disk, x, ino, name)[Ptr(x, 0)];
      var p, o, c := Parse(b, 0, MAX_SUBDIRS), LastOffset(b, 0), Count(b, 0);
      && |p| == c > 0 && Fits(o, name)
      && Parse(r, 0, MAX_SUBDIRS)
           == Swapped(p, c - 1, Entry(RecInode(b, o), b[o + 7], Misread(b, o, ino, name))) + [Entry(ino, 0, name)]
  {
    hide Parse, Readable, Tiled, Ptr, LastOffset, Insert, Fits, Misread, NameLen, RecSize, FindLast, Spaced, Swapped, U16,
      U32, EntryAt, Count;
    var b := disk[Ptr(x, 0)];
    FindLastTiled(b, 0, 0);
    ParseTiled(b, 0, MAX_SUBDIRS);
    InsertLists(b, ino, name, MAX_SUBDIRS);
  }

  lemma {:induction false} ParseNonzero(b: Block, o: nat, n: nat)
    ensures forall i :: 0 <= i < |Parse(b, o, n)| ==> Parse(b, o, n)[i].ino != 0
    decreases n
  {
    hide U16, U32, EntryAt;
    if n > 0 && Inside(b, o) && RecInode(b, o) != 0 {
      ParseNonzero(b, o + RecLen(b, o), n - 1);
      assert EntryAt(b, o).ino != 0 by { EntryIno(b, o); }
    }
  }

  lemma EntryIno(b: Block, o: nat)
    requires Inside(b, o)
    ensures EntryAt(b, o).ino == RecInode(b, o)
  {
  }

  /** The inode of the name in the first block of a directory, or 0. */
  function FirstLookup(disk: seq<Block>, x: InodeImage, name: seq<byte>): nat {
    if Ptr(x, 0) < |disk| then Lookup(Parse(disk[Ptr(x, 0)], 0, MAX_SUBDIRS), name) else 0
  }

  /** Lookups in a directory that accepted a name and whose listing had room: every other name is found as
      before. The name itself is found as before if it was in the first block, and otherwise, new or not,
      with the new inode. */
  lemma AddedLookup(disk: seq<Block>, x: InodeImage, ino: nat, name: seq<byte>, other: seq<byte>)
    requires Accepts(disk, x, name) && Roomy(disk, x, name) && 0 < ino < 0x1_0000_0000
    requires SameDirBlocks(disk, Added(disk, x, ino, name), x, 1)
    requires |ListFrom(disk, x, 0, MAX_SUBDIRS)| < MAX_SUBDIRS
    ensures var l, r := ListFrom(disk, x, 0, MAX_SUBDIRS), ListFrom(Added(disk, x, ino, name), x, 0, MAX_SUBDIRS);
      && (other != name ==> Lookup(r, other) == Lookup(l, other))
      && (FirstLookup(disk, x, name) != 0 ==> Lookup(l, name) == FirstLookup(disk, x, name))
      && Lookup(r, name) == if FirstLookup(disk, x, name) != 0 then Lookup(l, name) else ino
  {
    hide Parse, Readable, Tiled, Ptr, ListFrom, ListReadable, SameDirBlocks, LastOffset, Count, Insert, Fits,
      NoNul, NameLen, RecSize, Added, Lookup, FindLast, Spaced;
    var p, o := Parse(disk[Ptr(x, 0)], 0, MAX_SUBDIRS), Others(disk, x);
    AddListed(disk, x, ino, name);
    ParseNonzero(disk[Ptr(x, 0)], 0, MAX_SUBDIRS);
    CStringOf(name);
    hide Others;
    LookupBetween(p, Entry(ino, 0, name), o, other);
    LookupFirst(p, o, name);
    LookupFirst(p, [Entry(ino, 0, name)] + o, name);
    LookupOne(Entry(ino, 0, name), o, name);
    assert p + [Entry(ino, 0, name)] + o == p + ([Entry(ino, 0, name)] + o);
  }

  lemma LookupOne(e: Entry, es: seq<Entry>, name: seq<byte>)
    ensures CString(e.name) == name ==> Lookup([e] + es, name) == e.ino
  {
    hide CString;
  }
}
