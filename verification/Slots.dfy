/** The array of entries that a path walk fills again for every directory: a listing overwrites, in each
    slot it uses, only the bytes of the new name, and leaves what earlier, longer names put behind it. */
module Slots {
  import opened Bytes
  import opened Paths
  import opened Records

  const SLOT_LEN: nat := 256

  /** The array: 128 slots with names of 256 bytes, of which a listing never reaches the last. */
  predicate Slotted(s: seq<Entry>) {
    |s| == MAX_SUBDIRS && forall j :: 0 <= j < |s| ==> |s[j].name| == SLOT_LEN && s[j].name[255] == 0
  }

  /** A listing: at most 128 entries with names of at most 255 bytes. */
  predicate Short(es: seq<Entry>) {
    |es| <= MAX_SUBDIRS && forall i :: 0 <= i < |es| ==> |es[i].name| <= NAME_LEN
  }

  const EMPTY: Entry := Entry(0, 0, Zeros(256))

  function Blanks(n: nat): (r: seq<Entry>)
    ensures |r| == n && forall j :: 0 <= j < n ==> r[j] == EMPTY
  {
    if n == 0 then [] else Blanks(n - 1) + [EMPTY]
  }

  /** The array at the start of a walk. */
  function Fresh(): (r: seq<Entry>)
    ensures Slotted(r) && forall j :: 0 <= j < MAX_SUBDIRS ==> r[j] == EMPTY
  {
    Blanks(MAX_SUBDIRS)
  }

  /** The slot after an entry was copied into it. */
  function Copied(slot: Entry, e: Entry): Entry
    requires |slot.name| == SLOT_LEN && |e.name| <= NAME_LEN
  {
    Entry(e.ino, e.ftype, Splice(slot.name, 0, e.name))
  }

  /** The array after a listing was copied into it. */
  function Overlay(slots: seq<Entry>, es: seq<Entry>): (r: seq<Entry>)
    requires Slotted(slots) && Short(es)
    ensures Slotted(r)
    ensures forall j :: 0 <= j < MAX_SUBDIRS ==> r[j] == if j < |es| then Copied(slots[j], es[j]) else slots[j]
  {
    if es == [] then slots
    else
      var k := |es| - 1;
      Overlay(slots, es[..k])[k := Copied(slots[k], es[k])]
  }

  /** The inode of the first entry with this name, or 0. */
  function Lookup(es: seq<Entry>, name: seq<byte>): nat {
    if es == [] then 0 else if CString(es[0].name) == name then es[0].ino else Lookup(es[1..], name)
  }

  /** What a walk sees under a name: it compares with what the slots hold. */
  function Seen(slots: seq<Entry>, es: seq<Entry>, name: seq<byte>): nat
    requires Slotted(slots) && Short(es)
  {
    Lookup(Overlay(slots, es)[..|es|], name)
  }

  /** A slot reads as its new name exactly when that contains its own end, or the byte left behind it is 0. */
  lemma {:induction false} SlotReadsIff(slot: seq<byte>, name: seq<byte>)
    requires |name| < |slot|
    ensures CString(Splice(slot, 0, name)) == CString(name) <==> 0 in name || slot[|name|] == 0
    decreases |name|
  {
    var r := Splice(slot, 0, name);
    if name == [] {
      assert r == slot;
    } else {
      assert r[0] == name[0] && r[1..] == Splice(slot[1..], 0, name[1..]);
      assert slot[1..][|name| - 1] == slot[|name|];
      if name[0] != 0 {
        SlotReadsIff(slot[1..], name[1..]);
        assert CString(r)[1..] == CString(r[1..]) && CString(name)[1..] == CString(name[1..]);
        assert 0 in name <==> 0 in name[1..];
      }
    }
  }

  /** In a cleared array every name is read as it is. */
  lemma FreshSees(es: seq<Entry>, name: seq<byte>)
    requires Short(es)
    ensures Seen(Fresh(), es, name) == Lookup(es, name)
  {
    hide CString, Fresh;
    forall j | 0 <= j < |es|
      ensures CString(Overlay(Fresh(), es)[j].name) == CString(es[j].name)
    {
      SlotReadsIff(EMPTY.name, es[j].name);
    }
    SameNames(Overlay(Fresh(), es)[..|es|], es, name);
  }

  /** Lookup depends on the names as they read, and on the inode numbers. */
  lemma {:induction false} SameNames(a: seq<Entry>, b: seq<Entry>, name: seq<byte>)
    requires |a| == |b|
    requires forall j :: 0 <= j < |a| ==> a[j].ino == b[j].ino && CString(a[j].name) == CString(b[j].name)
    ensures Lookup(a, name) == Lookup(b, name)
  {
    hide CString;
    if a != [] {
      SameNames(a[1..], b[1..], name);
    }
  }

  /** The array after a walk has listed the directories with these listings, one after the other. */
  function Pile(ls: seq<seq<Entry>>): (r: seq<Entry>)
    requires forall i :: 0 <= i < |ls| ==> Short(ls[i])
    ensures Slotted(r)
  {
    if ls == [] then Fresh() else Overlay(Pile(ls[..|ls| - 1]), ls[|ls| - 1])
  }

  /** The longest name that one of the listings had in slot `j` reaches beyond position `p`. */
  predicate Reached(ls: seq<seq<Entry>>, j: nat, p: nat) {
    exists i :: 0 <= i < |ls| && j < |ls[i]| && p < |ls[i][j].name|
  }

  /** A byte of a slot is left over exactly when a directory listed before had, at the same place in its
      listing, a name that reaches there. */
  lemma {:induction false} LeftoverIff(ls: seq<seq<Entry>>, j: nat, p: nat)
    requires forall i :: 0 <= i < |ls| ==> Short(ls[i]) && forall k :: 0 <= k < |ls[i]| ==> NoNul(ls[i][k].name)
    requires j < MAX_SUBDIRS && p < SLOT_LEN
    ensures Pile(ls)[j].name[p] != 0 <==> Reached(ls, j, p)
    decreases |ls|
  {
    if ls != [] {
      var init, l := ls[..|ls| - 1], ls[|ls| - 1];
      LeftoverIff(init, j, p);
      hide Pile, Fresh, NoNul, Reached;
      PileStep(ls);
      ReachedStep(ls, j, p);
      if j < |l| && p < |l[j].name| {
        NameByte(l[j].name, p);
      }
    }
  }

  lemma ReachedStep(ls: seq<seq<Entry>>, j: nat, p: nat)
    requires ls != []
    ensures var l := ls[|ls| - 1];
      Reached(ls, j, p) <==> Reached(ls[..|ls| - 1], j, p) || (j < |l| && p < |l[j].name|)
  {
    var init := ls[..|ls| - 1];
    if Reached(init, j, p) {
      var i :| 0 <= i < |init| && j < |init[i]| && p < |init[i][j].name|;
      assert ls[i] == init[i];
    }
    if Reached(ls, j, p) {
      var i :| 0 <= i < |ls| && j < |ls[i]| && p < |ls[i][j].name|;
      assert i < |init| ==> init[i] == ls[i];
    }
  }

  lemma NameByte(name: seq<byte>, p: nat)
    requires NoNul(name) && p < |name|
    ensures name[p] != 0
  {
  }

  lemma PileStep(ls: seq<seq<Entry>>)
    requires ls != [] && forall i :: 0 <= i < |ls| ==> Short(ls[i])
    ensures Pile(ls) == Overlay(Pile(ls[..|ls| - 1]), ls[|ls| - 1])
  {
  }

  // Lookups.

  lemma {:induction false} LookupFirst(a: seq<Entry>, b: seq<Entry>, name: seq<byte>)
    requires forall i :: 0 <= i < |a| ==> a[i].ino != 0
    ensures Lookup(a + b, name) == if Lookup(a, name) != 0 then Lookup(a, name) else Lookup(b, name)
  {
    hide CString;
    if a == [] {
      assert a + b == b;
    } else {
      assert (a + b)[1..] == a[1..] + b;
      LookupFirst(a[1..], b, name);
    }
  }

  /** An entry between two lists: its name is found if it was not, other names are found as before. */
  lemma LookupBetween(a: seq<Entry>, e: Entry, b: seq<Entry>, name: seq<byte>)
    requires (forall i :: 0 <= i < |a| ==> a[i].ino != 0) && e.ino != 0
    ensures CString(e.name) != name ==> Lookup(a + [e] + b, name) == Lookup(a + b, name)
    ensures CString(e.name) == name && Lookup(a + b, name) == 0 ==> Lookup(a + [e] + b, name) == e.ino
  {
    hide CString;
    LookupFirst(a, b, name);
    LookupFirst(a, [e] + b, name);
    assert ([e] + b)[1..] == b;
    assert a + [e] + b == a + ([e] + b);
  }

  lemma {:induction false} LookupIn(es: seq<Entry>, name: seq<byte>)
    ensures Lookup(es, name) != 0 ==> exists j :: 0 <= j < |es| && es[j].ino == Lookup(es, name) && CString(es[j].name) == name
  {
    hide CString;
    if es != [] {
      LookupIn(es[1..], name);
      if Lookup(es[1..], name) != 0 {
        var j :| 0 <= j < |es[1..]| && es[1..][j].ino == Lookup(es[1..], name) && CString(es[1..][j].name) == name;
        assert es[j + 1] == es[1..][j];
      }
    }
  }

  /** Where the search through a listing stands: nothing found in the first `j` entries. */
  lemma {:induction false} LookupSkips(es: seq<Entry>, j: nat, name: seq<byte>)
    requires j <= |es| && forall i :: 0 <= i < j ==> CString(es[i].name) != name
    ensures Lookup(es, name) == Lookup(es[j..], name)
  {
    hide CString;
    if j > 0 {
      LookupSkips(es[1..], j - 1, name);
      assert es[1..][j - 1..] == es[j..];
    } else {
      assert es[j..] == es;
    }
  }

  lemma LookupHit(es: seq<Entry>, j: nat, name: seq<byte>)
    requires j < |es| && CString(es[j].name) == name && forall i :: 0 <= i < j ==> CString(es[i].name) != name
    ensures Lookup(es, name) == es[j].ino
  {
    LookupSkips(es, j, name);
  }

  lemma LookupMiss(es: seq<Entry>, name: seq<byte>)
    requires forall i :: 0 <= i < |es| ==> CString(es[i].name) != name
    ensures Lookup(es, name) == 0
  {
    LookupSkips(es, |es|, name);
  }

  /** The slot that a walk sees a name in. */
  lemma SeenIn(slots: seq<Entry>, es: seq<Entry>, name: seq<byte>)
    requires Slotted(slots) && Short(es)
    ensures Seen(slots, es, name) != 0 ==> exists j :: 0 <= j < |es| && es[j].ino == Seen(slots, es, name)
  {
    hide CString, Lookup;
    var seen := Overlay(slots, es)[..|es|];
    LookupIn(seen, name);
    if Seen(slots, es, name) != 0 {
      var j :| 0 <= j < |seen| && seen[j].ino == Lookup(seen, name);
      assert es[j].ino == seen[j].ino;
    }
  }
}
