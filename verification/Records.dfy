/** Directory blocks: variable-length records, how a listing reads them and how an entry is added. */
module Records {
  import opened Bytes
  import Paths

  const MAX_SUBDIRS: nat := 128

  /** What a listing keeps of a record; `name` is the bytes of the name, up to its stored length. */
  datatype Entry = Entry(ino: nat, ftype: byte, name: seq<byte>)

  function RecInode(b: Block, o: nat): nat requires o + 8 <= BLOCK_SIZE { U32(b, o) }
  function RecLen(b: Block, o: nat): nat requires o + 8 <= BLOCK_SIZE { U16(b, o + 4) }
  function NameLen(b: Block, o: nat): nat requires o + 8 <= BLOCK_SIZE { b[o + 6] }

  /** The record's header and name lie inside the block. */
  predicate Inside(b: Block, o: nat) {
    o + 8 <= BLOCK_SIZE && o + 8 + NameLen(b, o) <= BLOCK_SIZE
  }

  function EntryAt(b: Block, o: nat): (e: Entry)
    requires Inside(b, o)
    ensures |e.name| <= Paths.NAME_LEN
  {
    Entry(RecInode(b, o), b[o + 7], b[o + 8..o + 8 + NameLen(b, o)])
  }

  /** The records from offset `o` on: up to the end of the block, an inode number of 0, or `n`
      entries. Record lengths are arbitrary, even zero. */
  function Parse(b: Block, o: nat, n: nat): (r: seq<Entry>)
    ensures |r| <= n && forall i :: 0 <= i < |r| ==> |r[i].name| <= Paths.NAME_LEN
    decreases n
  {
    if n == 0 || !Inside(b, o) || RecInode(b, o) == 0 then []
    else [EntryAt(b, o)] + Parse(b, o + RecLen(b, o), n - 1)
  }

  /** All records that such a reading visits lie inside the block. */
  predicate Readable(b: Block, o: nat, n: nat)
    decreases n
  {
    n == 0 || o >= BLOCK_SIZE
    || (o + 8 <= BLOCK_SIZE
        && (RecInode(b, o) == 0 || (Inside(b, o) && Readable(b, o + RecLen(b, o), n - 1))))
  }

  /** From `o` on, records with nonzero inodes and room for their names tile the block exactly. */
  predicate Tiled(b: Block, o: nat)
    decreases BLOCK_SIZE - o
  {
    o == BLOCK_SIZE
    || (Inside(b, o) && RecInode(b, o) != 0
        && 8 + NameLen(b, o) <= RecLen(b, o) && RecLen(b, o) % 4 == 0
        && o + RecLen(b, o) <= BLOCK_SIZE && Tiled(b, o + RecLen(b, o)))
  }

  function LastOffset(b: Block, o: nat): (r: nat)
    requires o < BLOCK_SIZE && Tiled(b, o)
    ensures o <= r && Inside(b, r) && r + RecLen(b, r) == BLOCK_SIZE
    ensures Tiled(b, r)
    ensures r == o || o + RecLen(b, o) <= r
    decreases BLOCK_SIZE - o
  {
    if o + RecLen(b, o) == BLOCK_SIZE then o else LastOffset(b, o + RecLen(b, o))
  }

  function Count(b: Block, o: nat): nat
    requires Tiled(b, o)
    decreases BLOCK_SIZE - o
  {
    if o == BLOCK_SIZE then 0 else 1 + Count(b, o + RecLen(b, o))
  }

  /** The record size for a name, rounded up to a multiple of 4. */
  function RecSize(name: seq<byte>): nat {
    (8 + |name| + 3) / 4 * 4
  }

  /** Where the new record goes: the last record, at `o`, is given length `o + RecSize`. */
  function NewOffset(o: nat, name: seq<byte>): nat {
    2 * o + RecSize(name)
  }

  /** The new record lies inside the block buffer. */
  predicate Fits(o: nat, name: seq<byte>) {
    NewOffset(o, name) + 8 + |name| <= BLOCK_SIZE
  }

  /** The stores that create a record at `q`. */
  function PutRecord(b: Block, q: nat, ino: nat, len: nat, name: seq<byte>): (r: Block)
    requires q + 8 + |name| <= BLOCK_SIZE
    ensures forall i :: 0 <= i < BLOCK_SIZE && !(q <= i < q + 8 + |name|) ==> r[i] == b[i]
  {
    var b1 := PutU32(b, q, ino);
    var b2 := PutU16(b1, q + 4, len);
    Splice(b2[q + 6 := |name| % 256][q + 7 := 0], q + 8, name)
  }

  /** The stores of `ext2_add_dir_entry` once the last record is found at `o`. */
  function Insert(b: Block, o: nat, ino: nat, name: seq<byte>): Block
    requires o + 8 <= BLOCK_SIZE && Fits(o, name)
  {
    assert o + RecSize(name) < 0x1_0000;
    var len := o + RecSize(name);
    PutRecord(PutU16(b, o + 4, len), NewOffset(o, name), ino,
              (RecLen(b, o) + 0x1_0000 - len) % 0x1_0000, name)
  }

  /** The scan for the last record; `j` counts the records passed. */
  function FindLast(b: Block, o: nat, j: nat): (r: int)
    ensures r >= 0 ==> o <= r && r + 8 <= BLOCK_SIZE && r + RecLen(b, r) >= BLOCK_SIZE
    decreases MAX_SUBDIRS - j
  {
    if j >= MAX_SUBDIRS || o + 8 > BLOCK_SIZE then -1
    else if o + RecLen(b, o) >= BLOCK_SIZE then o
    else FindLast(b, o + RecLen(b, o), j + 1)
  }

  lemma {:induction false} FindLastTiled(b: Block, o: nat, j: nat)
    requires o < BLOCK_SIZE && Tiled(b, o)
    ensures FindLast(b, o, j) == if j + Count(b, o) <= MAX_SUBDIRS then LastOffset(b, o) else -1
    decreases BLOCK_SIZE - o
  {
    if j < MAX_SUBDIRS && o + RecLen(b, o) < BLOCK_SIZE {
      FindLastTiled(b, o + RecLen(b, o), j + 1);
    }
  }

  lemma {:induction false} ParseTiled(b: Block, o: nat, n: nat)
    requires Tiled(b, o)
    ensures |Parse(b, o, n)| == if Count(b, o) <= n then Count(b, o) else n
    decreases BLOCK_SIZE - o
  {
    hide EntryAt, U16, U32;
    if n > 0 && o < BLOCK_SIZE {
      ParseTiled(b, o + RecLen(b, o), n - 1);
    }
  }

  lemma {:induction false} ReadableTiled(b: Block, o: nat, n: nat)
    requires Tiled(b, o)
    ensures Readable(b, o, n)
    decreases BLOCK_SIZE - o
  {
    hide U32, U16;
    if n > 0 && o < BLOCK_SIZE {
      ReadableTiled(b, o + RecLen(b, o), n - 1);
    }
  }

  lemma PutRecordFields(b: Block, q: nat, ino: nat, len: nat, name: seq<byte>)
    requires q + 8 + |name| <= BLOCK_SIZE && |name| < 256 && ino < 0x1_0000_0000 && len < 0x1_0000
    ensures var r := PutRecord(b, q, ino, len, name);
      && RecInode(r, q) == ino && RecLen(r, q) == len && NameLen(r, q) == |name| && r[q + 7] == 0
      && r[q + 8..q + 8 + |name|] == name
  {
    var b1 := PutU32(b, q, ino);
    var b2 := PutU16(b1, q + 4, len);
    var b3 := b2[q + 6 := |name| % 256][q + 7 := 0];
    var r := PutRecord(b, q, ino, len, name);
    assert r == Splice(b3, q + 8, name);
    PutGet32(b, q, ino);
    PutGet16(b1, q + 4, len);
    SpliceHit(b3, q + 8, name);
    hide PutU16, PutU32, PutRecord, Splice;
    SameU32(b1, r, q);
    SameU16(b2, r, q + 4);
  }

  /** What the stores leave: the shortened last record, the new record, and all other bytes below. */
  lemma InsertBytes(b: Block, o: nat, ino: nat, name: seq<byte>)
    requires o + 8 <= BLOCK_SIZE && Fits(o, name) && |name| < 256 && ino < 0x1_0000_0000
    ensures var r, q, s := Insert(b, o, ino, name), NewOffset(o, name), RecSize(name);
      && q == 2 * o + s
      && (forall i :: 0 <= i < q && i != o + 4 && i != o + 5 ==> r[i] == b[i])
      && RecLen(r, o) == o + s
      && RecInode(r, q) == ino && NameLen(r, q) == |name| && r[q + 7] == 0
      && RecLen(r, q) == (RecLen(b, o) + 0x1_0000 - (o + s)) % 0x1_0000
      && r[q + 8..q + 8 + |name|] == name
  {
    hide PutU16, U16, U32, PutRecord;
    var len, q := o + RecSize(name), NewOffset(o, name);
    var b1 := PutU16(b, o + 4, len);
    var v := (RecLen(b, o) + 0x1_0000 - len) % 0x1_0000;
    var r := Insert(b, o, ino, name);
    assert r == PutRecord(b1, q, ino, v, name);
    PutGet16(b, o + 4, len);
    PutRecordFields(b1, q, ino, v, name);
    SameU16(b1, r, o + 4);
  }

  /** Two blocks that agree on a record's header and name hold the same entry there. */
  lemma SameEntry(b: Block, r: Block, x: nat)
    requires Inside(b, x)
    requires forall i :: x <= i < x + 8 + NameLen(b, x) && i != x + 4 && i != x + 5 ==> r[i] == b[i]
    ensures NameLen(r, x) == NameLen(b, x) && RecInode(r, x) == RecInode(b, x)
    ensures EntryAt(r, x) == EntryAt(b, x)
  {
    SameU32(b[x..x + 4], r[x..x + 4], 0);
    assert b[x + 8..x + 8 + NameLen(b, x)] == r[x + 8..x + 8 + NameLen(b, x)];
  }

  lemma SameLen(b: Block, r: Block, x: nat)
    requires x + 8 <= BLOCK_SIZE && r[x + 4] == b[x + 4] && r[x + 5] == b[x + 5]
    ensures RecLen(r, x) == RecLen(b, x)
  {
  }

  /** `r` differs from `b` below `q` only in the length of the record at `o`, which now ends at `q`. */
  ghost predicate Relinked(b: Block, r: Block, o: nat, q: nat) {
    && o + 8 <= q && o + 8 <= BLOCK_SIZE && q <= BLOCK_SIZE
    && (forall i :: 0 <= i < q && i != o + 4 && i != o + 5 ==> r[i] == b[i])
    && o + RecLen(r, o) == q
  }

  /** From any record up to the last one, the relinked block is tiled exactly when the shortened record
      still covers its name and the rest of the block is tiled from `q` on. */
  lemma {:induction false} RelinkedTiled(b: Block, r: Block, x: nat, o: nat, q: nat)
    requires x < BLOCK_SIZE && Tiled(b, x) && LastOffset(b, x) == o
    requires Relinked(b, r, o, q) && o % 4 == 0 && q % 4 == 0
    ensures Tiled(r, x) <==> (8 + NameLen(b, o) <= q - o && Tiled(r, q))
    decreases BLOCK_SIZE - x
  {
    hide EntryAt, U16, U32;
    if x < o {
      SameEntry(b, r, x);
      SameLen(b, r, x);
      RelinkedTiled(b, r, x + RecLen(b, x), o, q);
    } else if 8 + NameLen(b, o) <= q - o {
      SameEntry(b, r, o);
    } else {
      assert NameLen(r, o) == NameLen(b, o);
    }
  }

  /** What is left of a reading of `n` entries after `c` of them. */
  function Rest(r: Block, q: nat, n: nat, c: nat): seq<Entry> {
    if n > c then Parse(r, q, n - c) else []
  }

  /** Reading the relinked block gives the old entries and then what is at `q`. */
  lemma {:induction false} RelinkedParse(b: Block, r: Block, x: nat, o: nat, q: nat, n: nat)
    requires x < BLOCK_SIZE && Tiled(b, x) && LastOffset(b, x) == o
    requires Relinked(b, r, o, q) && 8 + NameLen(b, o) <= q - o
    ensures Parse(r, x, n) == Parse(b, x, n) + Rest(r, q, n, Count(b, x))
    decreases BLOCK_SIZE - x
  {
    hide EntryAt, U16, U32, Parse, Rest;
    if n == 0 {
      NothingLeft(b, r, x, q, Count(b, x));
    } else if x < o {
      SameEntry(b, r, x);
      SameLen(b, r, x);
      RelinkedParse(b, r, x + RecLen(b, x), o, q, n - 1);
      ParseStep(b, x, n);
      ParseStep(r, x, n);
      RestShift(r, q, n, Count(b, x));
      hide Tiled, LastOffset, Relinked;
      Assoc([EntryAt(b, x)], Parse(b, x + RecLen(b, x), n - 1), Rest(r, q, n, Count(b, x)));
    } else {
      SameEntry(b, r, o);
      ParseStep(b, o, n);
      ParseStep(r, o, n);
      ParseEnd(b, n - 1);
      RestOne(r, q, n);
    }
  }

  lemma Assoc<T>(a: seq<T>, b: seq<T>, c: seq<T>)
    ensures a + (b + c) == a + b + c
  {
  }

  lemma NothingLeft(b: Block, r: Block, x: nat, q: nat, c: nat)
    ensures Parse(b, x, 0) == Parse(r, x, 0) == [] && Rest(r, q, 0, c) == []
  {
  }

  lemma ParseEnd(b: Block, n: nat)
    ensures Parse(b, BLOCK_SIZE, n) == []
  {
  }

  lemma RestOne(r: Block, q: nat, n: nat)
    requires n > 0
    ensures Rest(r, q, n, 1) == Parse(r, q, n - 1)
  {
  }

  lemma ParseStep(b: Block, x: nat, n: nat)
    requires n > 0 && Inside(b, x) && RecInode(b, x) != 0
    ensures Parse(b, x, n) == [EntryAt(b, x)] + Parse(b, x + RecLen(b, x), n - 1)
  {
  }

  lemma RestShift(r: Block, q: nat, n: nat, c: nat)
    requires n > 0 && c > 0
    ensures Rest(r, q, n - 1, c - 1) == Rest(r, q, n, c)
  {
  }

  lemma {:induction false} LastAligned(b: Block, x: nat)
    requires x < BLOCK_SIZE && Tiled(b, x) && x % 4 == 0
    ensures LastOffset(b, x) % 4 == 0
    decreases BLOCK_SIZE - x
  {
    hide U16, U32;
    if x + RecLen(b, x) < BLOCK_SIZE {
      LastAligned(b, x + RecLen(b, x));
    }
  }

  lemma RecSizeFacts(name: seq<byte>)
    ensures RecSize(name) % 4 == 0 && 8 + |name| <= RecSize(name) <= 8 + |name| + 3
  {
  }

  /** A record that reaches the end of the block is a tiling of the rest of it. */
  lemma TailRecord(r: Block, q: nat, ino: nat, name: seq<byte>)
    requires q + 8 + |name| <= BLOCK_SIZE && q % 4 == 0 && ino != 0
    requires RecInode(r, q) == ino && NameLen(r, q) == |name| && r[q + 7] == 0
    requires r[q + 8..q + 8 + |name|] == name && q + RecLen(r, q) == BLOCK_SIZE
    ensures Tiled(r, q) && EntryAt(r, q) == Entry(ino, 0, name)
  {
    hide U16, U32;
    assert Tiled(r, BLOCK_SIZE);
  }

  lemma NewOffsetAligned(o: nat, name: seq<byte>)
    requires o % 4 == 0
    ensures NewOffset(o, name) % 4 == 0 && NewOffset(o, name) == o + (o + RecSize(name))
    ensures o + 8 + |name| <= NewOffset(o, name)
  {
    hide RecSize;
    RecSizeFacts(name);
    TwiceAndMore(o, RecSize(name));
  }

  lemma TwiceAndMore(o: nat, s: nat)
    requires o % 4 == 0 && s % 4 == 0
    ensures (2 * o + s) % 4 == 0
  {
  }

  lemma InsertRelinks(b: Block, o: nat, ino: nat, name: seq<byte>)
    requires Tiled(b, 0) && o == LastOffset(b, 0)
    requires Fits(o, name) && |name| <= Paths.NAME_LEN && 0 < ino < 0x1_0000_0000
    ensures Relinked(b, Insert(b, o, ino, name), o, NewOffset(o, name))
    ensures o % 4 == 0 && NewOffset(o, name) % 4 == 0
  {
    LastAligned(b, 0);
    NewOffsetAligned(o, name);
    InsertBytes(b, o, ino, name);
    assert NewOffset(o, name) <= BLOCK_SIZE;
    hide Tiled, LastOffset, RecSize, NewOffset, Fits, Insert, U16, U32;
  }

  lemma InsertTail(b: Block, o: nat, ino: nat, name: seq<byte>)
    requires Tiled(b, 0) && o == LastOffset(b, 0)
    requires Fits(o, name) && |name| <= Paths.NAME_LEN && 0 < ino < 0x1_0000_0000
    requires NewOffset(o, name) % 4 == 0
    ensures var r, q := Insert(b, o, ino, name), NewOffset(o, name);
      && Tiled(r, q) && q + RecLen(r, q) == BLOCK_SIZE && EntryAt(r, q) == Entry(ino, 0, name)
  {
    hide U16, U32, Insert, PutRecord, EntryAt;
    InsertBytes(b, o, ino, name);
    assert RecLen(b, o) == BLOCK_SIZE - o;
    hide Tiled, LastOffset, RecSize;
    TailRecord(Insert(b, o, ino, name), NewOffset(o, name), ino, name);
  }

  /** Directory insertion, exactly: on a tiled block with room for the new record, the block stays
      tiled if and only if the length given to the old last record still covers that record. */
  lemma InsertTiled(b: Block, ino: nat, name: seq<byte>)
    requires Tiled(b, 0) && Fits(LastOffset(b, 0), name)
    requires |name| <= Paths.NAME_LEN && 0 < ino < 0x1_0000_0000
    ensures var o := LastOffset(b, 0);
      Tiled(Insert(b, o, ino, name), 0) <==> 8 + NameLen(b, o) <= o + RecSize(name)
  {
    hide U16, U32, Insert, PutRecord, EntryAt;
    var o := LastOffset(b, 0);
    InsertRelinks(b, o, ino, name);
    InsertTail(b, o, ino, name);
    RelinkedTiled(b, Insert(b, o, ino, name), 0, o, NewOffset(o, name));
  }

  /** ... and reading the block then gives the old entries in order followed by the new one. */
  lemma InsertListed(b: Block, ino: nat, name: seq<byte>, n: nat)
    requires Tiled(b, 0) && Fits(LastOffset(b, 0), name)
    requires |name| <= Paths.NAME_LEN && 0 < ino < 0x1_0000_0000
    requires 8 + NameLen(b, LastOffset(b, 0)) <= LastOffset(b, 0) + RecSize(name)
    ensures Parse(Insert(b, LastOffset(b, 0), ino, name), 0, n)
         == Parse(b, 0, n) + if n > Count(b, 0) then [Entry(ino, 0, name)] else []
  {
    hide U16, U32, Insert, PutRecord, EntryAt, Parse, RecSize;
    var o := LastOffset(b, 0);
    NewOffsetAligned(o, name);
    var r, q := Insert(b, o, ino, name), NewOffset(o, name);
    InsertRelinks(b, o, ino, name);
    InsertTail(b, o, ino, name);
    RelinkedParse(b, r, 0, o, q, n);
    if n > Count(b, 0) {
      ParseStep(r, q, n - Count(b, 0));
      ParseEnd(r, n - Count(b, 0) - 1);
    }
  }

  /** After an insertion the new record is the last one, at twice the old last offset and more. */
  lemma {:induction false} RelinkedLast(b: Block, r: Block, x: nat, o: nat, q: nat)
    requires x < BLOCK_SIZE && Tiled(b, x) && LastOffset(b, x) == o && Tiled(r, x)
    requires Relinked(b, r, o, q) && q < BLOCK_SIZE && 8 + NameLen(b, o) <= q - o
    requires Tiled(r, q) && q + RecLen(r, q) == BLOCK_SIZE
    ensures LastOffset(r, x) == q && Count(r, x) == Count(b, x) + 1
    decreases BLOCK_SIZE - x
  {
    hide EntryAt, U16, U32, LastOffset, Count, Tiled;
    LastStep(b, x);
    LastStep(r, x);
    if x < o {
      SameLen(b, r, x);
      RelinkedLast(b, r, x + RecLen(b, x), o, q);
    } else {
      LastStep(r, q);
    }
  }

  /** One step along the records: the last one ends the block, the others have the same last record. */
  lemma LastStep(b: Block, x: nat)
    requires x < BLOCK_SIZE && Tiled(b, x)
    ensures x + 8 <= BLOCK_SIZE && RecLen(b, x) >= 8 && x + RecLen(b, x) <= BLOCK_SIZE
    ensures var y := x + RecLen(b, x);
      if y == BLOCK_SIZE then LastOffset(b, x) == x && Count(b, x) == 1
      else Tiled(b, y) && LastOffset(b, x) == LastOffset(b, y) >= y && Count(b, x) == 1 + Count(b, y)
  {
    hide U16, U32;
    if x + RecLen(b, x) == BLOCK_SIZE {
      assert Count(b, BLOCK_SIZE) == 0;
    }
  }

  lemma InsertMovesLast(b: Block, ino: nat, name: seq<byte>)
    requires Tiled(b, 0) && Fits(LastOffset(b, 0), name)
    requires |name| <= Paths.NAME_LEN && 0 < ino < 0x1_0000_0000
    requires Tiled(Insert(b, LastOffset(b, 0), ino, name), 0)
    ensures var o, r := LastOffset(b, 0), Insert(b, LastOffset(b, 0), ino, name);
      LastOffset(r, 0) == 2 * o + RecSize(name) && Count(r, 0) == Count(b, 0) + 1
  {
    hide U16, U32, Insert, PutRecord, EntryAt;
    var o := LastOffset(b, 0);
    InsertTiled(b, ino, name);
    InsertRelinks(b, o, ino, name);
    InsertTail(b, o, ino, name);
    RelinkedLast(b, Insert(b, o, ino, name), 0, o, NewOffset(o, name));
  }

  // Insertion into a block whose last record may be damaged by it.

  /** The scan for the last record stays inside the block, and the headers it passes do not overlap. */
  predicate Spaced(b: Block, o: nat, j: nat)
    decreases MAX_SUBDIRS - j
  {
    j >= MAX_SUBDIRS
    || (o + 8 <= BLOCK_SIZE
        && (o + RecLen(b, o) >= BLOCK_SIZE || (RecLen(b, o) >= 8 && Spaced(b, o + RecLen(b, o), j + 1))))
  }

  lemma {:induction false} TiledSpaced(b: Block, o: nat, j: nat)
    requires o < BLOCK_SIZE && Tiled(b, o)
    ensures Spaced(b, o, j)
    decreases BLOCK_SIZE - o
  {
    hide U16, U32;
    if j < MAX_SUBDIRS && o + RecLen(b, o) < BLOCK_SIZE {
      TiledSpaced(b, o + RecLen(b, o), j + 1);
    }
  }

  /** `p` is the listing `l` of a block after an insertion: the old inode numbers in order, and the new one
      behind them unless the reading ended before it. */
  ghost predicate Appended(l: seq<Entry>, p: seq<Entry>, ino: nat) {
    && |l| <= |p| <= |l| + 1
    && forall i :: 0 <= i < |p| ==> p[i].ino == if i < |l| then l[i].ino else ino
  }

  /** The headers of the old records after an insertion. */
  lemma InsertHeaders(b: Block, o: nat, ino: nat, name: seq<byte>, x: nat)
    requires o + 8 <= BLOCK_SIZE && Fits(o, name) && |name| < 256 && ino < 0x1_0000_0000
    requires x + 8 <= BLOCK_SIZE && (x == o || x + 8 <= o)
    ensures var r := Insert(b, o, ino, name);
      && RecInode(r, x) == RecInode(b, x) && NameLen(r, x) == NameLen(b, x) && r[x + 7] == b[x + 7]
      && RecLen(r, x) == (if x == o then o + RecSize(name) else RecLen(b, x))
  {
    hide U16, U32, Insert;
    InsertBytes(b, o, ino, name);
    RecSizeFacts(name);
    hide RecSize;
    SameHeader(b, Insert(b, o, ino, name), x, o);
  }

  /** Whether or not the last record is damaged, reading the block stays inside it, and gives the old inode
      numbers in order and then the new one. */
  lemma {:induction false} InsertReads(b: Block, x: nat, j: nat, o: nat, ino: nat, name: seq<byte>, n: nat)
    requires Spaced(b, x, j) && FindLast(b, x, j) == o && Fits(o, name)
    requires |name| <= Paths.NAME_LEN && 0 < ino < 0x1_0000_0000 && Readable(b, x, n)
    ensures Readable(Insert(b, o, ino, name), x, n)
    ensures Appended(Parse(b, x, n), Parse(Insert(b, o, ino, name), x, n), ino)
    decreases MAX_SUBDIRS - j
  {
    hide U16, U32, Insert, Fits, Parse, Readable, EntryAt, RecSize;
    RecSizeFacts(name);
    InsertHeaders(b, o, ino, name, x);
    var r := Insert(b, o, ino, name);
    ReadStep(b, x, n);
    ReadStep(r, x, n);
    if n > 0 && RecInode(b, x) != 0 {
      EntryInos(b, r, x);
      if x + RecLen(b, x) < BLOCK_SIZE {
        InsertReads(b, x + RecLen(b, x), j + 1, o, ino, name, n - 1);
      } else {
        LastReads(b, o, ino, name, n - 1);
        ReadStep(b, x + RecLen(b, x), n - 1);
      }
    }
  }

  /** One record of a reading. */
  lemma ReadStep(b: Block, x: nat, n: nat)
    ensures n == 0 || x >= BLOCK_SIZE ==> Readable(b, x, n) && Parse(b, x, n) == []
    ensures n > 0 && x < BLOCK_SIZE && Readable(b, x, n) ==> x + 8 <= BLOCK_SIZE
    ensures n > 0 && x + 8 <= BLOCK_SIZE && RecInode(b, x) == 0 ==> Readable(b, x, n) && Parse(b, x, n) == []
    ensures n > 0 && x + 8 <= BLOCK_SIZE && RecInode(b, x) != 0 ==>
      && (Readable(b, x, n) <==> Inside(b, x) && Readable(b, x + RecLen(b, x), n - 1))
      && (Inside(b, x) ==> Parse(b, x, n) == [EntryAt(b, x)] + Parse(b, x + RecLen(b, x), n - 1))
  {
    hide U16, U32;
  }

  lemma EntryInos(b: Block, r: Block, x: nat)
    requires Inside(b, x) && Inside(r, x) && RecInode(b, x) == RecInode(r, x)
    ensures EntryAt(b, x).ino == EntryAt(r, x).ino
  {
    hide U32;
  }

  lemma SameHeader(b: Block, r: Block, x: nat, o: nat)
    requires x + 8 <= BLOCK_SIZE && (x == o || x + 8 <= o)
    requires forall i :: 0 <= i < o + 8 && i < BLOCK_SIZE && i != o + 4 && i != o + 5 ==> r[i] == b[i]
    ensures RecInode(r, x) == RecInode(b, x) && NameLen(r, x) == NameLen(b, x)
    ensures x != o ==> RecLen(r, x) == RecLen(b, x)
  {
  }

  /** What is read behind the shortened record: the new entry, and nothing more. */
  lemma LastReads(b: Block, o: nat, ino: nat, name: seq<byte>, n: nat)
    requires o + 8 <= BLOCK_SIZE <= o + RecLen(b, o) && Fits(o, name)
    requires |name| <= Paths.NAME_LEN && 0 < ino < 0x1_0000_0000
    ensures var r, q := Insert(b, o, ino, name), NewOffset(o, name);
      && Readable(r, q, n) && |Parse(r, q, n)| <= 1 && forall e :: e in Parse(r, q, n) ==> e.ino == ino
  {
    hide U16, U32, Insert;
    InsertBytes(b, o, ino, name);
    RecSizeFacts(name);
  }

  // What a damaged record reads as.

  /** Byte `k` of a stored record. */
  function RecordByte(ino: nat, len: nat, name: seq<byte>, k: nat): byte
    requires k < 8 + |name|
  {
    if k == 0 then ino % 256 else if k == 1 then ino / 256 % 256
    else if k == 2 then ino / 65536 % 256 else if k == 3 then ino / 16777216 % 256
    else if k == 4 then len % 256 else if k == 5 then len / 256 % 256
    else if k == 6 then |name| % 256 else if k == 7 then 0 else name[k - 8]
  }

  /** Byte `i` of a block behind byte `o + 5` after the insertion of a record behind the last one, at `o`. */
  function InsertedByte(b: Block, o: nat, ino: nat, name: seq<byte>, i: nat): byte
    requires o + 8 <= BLOCK_SIZE && Fits(o, name) && i < BLOCK_SIZE
  {
    var q := NewOffset(o, name);
    if q <= i < q + 8 + |name|
    then RecordByte(ino, (RecLen(b, o) + 0x1_0000 - (o + RecSize(name))) % 0x1_0000, name, i - q) else b[i]
  }

  lemma InsertIs(b: Block, o: nat, ino: nat, name: seq<byte>, i: nat)
    requires o + 8 <= BLOCK_SIZE && Fits(o, name) && i < BLOCK_SIZE && i != o + 4 && i != o + 5
    ensures Insert(b, o, ino, name)[i] == InsertedByte(b, o, ino, name, i)
  {
    hide RecSize, U16;
  }

  /** The name of the old last record after the insertion: its own bytes, from the new record's offset on the
      new record's header and name. */
  function Misread(b: Block, o: nat, ino: nat, name: seq<byte>): (r: seq<byte>)
    requires Inside(b, o) && Fits(o, name)
    ensures |r| == NameLen(b, o)
    ensures forall k :: 0 <= k < |r| ==> r[k] == InsertedByte(b, o, ino, name, o + 8 + k)
  {
    seq<byte>(NameLen(b, o), k requires 0 <= k < NameLen(b, o) => InsertedByte(b, o, ino, name, o + 8 + k))
  }

  /** It is the old name exactly as far as the shortened record covers it. */
  lemma MisreadKeeps(b: Block, o: nat, ino: nat, name: seq<byte>)
    requires Inside(b, o) && Fits(o, name)
    ensures var c := o + RecSize(name);
      forall k :: 0 <= k < NameLen(b, o) && 8 + k < c ==> Misread(b, o, ino, name)[k] == b[o + 8 + k]
    ensures 8 + NameLen(b, o) <= o + RecSize(name) ==> Misread(b, o, ino, name) == EntryAt(b, o).name
  {
    hide RecSize, U16, U32;
  }

  lemma LastMisread(b: Block, o: nat, ino: nat, name: seq<byte>)
    requires Inside(b, o) && Fits(o, name) && |name| < 256 && ino < 0x1_0000_0000
    ensures var r := Insert(b, o, ino, name);
      Inside(r, o) && EntryAt(r, o) == Entry(RecInode(b, o), b[o + 7], Misread(b, o, ino, name))
  {
    hide Insert, RecSize, U16, U32, InsertedByte, Misread, Fits, NewOffset;
    InsertHeaders(b, o, ino, name, o);
    var r, m := Insert(b, o, ino, name), Misread(b, o, ino, name);
    forall k | 0 <= k < |m|
      ensures EntryAt(r, o).name[k] == m[k]
    {
      InsertIs(b, o, ino, name, o + 8 + k);
    }
  }

  /** A list with entry `i` replaced, if it has one. */
  function Swapped(es: seq<Entry>, i: int, e: Entry): (r: seq<Entry>)
    requires 0 <= i
    ensures |r| == |es|
  {
    if i < |es| then es[i := e] else es
  }

  /** Reading the relinked block, whether or not the record at `o` still covers its name. */
  lemma {:induction false} RelinkedSwaps(b: Block, r: Block, x: nat, o: nat, q: nat, n: nat)
    requires x < BLOCK_SIZE && Tiled(b, x) && LastOffset(b, x) == o && Relinked(b, r, o, q) && Inside(r, o)
    ensures Count(b, x) > 0
    ensures Parse(r, x, n) == Swapped(Parse(b, x, n), Count(b, x) - 1, EntryAt(r, o)) + Rest(r, q, n, Count(b, x))
    decreases BLOCK_SIZE - x
  {
    hide EntryAt, U16, U32, Parse, Rest;
    LastStep(b, x);
    if n == 0 {
      NothingLeft(b, r, x, q, Count(b, x));
    } else if x < o {
      SameEntry(b, r, x);
      SameLen(b, r, x);
      RelinkedSwaps(b, r, x + RecLen(b, x), o, q, n - 1);
      RelinkedStep(b, r, x, o, q, n);
    } else {
      SameHeader(b, r, o, o);
      ParseStep(b, o, n);
      ParseStep(r, o, n);
      ParseEnd(b, n - 1);
      RestOne(r, q, n);
    }
  }

  /** ... from the records behind the first one. */
  lemma RelinkedStep(b: Block, r: Block, x: nat, o: nat, q: nat, n: nat)
    requires x < BLOCK_SIZE && Tiled(b, x) && x + RecLen(b, x) < BLOCK_SIZE && n > 0 && Inside(r, o)
    requires Inside(r, x) && EntryAt(r, x) == EntryAt(b, x) && RecLen(r, x) == RecLen(b, x)
    requires RecInode(r, x) == RecInode(b, x) && Count(b, x) >= 2
    requires Parse(r, x + RecLen(b, x), n - 1)
      == Swapped(Parse(b, x + RecLen(b, x), n - 1), Count(b, x) - 2, EntryAt(r, o)) + Rest(r, q, n - 1, Count(b, x) - 1)
    ensures Parse(r, x, n) == Swapped(Parse(b, x, n), Count(b, x) - 1, EntryAt(r, o)) + Rest(r, q, n, Count(b, x))
  {
    hide EntryAt, U16, U32, Parse, Rest, RecInode, RecLen, NameLen, Swapped;
    ParseStep(b, x, n);
    ParseStep(r, x, n);
    RestShift(r, q, n, Count(b, x));
    var p := Parse(b, x + RecLen(b, x), n - 1);
    SwapShift(EntryAt(b, x), p, Count(b, x) - 1, EntryAt(r, o));
    Assoc([EntryAt(b, x)], Swapped(p, Count(b, x) - 2, EntryAt(r, o)), Rest(r, q, n, Count(b, x)));
  }

  lemma SwapShift(a: Entry, es: seq<Entry>, i: int, e: Entry)
    requires i > 0
    ensures Swapped([a] + es, i, e) == [a] + Swapped(es, i - 1, e)
  {
  }

  /** Directory insertion in full: on a tiled block with room the listing afterwards is the old entries in
      order, the last of them under the name that its record now reads as, and the new one. */
  lemma InsertLists(b: Block, ino: nat, name: seq<byte>, n: nat)
    requires Tiled(b, 0) && Fits(LastOffset(b, 0), name)
    requires |name| <= Paths.NAME_LEN && 0 < ino < 0x1_0000_0000
    ensures var (o, c) := (LastOffset(b, 0), Count(b, 0));
      && c > 0
      && Parse(Insert(b, o, ino, name), 0, n)
         == Swapped(Parse(b, 0, n), c - 1, Entry(RecInode(b, o), b[o + 7], Misread(b, o, ino, name)))
            + if n > c then [Entry(ino, 0, name)] else []
  {
    hide U16, U32, Insert, PutRecord, EntryAt, Parse, RecSize, Misread;
    var o := LastOffset(b, 0);
    NewOffsetAligned(o, name);
    var r, q := Insert(b, o, ino, name), NewOffset(o, name);
    InsertRelinks(b, o, ino, name);
    InsertTail(b, o, ino, name);
    LastMisread(b, o, ino, name);
    RelinkedSwaps(b, r, 0, o, q, n);
    hide Swapped, Rest, Count, LastOffset, Tiled, NewOffset, Relinked;
    RestIsNew(r, q, n, Count(b, 0), Entry(ino, 0, name));
  }

  lemma RestIsNew(r: Block, q: nat, n: nat, c: nat, e: Entry)
    requires Tiled(r, q) && q < BLOCK_SIZE && q + RecLen(r, q) == BLOCK_SIZE && EntryAt(r, q) == e
    ensures Rest(r, q, n, c) == if n > c then [e] else []
  {
    hide U16, U32, EntryAt, Parse;
    if n > c {
      ParseStep(r, q, n - c);
      ParseEnd(r, n - c - 1);
    }
  }

  // How many names one block takes.

  /** The new record ends the block when the old one did. */
  lemma InsertEnd(b: Block, o: nat, ino: nat, name: seq<byte>)
    requires o + 8 <= BLOCK_SIZE && Fits(o, name) && |name| < 256 && ino < 0x1_0000_0000 && o + RecLen(b, o) >= BLOCK_SIZE
    ensures var r, q := Insert(b, o, ino, name), NewOffset(o, name); q + 8 <= BLOCK_SIZE <= q + RecLen(r, q)
  {
    hide U16, U32, Insert;
    InsertBytes(b, o, ino, name);
    RecSizeFacts(name);
    hide RecSize;
  }

  /** The last record after an insertion, tiled or not: it has moved, or the scan passes 128 records. */
  lemma {:induction false} FindLastMoves(b: Block, x: nat, j: nat, o: nat, ino: nat, name: seq<byte>)
    requires o + 8 <= BLOCK_SIZE && Fits(o, name) && Spaced(b, x, j) && FindLast(b, x, j) == o
    requires |name| <= Paths.NAME_LEN && 0 < ino < 0x1_0000_0000
    ensures var l := FindLast(Insert(b, o, ino, name), x, j); l == -1 || l == NewOffset(o, name)
    decreases MAX_SUBDIRS - j
  {
    hide U16, U32, Insert, RecSize;
    RecSizeFacts(name);
    InsertHeaders(b, o, ino, name, x);
    InsertEnd(b, o, ino, name);
    if x + RecLen(b, x) < BLOCK_SIZE {
      FindLastMoves(b, x + RecLen(b, x), j + 1, o, ino, name);
    }
  }

  /** The names are added to the block one after the other. */
  predicate TakesAll(b: Block, es: seq<Entry>)
    decreases |es|
  {
    es == []
    || var o := FindLast(b, 0, 0);
       && Spaced(b, 0, 0) && o >= 0 && 1 <= |es[0].name| <= Paths.NAME_LEN && 0 < es[0].ino < 0x1_0000_0000
       && Fits(o, es[0].name) && TakesAll(Insert(b, o, es[0].ino, es[0].name), es[1..])
  }

  /** The least offset of the last record after `k` insertions. */
  function Reach(o: nat, k: nat): nat
    decreases k
  {
    if k == 0 then o else Reach(2 * o + 12, k - 1)
  }

  lemma {:induction false} ReachGrows(o: nat, p: nat, k: nat, l: nat)
    requires o <= p && k <= l
    ensures Reach(o, k) <= Reach(p, l)
    decreases l
  {
    if l > k {
      ReachGrows(o, 2 * p + 12, k, l - 1);
    } else if k > 0 {
      ReachGrows(2 * o + 12, 2 * p + 12, k - 1, l - 1);
    }
  }

  lemma {:induction false} ReachBounds(b: Block, es: seq<Entry>)
    requires TakesAll(b, es) && es != []
    ensures FindLast(b, 0, 0) >= 0 && Reach(FindLast(b, 0, 0), |es|) + 9 <= BLOCK_SIZE
    decreases |es|
  {
    hide Spaced, Insert, FindLast, RecSize;
    var o, name := FindLast(b, 0, 0), es[0].name;
    var r := Insert(b, o, es[0].ino, name);
    RecSizeFacts(name);
    FindLastMoves(b, 0, 0, o, es[0].ino, name);
    if |es| > 1 {
      ReachBounds(r, es[1..]);
      ReachGrows(2 * o + 12, FindLast(r, 0, 0), |es| - 1, |es| - 1);
    }
  }

  /** However many bytes are free, one block takes at most eight names, and at most seven when its last record
      is not the first one: each insertion more than doubles the offset of the last record. */
  lemma TakesFew(b: Block, es: seq<Entry>)
    requires TakesAll(b, es)
    ensures |es| <= 8 && (FindLast(b, 0, 0) >= 12 ==> |es| <= 7)
  {
    hide TakesAll, FindLast;
    if es != [] {
      ReachBounds(b, es);
      ReachLimits(FindLast(b, 0, 0), |es|);
    }
  }

  lemma ReachLimits(o: nat, k: nat)
    ensures k >= 9 ==> Reach(o, k) >= 6132
    ensures k >= 8 && o >= 12 ==> Reach(o, k) >= 6132
  {
    ReachValues();
    ReachGrows(0, o, 9, if k < 9 then 9 else k);
    ReachGrows(12, if o < 12 then 12 else o, 8, if k < 8 then 8 else k);
    hide Reach;
  }

  lemma ReachValues()
    ensures Reach(0, 9) == 6132 == Reach(12, 8) && Reach(0, 8) == 3060 == Reach(12, 7)
  {
    assert Reach(180, 4) == 3060 && Reach(180, 5) == 6132;
    assert Reach(12, 7) == Reach(36, 6) == Reach(84, 5) == Reach(180, 4);
    assert Reach(12, 8) == Reach(36, 7) == Reach(84, 6) == Reach(180, 5);
  }

  /** The bound is reached: a tiled block takes names of one byte as long as the offsets fit. */
  lemma {:induction false} TakesMany(b: Block, es: seq<Entry>)
    requires Tiled(b, 0) && Count(b, 0) + |es| <= MAX_SUBDIRS && NameLen(b, LastOffset(b, 0)) <= 4
    requires forall i :: 0 <= i < |es| ==> |es[i].name| == 1 && 0 < es[i].ino < 0x1_0000_0000
    requires es != [] ==> Reach(LastOffset(b, 0), |es|) + 9 <= BLOCK_SIZE
    ensures TakesAll(b, es)
    decreases |es|
  {
    hide U16, U32, Insert, Tiled, Spaced, LastOffset, Count, FindLast;
    if es != [] {
      var o, ino, name := LastOffset(b, 0), es[0].ino, es[0].name;
      FindLastTiled(b, 0, 0);
      TiledSpaced(b, 0, 0);
      ReachGrows(2 * o + 12, 2 * o + 12, 0, |es| - 1);
      InsertTiled(b, ino, name);
      InsertMovesLast(b, ino, name);
      InsertBytes(b, o, ino, name);
      TakesMany(Insert(b, o, ino, name), es[1..]);
    }
  }
}
