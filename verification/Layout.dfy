/** Where every field lies, byte by byte and in plain arithmetic. The other modules read and write these
    images through named fields; here each of them is spelled out. */
module Layout {
  import opened Bytes
  import opened Arith
  import opened Bitmaps
  import opened Volume
  import opened Alloc
  import opened Records
  import opened Namespace
  import opened Files

  /** Little-endian numbers at an offset. */
  function Le2(b: seq<byte>, o: nat): nat
    requires o + 2 <= |b|
  {
    b[o] as int + 256 * (b[o + 1] as int)
  }

  function Le4(b: seq<byte>, o: nat): nat
    requires o + 4 <= |b|
  {
    b[o] as int + 256 * (b[o + 1] as int + 256 * (b[o + 2] as int + 256 * (b[o + 3] as int)))
  }

  lemma SuperblockLayout(sb: SbImage)
    ensures BlocksCount(sb) == Le4(sb, 4) && FreeBlocks(sb) == Le4(sb, 12) && FreeInodes(sb) == Le4(sb, 16)
    ensures BlocksPerGroup(sb) == Le4(sb, 32) && InodesPerGroup(sb) == Le4(sb, 40)
    ensures Magic(sb) == Le2(sb, 56) && InodeSize(sb) == Le2(sb, 88)
    ensures sb[24] == 2 && sb[25] == sb[26] == sb[27] == 0 ==> BlockSize(sb) == 4096
  {
    assert Pow2(2) == 4;
  }

  lemma DescriptorLayout(t: Block, k: nat)
    requires k < 128
    ensures GroupBlockBitmap(t, k) == Le4(t, 32 * k) && GroupInodeBitmap(t, k) == Le4(t, 32 * k + 4)
    ensures GroupInodeTable(t, k) == Le4(t, 32 * k + 8)
    ensures GroupFreeBlocks(t, k) == Le2(t, 32 * k + 12) && GroupFreeInodes(t, k) == Le2(t, 32 * k + 14)
  {
  }

  /** An inode is a directory by bit 14 of its type word alone, and a regular file by bit 15 alone,
      whatever its permissions are. */
  lemma InodeKind(x: InodeImage)
    ensures IsDir(x) <==> x[1] / 64 % 2 == 1
    ensures IsFile(x) <==> x[1] >= 128
  {
  }

  lemma InodeLayout(x: InodeImage, i: nat)
    requires i < 15
    ensures TypePerm(x) == Le2(x, 0) && LowerSize(x) == Le4(x, 4) && Sectors(x) == Le4(x, 28)
    ensures Ptr(x, i) == Le4(x, 40 + 4 * i)
  {
  }

  /** Eight sectors are a block; of the attached blocks at most twelve are direct. */
  lemma AttachedLayout(x: InodeImage)
    ensures var n := Le4(x, 28) % 8388608 / 8; SectorsToBlocks(Sectors(x)) == n && Attached(x) == if n < 12 then n else 12
  {
    SectorBlocks(Le4(x, 28));
  }

  lemma SectorBlocks(s: nat)
    ensures SectorsToBlocks(s) == s % 8388608 / 8
  {
    var h, l := s / 8388608, s % 8388608;
    assert s * 512 == h * 4294967296 + l * 512;
  }

  lemma RecordLayout(b: Block, o: nat)
    requires o + 8 <= 4096 && o + 8 + b[o + 6] <= 4096
    ensures RecInode(b, o) == Le4(b, o) && RecLen(b, o) == Le2(b, o + 4) && NameLen(b, o) == b[o + 6]
    ensures Inside(b, o) && EntryAt(b, o) == Entry(Le4(b, o), b[o + 7], b[o + 8..o + 8 + b[o + 6]])
  {
  }

  // Bitmaps, the inode table, and the numbering.

  /** The value of bit `k` of a byte. */
  function Weight(k: nat): nat
    requires k < 8
    ensures Weight(k) > 0
  {
    [1, 2, 4, 8, 16, 32, 64, 128][k]
  }

  lemma {:induction false} BitWeight(x: nat, k: nat)
    requires k < 8
    ensures NatBit(x, k) <==> x / Weight(k) % 2 == 1
  {
    if k > 0 {
      BitWeight(x / 2, k - 1);
      Halve(x, k - 1);
    }
  }

  lemma Halve(x: nat, k: nat)
    requires k < 7
    ensures x / 2 / Weight(k) == x / Weight(k + 1)
  {
    if k < 3 {
      assert x / 2 / 2 == x / 4 && x / 2 / 4 == x / 8;
    } else {
      assert x / 2 / 8 == x / 16 && x / 2 / 16 == x / 32 && x / 2 / 32 == x / 64 && x / 2 / 64 == x / 128;
    }
  }

  /** Bit `i` of a bitmap block: bit `i % 8`, from the lowest, of byte `i / 8`. */
  predicate BitSet(bm: Block, i: nat)
    requires i < 32768
  {
    bm[i / 8] / Weight(i % 8) % 2 == 1
  }

  lemma BitLayout(bm: Block, i: nat)
    requires i < 32768
    ensures Bit(bm, i) <==> BitSet(bm, i)
  {
    BitWeight(bm[i / 8], i % 8);
  }

  /** A block is used when its bit in its group's bitmap is set. */
  lemma BlockMarkLayout(g: Geometry, disk: seq<Block>, p: nat)
    requires Shaped(g, disk) && p < Mul(|g.bb|, g.bpg)
    ensures g.bpg > 0 && p / g.bpg < |g.bb| && g.bb[p / g.bpg] < |disk| && p % g.bpg < 32768
    ensures BlockUsed(g, disk, p) <==> BitSet(disk[g.bb[p / g.bpg]], p % g.bpg)
  {
    hide Bit, Mul, BitSet;
    DivIs(p, g.bpg);
    ModIs(p, g.bpg);
    assert GroupOk(g, BlockGroup(g, p));
    BitLayout(disk[g.bb[p / g.bpg]], p % g.bpg);
  }

  /** Inodes likewise, counted from 1. */
  lemma InodeMarkLayout(g: Geometry, disk: seq<Block>, n: nat)
    requires Shaped(g, disk) && ValidIno(g, n)
    ensures g.ipg > 0 && (n - 1) / g.ipg < |g.ib| && g.ib[(n - 1) / g.ipg] < |disk| && (n - 1) % g.ipg < 32768
    ensures InodeUsed(g, disk, n) <==> BitSet(disk[g.ib[(n - 1) / g.ipg]], (n - 1) % g.ipg)
  {
    hide Bit, Mul, BitSet;
    DivIs(n - 1, g.ipg);
    ModIs(n - 1, g.ipg);
    assert GroupOk(g, InoGroup(g, n));
    BitLayout(disk[g.ib[(n - 1) / g.ipg]], (n - 1) % g.ipg);
  }

  /** A group has no free block, or inode, when the first bits of its bitmap are all set, as many as the
      superblock's bytes 40 to 43 say that a group has inodes; the bitmap is the block that the descriptor names. */
  lemma FreeLayout(fs: Fs, k: nat)
    requires Mounted(fs) && k < |fs.g.bb|
    ensures k < 128 && Le4(fs.sb, 40) <= 32768
    ensures var p := Le4(fs.bgdt, 32 * k);
      && p < |fs.disk|
      && (NoFreeBlock(fs, k) <==> forall i :: 0 <= i < Le4(fs.sb, 40) ==> BitSet(fs.disk[p], i))
    ensures var p := Le4(fs.bgdt, 32 * k + 4);
      && p < |fs.disk|
      && (NoFreeInode(fs, k) <==> forall i :: 0 <= i < Le4(fs.sb, 40) ==> BitSet(fs.disk[p], i))
  {
    GroupNamed(fs, k);
    hide Bit, BitSet, Describes, Sane, Le4;
    forall i: nat | i < fs.g.ipg
      ensures Bit(fs.disk[fs.g.bb[k]], i) <==> BitSet(fs.disk[fs.g.bb[k]], i)
      ensures Bit(fs.disk[fs.g.ib[k]], i) <==> BitSet(fs.disk[fs.g.ib[k]], i)
    {
      BitLayout(fs.disk[fs.g.bb[k]], i);
      BitLayout(fs.disk[fs.g.ib[k]], i);
    }
  }

  lemma GroupNamed(fs: Fs, k: nat)
    requires Mounted(fs) && k < |fs.g.bb|
    ensures k < 128 && k < |fs.g.ib| && fs.g.ipg == Le4(fs.sb, 40) <= 32768
    ensures fs.g.bb[k] == Le4(fs.bgdt, 32 * k) < |fs.disk| && fs.g.ib[k] == Le4(fs.bgdt, 32 * k + 4) < |fs.disk|
  {
    hide Le4;
    assert GroupOk(fs.g, k);
    assert DescribesGroup(fs.g, fs.bgdt, k);
    SuperblockLayout(fs.sb);
    DescriptorLayout(fs.bgdt, k);
  }

  /** Inode `n` is entry `(n - 1) % ipg` of its group's table. */
  lemma InodePlace(g: Geometry, disk: seq<Block>, n: nat)
    requires Shaped(g, disk) && ValidIno(g, n)
    ensures g.ipg > 0 && (n - 1) / g.ipg < |g.it|
    ensures var at := (n - 1) % g.ipg * g.isz;
      var (p, o) := (g.it[(n - 1) / g.ipg] + at / 4096, at % 4096);
      p < |disk| && o + 128 <= 4096 && InodeAt(g, disk, n) == disk[p][o..o + 128]
  {
    DivIs(n - 1, g.ipg);
    ModIs(n - 1, g.ipg);
    MulIs(Mod(n - 1, g.ipg), g.isz);
    InodeBlockInTable(g, n);
  }

  /** The numbers that an allocation hands out for bit `i` of group `k`. */
  lemma NumberLayout(g: Geometry, k: nat, i: nat)
    ensures BlockNumber(g, k, i) == k * g.bpg + i && InodeNumber(g, k, i) == k * g.ipg + i + 1
  {
    MulIs(k, g.bpg);
    MulIs(k, g.ipg);
  }

  // What the driver stores in inodes.

  /** A new file: type word 0x81A4, size 0, one link, eight sectors, its block; all else is what was there. */
  lemma NewInodeLayout(junk: InodeImage, blk: nat, i: nat)
    requires blk < 0x1_0000_0000 && i < 128
    ensures var y := NewInode(junk, blk);
      && y[0] == 0xA4 && y[1] == 0x81 && Le4(y, 4) == 0 && Le2(y, 26) == 1 && Le4(y, 28) == 8 && Le4(y, 40) == blk
      && (i in {0, 1} || 4 <= i < 8 || 26 <= i < 32 || 40 <= i < 44 || y[i] == junk[i])
  {
    NewInodeBytes(junk, blk);
    hide NewInode;
    LeParts(NewInode(junk, blk), 40, blk);
  }

  lemma NewInodeBytes(junk: InodeImage, blk: nat)
    ensures var y := NewInode(junk, blk);
      && y[0] == 0xA4 && y[1] == 0x81 && y[26] == 1 && y[27] == 0
      && y[28] == 8 && y[29] == y[30] == y[31] == 0 && y[4] == y[5] == y[6] == y[7] == 0
      && y[40] == blk % 256 && y[41] == blk / 256 % 256 && y[42] == blk / 65536 % 256 && y[43] == blk / 16777216 % 256
      && forall i :: 0 <= i < 128 && !(i < 2 || 4 <= i < 8 || 26 <= i < 32 || 40 <= i < 44) ==> y[i] == junk[i]
  {
  }

  lemma LeParts(b: seq<byte>, o: nat, v: nat)
    requires o + 4 <= |b| && v < 0x1_0000_0000
    requires b[o] == v % 256 && b[o + 1] == v / 256 % 256 && b[o + 2] == v / 65536 % 256 && b[o + 3] == v / 16777216 % 256
    ensures Le4(b, o) == v
  {
    assert v / 256 / 256 == v / 65536 && v / 65536 / 256 == v / 16777216;
  }

  /** Attaching a block stores its number behind the attached ones and adds eight sectors, nothing else. */
  lemma AttachLayout(x: InodeImage, i: nat, blk: nat, j: nat)
    requires i < 12 && blk < 0x1_0000_0000 && j < 128
    ensures var y := AttachBlock(x, i, blk);
      && Le4(y, 40 + 4 * i) == blk && Le4(y, 28) == (Le4(x, 28) + 8) % 0x1_0000_0000
      && (28 <= j < 32 || 40 + 4 * i <= j < 44 + 4 * i || y[j] == x[j])
  {
    var s := (Le4(x, 28) + 8) % 0x1_0000_0000;
    var a := PutU32(x, 40 + 4 * i, blk);
    var y := AttachBlock(x, i, blk);
    assert y == PutU32(a, 28, s);
    PutBytes(x, 40 + 4 * i, blk);
    PutBytes(a, 28, s);
    hide AttachBlock, PutU32;
    LeParts(y, 28, s);
    LeParts(y, 40 + 4 * i, blk);
  }

  lemma PutBytes(b: seq<byte>, o: nat, v: nat)
    requires o + 4 <= |b|
    ensures var r := PutU32(b, o, v);
      r[o] == v % 256 && r[o + 1] == v / 256 % 256 && r[o + 2] == v / 65536 % 256 && r[o + 3] == v / 16777216 % 256
  {
  }

  lemma ResizeLayout(x: InodeImage, size: nat, j: nat)
    requires size < 0x1_0000_0000 && j < 128
    ensures var y := Resize(x, size); Le4(y, 4) == size && (4 <= j < 8 || y[j] == x[j])
  {
    PutBytes(x, 4, size);
    LeParts(Resize(x, size), 4, size);
  }

  // Readings of directory blocks, as chains of offsets.

  /** The record at `o` lies inside the block and has an inode number. */
  predicate Valued(b: Block, o: nat) {
    o + 8 <= 4096 && o + 8 + b[o + 6] <= 4096 && Le4(b, o) != 0
  }

  /** `offs` are the offsets of the entries `r` and the one after them: each record begins where the one before
      it says that it ends. The reading stops at `n` entries, or where there is no such record. */
  ghost predicate Reading(b: Block, o: nat, n: nat, r: seq<Entry>, offs: seq<nat>) {
    && |r| <= n && |offs| == |r| + 1 && offs[0] == o
    && (forall i :: 0 <= i < |r| ==> EntryOf(b, offs[i], r[i], offs[i + 1]))
    && (|r| == n || !Valued(b, offs[|r|]))
  }

  predicate EntryOf(b: Block, o: nat, e: Entry, next: nat) {
    && Valued(b, o) && next == o + Le2(b, o + 4)
    && e == Entry(Le4(b, o), b[o + 7], b[o + 8..o + 8 + b[o + 6]])
  }

  lemma {:induction false} ParseReads(b: Block, o: nat, n: nat) returns (offs: seq<nat>)
    ensures Reading(b, o, n, Parse(b, o, n), offs)
    decreases n
  {
    hide EntryAt;
    if o + 8 <= 4096 && o + 8 + b[o + 6] <= 4096 {
      RecordLayout(b, o);
    }
    if n == 0 || !Valued(b, o) {
      offs := [o];
    } else {
      var next := o + Le2(b, o + 4);
      var more := ParseReads(b, next, n - 1);
      offs := [o] + more;
      StepBack(b, o, n, EntryAt(b, o), Parse(b, next, n - 1), more);
    }
  }

  lemma StepBack(b: Block, o: nat, n: nat, e: Entry, r: seq<Entry>, offs: seq<nat>)
    requires n > 0 && offs != [] && EntryOf(b, o, e, offs[0]) && Reading(b, offs[0], n - 1, r, offs)
    ensures Reading(b, o, n, [e] + r, [o] + offs)
  {
    hide Valued, EntryOf;
    forall i | 0 <= i < |[e] + r|
      ensures EntryOf(b, ([o] + offs)[i], ([e] + r)[i], ([o] + offs)[i + 1])
    {
      if i > 0 {
        assert EntryOf(b, offs[i - 1], r[i - 1], offs[i]);
      }
    }
  }

  /** There is no other reading. */
  lemma {:induction false} ReadingUnique(b: Block, o: nat, n: nat, r: seq<Entry>, offs: seq<nat>)
    requires Reading(b, o, n, r, offs)
    ensures r == Parse(b, o, n)
    decreases n
  {
    hide EntryAt, Valued;
    if o + 8 <= 4096 && o + 8 + b[o + 6] <= 4096 {
      RecordLayout(b, o);
    }
    if r != [] {
      assert EntryOf(b, offs[0], r[0], offs[1]);
      assert Valued(b, o) ==> o + 8 <= 4096 && o + 8 + b[o + 6] <= 4096 && Le4(b, o) != 0 by { ValuedIs(b, o); }
      forall i | 0 <= i < |r[1..]|
        ensures EntryOf(b, offs[1..][i], r[1..][i], offs[1..][i + 1])
      {
        assert EntryOf(b, offs[i + 1], r[i + 1], offs[i + 2]);
      }
      ReadingUnique(b, offs[1], n - 1, r[1..], offs[1..]);
      assert r == [r[0]] + r[1..];
    } else {
      ValuedIs(b, o);
    }
  }

  lemma ValuedIs(b: Block, o: nat)
    ensures Valued(b, o) <==> o + 8 <= 4096 && o + 8 + b[o + 6] <= 4096 && Le4(b, o) != 0
  {
  }

  /** A record that ends before the block does, and where the next one begins. */
  predicate Passed(b: Block, o: nat, next: nat) {
    o + 8 <= 4096 && next == o + Le2(b, o + 4) && next < 4096
  }

  /** A scan from `o` passes fewer than `m` records and ends at one that reaches the end of the block. */
  ghost predicate Scan(b: Block, o: nat, m: int, offs: seq<nat>) {
    && 1 <= |offs| <= m && offs[0] == o
    && (forall i :: 0 <= i < |offs| - 1 ==> Passed(b, offs[i], offs[i + 1]))
    && var q := offs[|offs| - 1]; q + 8 <= 4096 && q + Le2(b, q + 4) >= 4096
  }

  /** The last record is found exactly when there is such a scan, and it is the one at which the scan ends. */
  lemma {:induction false} LastFound(b: Block, o: nat, j: nat) returns (offs: seq<nat>)
    ensures FindLast(b, o, j) >= 0 ==> Scan(b, o, 128 - j, offs) && FindLast(b, o, j) == offs[|offs| - 1]
    decreases MAX_SUBDIRS - j
  {
    offs := [o];
    if j < MAX_SUBDIRS && o + 8 <= 4096 && o + RecLen(b, o) < 4096 {
      var more := LastFound(b, o + RecLen(b, o), j + 1);
      if FindLast(b, o, j) >= 0 {
        offs := [o] + more;
        assert Passed(b, o, more[0]);
        forall i | 0 <= i < |offs| - 1
          ensures Passed(b, offs[i], offs[i + 1])
        {
          if i > 0 {
            assert Passed(b, more[i - 1], more[i]);
          }
        }
      }
    }
  }

  lemma {:induction false} LastUnique(b: Block, o: nat, j: nat, offs: seq<nat>)
    requires Scan(b, o, 128 - j, offs)
    ensures FindLast(b, o, j) == offs[|offs| - 1]
    decreases |offs|
  {
    if |offs| > 1 {
      assert Passed(b, offs[0], offs[1]);
      var rest := offs[1..];
      forall i | 0 <= i < |rest| - 1
        ensures Passed(b, rest[i], rest[i + 1])
      {
        assert Passed(b, offs[i + 1], offs[i + 2]);
      }
      LastUnique(b, offs[1], j + 1, rest);
    }
  }

  /** Adding an entry does nothing, without an error code, to what is no directory. To a directory without a block
      it fails. */
  lemma AddRefused(disk: seq<Block>, x: InodeImage, ino: nat, name: seq<byte>)
    ensures x[1] / 64 % 2 != 1 ==> AddEntry(disk, x, ino, name) == (disk, 0)
    ensures x[1] / 64 % 2 == 1 && Le4(x, 40) == 0 ==> AddEntry(disk, x, ino, name) == (disk, 1)
  {
    InodeKind(x);
    InodeLayout(x, 0);
    hide Le4, Insert, FindLast, Ptr, IsDir;
  }

  /** It fails too, and changes nothing, when no scan of at most 128 records ends in the first block. */
  lemma AddFails(disk: seq<Block>, x: InodeImage, ino: nat, name: seq<byte>)
    requires x[1] / 64 % 2 == 1 && 0 < Le4(x, 40) < |disk| && forall offs :: !Scan(disk[Le4(x, 40)], 0, 128, offs)
    ensures AddEntry(disk, x, ino, name) == (disk, 1)
  {
    InodeKind(x);
    InodeLayout(x, 0);
    NoneFound(disk[Le4(x, 40)]);
    hide Le4, Scan, Insert, FindLast, Ptr, IsDir;
  }

  lemma NoneFound(b: Block)
    requires forall offs :: !Scan(b, 0, 128, offs)
    ensures FindLast(b, 0, 0) < 0
  {
    hide Scan, FindLast;
    var found := LastFound(b, 0, 0);
  }

  /** When a scan ends and the new record fits behind twice the last offset, it succeeds. */
  lemma AddSucceeds(disk: seq<Block>, x: InodeImage, ino: nat, name: seq<byte>, offs: seq<nat>)
    requires x[1] / 64 % 2 == 1 && 0 < Le4(x, 40) < |disk| && Scan(disk[Le4(x, 40)], 0, 128, offs) && |offs| > 0
    requires 2 * offs[|offs| - 1] + (8 + |name| + 3) / 4 * 4 + 8 + |name| <= 4096
    ensures AddEntry(disk, x, ino, name).1 == 0
  {
    InodeKind(x);
    InodeLayout(x, 0);
    LastUnique(disk[Le4(x, 40)], 0, 0, offs);
    hide Le4, Insert, FindLast, Ptr, IsDir;
  }

  // The listing of a directory over its blocks.

  /** `parts` are what the first blocks hold, up to 128 entries in all: the listing stops at an absent pointer,
      behind the twelve direct ones. */
  ghost predicate Listing(disk: seq<Block>, x: InodeImage, i: nat, n: nat, parts: seq<seq<Entry>>) {
    && i + |parts| <= 12 && |Joined(parts)| <= n
    && (forall k :: 0 <= k < |parts| ==> PartOf(disk, x, i + k, n - |Joined(parts[..k])|, parts[k]))
    && (i + |parts| == 12 || Le4(x, 40 + 4 * (i + |parts|)) == 0)
  }

  ghost predicate PartOf(disk: seq<Block>, x: InodeImage, k: nat, n: int, part: seq<Entry>) {
    && k < 12 && n >= 0 && var p := Le4(x, 40 + 4 * k);
    && 0 < p < |disk| && part == Parse(disk[p], 0, n)
  }

  function Joined(parts: seq<seq<Entry>>): seq<Entry> {
    if parts == [] then [] else Joined(parts[..|parts| - 1]) + parts[|parts| - 1]
  }

  lemma {:induction false} JoinedFront(a: seq<Entry>, parts: seq<seq<Entry>>)
    ensures Joined([a] + parts) == a + Joined(parts)
  {
    if parts == [] {
      assert [a][..0] == [] && [a] + parts == [a];
      assert Joined([]) == [];
    } else {
      var init := parts[..|parts| - 1];
      assert ([a] + parts)[..|parts|] == [a] + init;
      JoinedFront(a, init);
    }
  }

  /** On a directory whose blocks lie inside the volume. */
  lemma {:induction false} ListReads(disk: seq<Block>, x: InodeImage, i: nat, n: nat) returns (parts: seq<seq<Entry>>)
    requires i <= 12 && forall k :: 0 <= k < 12 ==> Ptr(x, k) < |disk|
    ensures Listing(disk, x, i, n, parts) && ListFrom(disk, x, i, n) == Joined(parts)
    decreases 12 - i
  {
    hide Parse, Ptr, Le4, PartOf, Joined;
    parts := [];
    JoinedNone();
    if i < 12 {
      InodeLayout(x, i);
      if Ptr(x, i) != 0 {
        var e := Parse(disk[Ptr(x, i)], 0, n);
        var more := ListReads(disk, x, i + 1, n - |e|);
        FirstPart(disk, x, i, n);
        PartStep(disk, x, i, n, e, more);
        parts := [e] + more;
      }
    }
  }

  lemma JoinedNone()
    ensures Joined([]) == []
  {
  }

  lemma FirstPart(disk: seq<Block>, x: InodeImage, i: nat, n: nat)
    requires i < 12 && 0 < Ptr(x, i) < |disk|
    ensures PartOf(disk, x, i, n, Parse(disk[Ptr(x, i)], 0, n))
  {
    hide Parse, Ptr, Le4;
    InodeLayout(x, i);
  }

  lemma PartStep(disk: seq<Block>, x: InodeImage, i: nat, n: nat, e: seq<Entry>, more: seq<seq<Entry>>)
    requires i < 12 && |e| <= n && PartOf(disk, x, i, n, e) && Listing(disk, x, i + 1, n - |e|, more)
    ensures Listing(disk, x, i, n, [e] + more) && Joined([e] + more) == e + Joined(more)
  {
    hide PartOf, Joined, Le4;
    var parts := [e] + more;
    JoinedFront(e, more);
    JoinedNone();
    forall k | 0 <= k < |parts|
      ensures PartOf(disk, x, i + k, n - |Joined(parts[..k])|, parts[k])
    {
      if k > 0 {
        assert parts[..k] == [e] + more[..k - 1];
        JoinedFront(e, more[..k - 1]);
        assert PartOf(disk, x, i + 1 + (k - 1), n - |e| - |Joined(more[..k - 1])|, more[k - 1]);
      } else {
        assert parts[..0] == [];
      }
    }
  }
}
