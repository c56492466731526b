/** The open file refines a simple machine: a byte sequence, a position, and a window of one block that
    writes go through. */
module Refinement {
  import opened Bytes
  import opened Arith
  import opened Volume
  import opened Alloc
  import opened Ownership
  import opened Files
  import opened Writing
  import opened Session

  datatype Abs = Abs(content: seq<byte>, pos: nat, window: Block)

  datatype FileOp = OpWrite(data: seq<byte>) | OpSeek(newPos: nat)

  /** The end of the contents after a write: a straddling write makes room for its second block. */
  function NewLength(len: nat, pos: nat, n: nat): nat {
    var need := (pos / BLOCK_SIZE + 2) * BLOCK_SIZE;
    if pos % BLOCK_SIZE + n > BLOCK_SIZE && need > len then need else len
  }

  /** Byte `q` after writing `data` at `pos`: no byte outside the written ones changes. */
  function PlainByte(c: seq<byte>, pos: nat, data: seq<byte>, q: nat): byte {
    if pos <= q < pos + |data| then data[q - pos] else if q < |c| then c[q] else 0
  }

  /** The contents overwritten in place. */
  ghost function Overwritten(c: seq<byte>, pos: nat, data: seq<byte>): (r: seq<byte>)
    ensures |r| == NewLength(|c|, pos, |data|) && forall q :: 0 <= q < |r| ==> r[q] == PlainByte(c, pos, data, q)
  {
    seq(NewLength(|c|, pos, |data|), q requires 0 <= q => PlainByte(c, pos, data, q))
  }

  /** Byte `q` lies in the second block of a straddling write, behind its end. */
  predicate Behind(pos: nat, n: nat, q: nat) {
    pos % BLOCK_SIZE + n > BLOCK_SIZE && q / BLOCK_SIZE == pos / BLOCK_SIZE + 1 && q >= pos + n
  }

  /** Byte `q` after a write through the window: it replaces the rest of its block, and clears what follows
      in the second block of a straddling write. */
  function NewByte(a: Abs, data: seq<byte>, q: nat): byte {
    if q / BLOCK_SIZE == a.pos / BLOCK_SIZE && !(a.pos <= q < a.pos + |data|) then a.window[q % BLOCK_SIZE]
    else if Behind(a.pos, |data|, q) then 0
    else PlainByte(a.content, a.pos, data, q)
  }

  /** The part of a write that goes into the block of the position. */
  function First(pos: nat, data: seq<byte>): seq<byte> {
    if pos % BLOCK_SIZE + |data| > BLOCK_SIZE then data[..BLOCK_SIZE - pos % BLOCK_SIZE] else data
  }

  /** One step of the machine. A seek to the block behind the contents appends a block of any bytes and
      shows it with its first bytes cleared; other seeks show the block of the position. */
  ghost predicate AbsStep(a: Abs, op: FileOp, b: Abs) {
    match op
    case OpWrite(data) =>
      && |data| <= BLOCK_SIZE && b.pos == a.pos
      && b.window == Splice(a.window, a.pos % BLOCK_SIZE, First(a.pos, data))
      && |b.content| == NewLength(|a.content|, a.pos, |data|)
      && forall q :: 0 <= q < |b.content| ==> b.content[q] == NewByte(a, data, q)
    case OpSeek(p) =>
      if p == a.pos then b == a
      else if (p / BLOCK_SIZE + 1) * BLOCK_SIZE <= |a.content| then
        b == Abs(a.content, p, a.content[p / BLOCK_SIZE * BLOCK_SIZE..(p / BLOCK_SIZE + 1) * BLOCK_SIZE])
      else
        && |b.content| == |a.content| + BLOCK_SIZE && b.content[..|a.content|] == a.content && b.pos == p
        && b.window == Cleared(b.content[|a.content|..], p % BLOCK_SIZE)
  }

  /** What a read of `n` bytes gives: the window's bytes, and behind them the contents'. */
  function AbsRead(a: Abs, n: nat): seq<byte>
    requires n <= BLOCK_SIZE && a.pos + n <= |a.content|
  {
    var p, end := a.pos % BLOCK_SIZE, (a.pos / BLOCK_SIZE + 1) * BLOCK_SIZE;
    if p + n > BLOCK_SIZE then a.window[p..] + a.content[end..a.pos + n] else a.window[p..p + n]
  }

  ghost function Content(w: World): (c: seq<byte>)
    ensures |c| == BLOCK_SIZE * Attached(w.f.inode)
    ensures forall q :: 0 <= q < |c| ==> c[q] == ByteAt(w.fs.disk, w.f.inode, q)
  {
    seq(BLOCK_SIZE * Attached(w.f.inode),
        q requires 0 <= q < BLOCK_SIZE * Attached(w.f.inode) => ByteAt(w.fs.disk, w.f.inode, q))
  }

  ghost function AbsOf(w: World): Abs {
    Abs(Content(w), w.f.pos, w.f.buff)
  }

  /** A call on the existing open file; seeking to the current position does nothing. */
  ghost function DoOp(w: World, op: FileOp): (World, nat)
    requires Usable(w) && OpInRange(w, op)
  {
    match op
    case OpWrite(data) => WriteExisting(w, data)
    case OpSeek(p) => if p == w.f.pos then (w, 0) else SeekExisting(w, p)
  }

  /** At most a block is written; a seek goes to an attached block or to the one behind them. */
  predicate OpInRange(w: World, op: FileOp) {
    match op
    case OpWrite(data) => |data| <= BLOCK_SIZE
    case OpSeek(p) => p / BLOCK_SIZE <= Attached(w.f.inode) && p < 0x1_0000_0000
  }

  /** The buffer is the block of the position: the window shows the contents. */
  ghost predicate InStep(w: World) {
    Usable(w) && Clean(w) && Coherent(w)
  }

  /** The number of attached blocks after a write. */
  lemma WriteLength(w: World, data: seq<byte>)
    requires Usable(w) && |data| <= BLOCK_SIZE && WriteExisting(w, data).1 == 0
    ensures BLOCK_SIZE * Attached(WriteExisting(w, data).0.f.inode)
         == NewLength(BLOCK_SIZE * Attached(w.f.inode), w.f.pos, |data|)
  {
    hide Sane, Describes, Marked, CountsMatch, Mul, InodeAt, Ptr, AttachBlock, Second, WriteExisting, Inv, LowerSize,
      Sectors, SectorsToBlocks, Attached, Held;
    WriteInode(w, data);
    WriteTouches(w, data);
    SecondIsOurs(w, data);
  }

  /** Without any assumption on the buffer: a successful write leaves it equal to its block. */
  lemma WriteCoherent(w: World, data: seq<byte>)
    requires Usable(w) && |data| <= BLOCK_SIZE
    ensures Usable(WriteExisting(w, data).0) && Coherent(WriteExisting(w, data).0)
  {
    hide Sane, Describes, Marked, CountsMatch, Mul, InodeAt, Ptr, AttachBlock, Second, WriteExisting, Inv, LowerSize,
      Sectors, SectorsToBlocks, Attached, Held;
    WriteInv(w, data);
    WriteTouches(w, data);
    WriteInode(w, data);
    WriteBlocks(w, data);
    assert Here(WriteExisting(w, data).0) == Here(w);
  }

  /** The buffer agrees with a block outside the bytes that a write of `n` bytes covers. */
  predicate Agrees(buff: Block, b: Block, pos: nat, n: nat) {
    forall o :: 0 <= o < BLOCK_SIZE && !(pos % BLOCK_SIZE <= o < pos % BLOCK_SIZE + n) ==> buff[o] == b[o]
  }

  /** A write of `n` bytes at `pos` clears nothing but zeros: it stays in its block, or the next block is
      not attached yet, or the bytes of that block behind its end are zero already. */
  predicate Spared(c: seq<byte>, pos: nat, n: nat) {
    || pos % BLOCK_SIZE + n <= BLOCK_SIZE
    || |c| <= (pos / BLOCK_SIZE + 1) * BLOCK_SIZE
    || forall q :: pos + n <= q < (pos / BLOCK_SIZE + 2) * BLOCK_SIZE && q < |c| ==> c[q] == 0
  }

  /** A write overwrites the contents in place, changing no byte but the written ones, exactly when the buffer
      agrees with the disk on the bytes of its block that are not written, and the bytes that it clears
      in the second block are zero already. */
  lemma WriteOverwritesIff(w: World, data: seq<byte>)
    requires Usable(w) && |data| <= BLOCK_SIZE && WriteExisting(w, data).1 == 0 && Here(w) < |w.fs.disk|
    ensures Content(WriteExisting(w, data).0) == Overwritten(Content(w), w.f.pos, data)
       <==> Agrees(w.f.buff, w.fs.disk[Here(w)], w.f.pos, |data|) && Spared(Content(w), w.f.pos, |data|)
  {
    hide Sane, Describes, Marked, CountsMatch, Mul, InodeAt, Ptr, WriteExisting, Inv, Attached, Held, ByteAt,
      PlainByte, Agrees, Spared, ZeroBehind, LeavesOf, HasBlock, Overwritten, Content;
    var x, y := Content(WriteExisting(w, data).0), Overwritten(Content(w), w.f.pos, data);
    WrittenLeaves(w, data);
    BlockIff(w.f.buff, w.fs.disk[Here(w)], x, y, w.f.pos, |data|);
    WholeBlocks(w);
    SparedIs(Content(w), w.f.pos, data);
  }

  lemma WholeBlocks(w: World)
    ensures |Content(w)| % BLOCK_SIZE == 0
  {
    hide Attached, ByteAt;
  }

  /** What a write leaves, byte by byte, over the overwritten contents. */
  ghost predicate LeavesOf(x: seq<byte>, buff: Block, y: seq<byte>, pos: nat, n: nat) {
    |x| == |y| && forall q :: 0 <= q < |x| ==> x[q] == WrittenByte(buff, y, pos, n, q)
  }

  /** Outside the written bytes `y` has the bytes of `b` in the block of the position. */
  ghost predicate HasBlock(y: seq<byte>, b: Block, pos: nat, n: nat) {
    && |y| >= (pos / BLOCK_SIZE + 1) * BLOCK_SIZE
    && forall q :: 0 <= q < |y| && q / BLOCK_SIZE == pos / BLOCK_SIZE && !(pos <= q < pos + n) ==> y[q] == b[q % BLOCK_SIZE]
  }

  lemma WrittenLeaves(w: World, data: seq<byte>)
    requires Usable(w) && |data| <= BLOCK_SIZE && WriteExisting(w, data).1 == 0 && Here(w) < |w.fs.disk|
    ensures var y := Overwritten(Content(w), w.f.pos, data);
      && LeavesOf(Content(WriteExisting(w, data).0), w.f.buff, y, w.f.pos, |data|)
      && HasBlock(y, w.fs.disk[Here(w)], w.f.pos, |data|)
  {
    hide Sane, Describes, Marked, CountsMatch, Mul, InodeAt, Ptr, WriteExisting, Inv, Attached, Held, ByteAt,
      PlainByte, Behind;
    var w2, pos, n := WriteExisting(w, data).0, w.f.pos, |data|;
    WriteTouches(w, data);
    WriteLength(w, data);
    var x, y := Content(w2), Overwritten(Content(w), pos, data);
    assert pos / BLOCK_SIZE < Attached(w2.f.inode) by { WriteCoherent(w, data); }
    forall q | 0 <= q < |x|
      ensures x[q] == WrittenByte(w.f.buff, y, pos, n, q)
      ensures q / BLOCK_SIZE == pos / BLOCK_SIZE && !(pos <= q < pos + n) ==> y[q] == w.fs.disk[Here(w)][q % BLOCK_SIZE]
    {
      WriteByte(w, data, q);
    }
  }

  /** What a write leaves of the overwritten contents `y`. */
  function WrittenByte(buff: Block, y: seq<byte>, pos: nat, n: nat, q: nat): byte
    requires q < |y|
  {
    if q / BLOCK_SIZE == pos / BLOCK_SIZE && !(pos <= q < pos + n) then buff[q % BLOCK_SIZE]
    else if Behind(pos, n, q) then 0 else y[q]
  }

  lemma WriteByte(w: World, data: seq<byte>, q: nat)
    requires Usable(w) && |data| <= BLOCK_SIZE && WriteExisting(w, data).1 == 0 && Here(w) < |w.fs.disk|
    requires q < BLOCK_SIZE * Attached(WriteExisting(w, data).0.f.inode)
    ensures var pos, k := w.f.pos, w.f.pos / BLOCK_SIZE;
      var y := PlainByte(Content(w), pos, data, q);
      && ByteAt(WriteExisting(w, data).0.fs.disk, WriteExisting(w, data).0.f.inode, q)
         == (if q / BLOCK_SIZE == k && !(pos <= q < pos + |data|) then w.f.buff[q % BLOCK_SIZE]
             else if Behind(pos, |data|, q) then 0 else y)
      && (q / BLOCK_SIZE == k && !(pos <= q < pos + |data|) ==> y == w.fs.disk[Here(w)][q % BLOCK_SIZE])
  {
    hide Sane, Describes, Marked, CountsMatch, Mul, InodeAt, Ptr, WriteExisting, Inv, Attached, Held;
    WriteContents(w, data, q);
  }

  /** The overwritten contents are zero behind the end exactly when the old ones were spared. */
  lemma SparedIs(c: seq<byte>, pos: nat, data: seq<byte>)
    requires |data| <= BLOCK_SIZE && |c| % BLOCK_SIZE == 0
    ensures Spared(c, pos, |data|) <==> ZeroBehind(Overwritten(c, pos, data), pos, |data|)
  {
    var y, n := Overwritten(c, pos, data), |data|;
    if Spared(c, pos, n) {
      forall q | 0 <= q < |y| && Behind(pos, n, q)
        ensures y[q] == 0
      {
      }
    }
    if ZeroBehind(y, pos, n) {
      forall q | pos + n <= q < (pos / BLOCK_SIZE + 2) * BLOCK_SIZE && q < |c| && pos % BLOCK_SIZE + n > BLOCK_SIZE
        ensures c[q] == 0
      {
        assert Behind(pos, n, q) && y[q] == c[q];
      }
    }
  }

  predicate ZeroBehind(y: seq<byte>, pos: nat, n: nat) {
    forall q :: 0 <= q < |y| && Behind(pos, n, q) ==> y[q] == 0
  }

  /** Two byte sequences, one written over the other: they are equal exactly when the buffer agrees with the
      rest of its block and only zeros were cleared. */
  lemma BlockIff(buff: Block, b: Block, x: seq<byte>, y: seq<byte>, pos: nat, n: nat)
    requires LeavesOf(x, buff, y, pos, n) && HasBlock(y, b, pos, n)
    ensures x == y <==> Agrees(buff, b, pos, n) && ZeroBehind(y, pos, n)
  {
    var k := pos / BLOCK_SIZE;
    if x == y {
      forall o | 0 <= o < BLOCK_SIZE && !(pos % BLOCK_SIZE <= o < pos % BLOCK_SIZE + n)
        ensures buff[o] == b[o]
      {
        Locate(k, o);
        assert x[k * BLOCK_SIZE + o] == y[k * BLOCK_SIZE + o];
      }
    }
    if Agrees(buff, b, pos, n) && ZeroBehind(y, pos, n) {
      forall q | 0 <= q < |x|
        ensures x[q] == y[q]
      {
        if q / BLOCK_SIZE == k && !(pos <= q < pos + n) {
          assert buff[q % BLOCK_SIZE] == b[q % BLOCK_SIZE];
        }
      }
    }
  }

  /** A seek inside the attached blocks loads the block of the new position and changes nothing else. */
  lemma SeekLoads(w: World, p: nat)
    requires Usable(w) && Clean(w) && p / BLOCK_SIZE < Attached(w.f.inode) && p < 0x1_0000_0000 && p != w.f.pos
    ensures var (w2, err) := SeekExisting(w, p);
      && err == 0 && Usable(w2) && Clean(w2) && Coherent(w2)
      && w2.fs == w.fs && w2.tracked == w.tracked && w2.f == w.f.(pos := p, buff := w2.f.buff)
  {
    hide Sane, Describes, Marked, CountsMatch, Mul, InodeAt, Ptr, Inv, Attached, Held, Moved, AttachNew, Resize;
    UsableFacts(w);
    MovedInv(w, p);
    SeekInv(w, p);
    SeekTarget(Moved(w, p));
  }

  /** The bytes of the file are kept and a block is added behind them; the buffer is that block with its
      first `o` bytes cleared, so it is the block exactly when they are zero. */
  ghost predicate GainsBlock(w: World, w2: World, o: nat)
    requires InFile(w2.f) && o <= BLOCK_SIZE
  {
    var c, c2 := Content(w), Content(w2);
    && |c2| == |c| + BLOCK_SIZE && c2[..|c|] == c
    && w2.f.buff == Cleared(c2[|c|..], o)
    && (Coherent(w2) <==> StartsZero(c2[|c|..], o))
  }

  /** A successful seek to the block behind the attached ones attaches it. The size becomes the offset in
      the block, so it is kept exactly when it was that offset. */
  lemma SeekAppends(w: World, p: nat)
    requires Usable(w) && Clean(w) && p / BLOCK_SIZE == Attached(w.f.inode) && p < 0x1_0000_0000
    requires SeekExisting(w, p).1 == 0
    ensures var (w2, o) := (SeekExisting(w, p).0, p % BLOCK_SIZE);
      && Usable(w2) && Clean(w2) && w2.f.pos == p && GainsBlock(w, w2, o)
      && LowerSize(w2.f.inode) == o
      && (LowerSize(w2.f.inode) == LowerSize(w.f.inode) <==> LowerSize(w.f.inode) == o)
  {
    hide Sane, Describes, Marked, CountsMatch, Mul, InodeAt, Ptr, Inv, Attached, Held, SeekExisting, Cleared, LowerSize,
      StartsZero, Content;
    var w2 := SeekExisting(w, p).0;
    SeekInv(w, p);
    SeekAttaches(w, p);
    assert SameBlocks(w, w2);
    Appended(w, w2);
    var blk := w.fs.disk[Ptr(w2.f.inode, Attached(w.f.inode))];
    assert Content(w2)[..|Content(w)|] == Content(w) && Content(w2)[|Content(w)|..] == blk;
    ClearedIff(blk, p % BLOCK_SIZE);
  }

  /** The blocks attached in `w` are attached in `w2` with the same bytes. */
  ghost predicate SameBlocks(w: World, w2: World) {
    forall j :: 0 <= j < Attached(w.f.inode) ==>
      && j < 15
      && Ptr(w2.f.inode, j) == Ptr(w.f.inode, j) && Ptr(w.f.inode, j) < |w.fs.disk| == |w2.fs.disk|
      && w2.fs.disk[Ptr(w.f.inode, j)] == w.fs.disk[Ptr(w.f.inode, j)]
  }

  lemma Appended(w: World, w2: World)
    requires Attached(w2.f.inode) == Attached(w.f.inode) + 1 <= 15 && SameBlocks(w, w2)
    requires Ptr(w2.f.inode, Attached(w.f.inode)) < |w2.fs.disk|
    ensures Content(w2) == Content(w) + w2.fs.disk[Ptr(w2.f.inode, Attached(w.f.inode))]
  {
    hide Attached, Ptr, ByteAt, SameBlocks;
    forall q | 0 <= q < |Content(w2)|
      ensures Content(w2)[q] == (Content(w) + w2.fs.disk[Ptr(w2.f.inode, Attached(w.f.inode))])[q]
    {
      AppendedByte(w, w2, q);
    }
  }

  /** One byte of a file that has gained a block behind the others. */
  lemma AppendedByte(w: World, w2: World, q: nat)
    requires Attached(w2.f.inode) == Attached(w.f.inode) + 1 <= 15 && SameBlocks(w, w2)
    requires q < BLOCK_SIZE * Attached(w2.f.inode) && Ptr(w2.f.inode, Attached(w.f.inode)) < |w2.fs.disk|
    ensures var k := Attached(w.f.inode);
      ByteAt(w2.fs.disk, w2.f.inode, q)
      == if q < BLOCK_SIZE * k then ByteAt(w.fs.disk, w.f.inode, q)
         else w2.fs.disk[Ptr(w2.f.inode, k)][q - BLOCK_SIZE * k]
  {
    hide Attached, Ptr;
    if q >= BLOCK_SIZE * Attached(w.f.inode) {
      Locate(Attached(w.f.inode), q - BLOCK_SIZE * Attached(w.f.inode));
    }
  }

  /** The window shows the block of the position. */
  lemma LoadedBlock(w: World)
    requires Usable(w) && Coherent(w)
    ensures var k := w.f.pos / BLOCK_SIZE;
      (k + 1) * BLOCK_SIZE <= |Content(w)| && w.f.buff == Content(w)[k * BLOCK_SIZE..(k + 1) * BLOCK_SIZE]
  {
    hide Inv, Attached, Ptr, Content, ByteAt;
    var k := w.f.pos / BLOCK_SIZE;
    forall o | 0 <= o < BLOCK_SIZE
      ensures Content(w)[k * BLOCK_SIZE + o] == w.f.buff[o]
    {
      Locate(k, o);
      ByteIs(w, k * BLOCK_SIZE + o, k, o);
    }
  }

  /** Each successful call on a usable file leaves it usable, and is a step of the machine. */
  lemma StepRefines(w: World, op: FileOp)
    requires Usable(w) && Clean(w) && OpInRange(w, op) && DoOp(w, op).1 == 0
    ensures var w2 := DoOp(w, op).0; Usable(w2) && Clean(w2) && AbsStep(AbsOf(w), op, AbsOf(w2))
  {
    hide Sane, Describes, Marked, CountsMatch, Mul, InodeAt, Ptr, Inv, Attached, Held, WriteExisting, SeekExisting,
      NewByte, PlainByte, Cleared;
    match op
    case OpWrite(data) =>
      WriteIsStep(w, data);
    case OpSeek(p) =>
      if p == w.f.pos {
      } else if p / BLOCK_SIZE < Attached(w.f.inode) {
        SeekLoads(w, p);
        assert Content(DoOp(w, op).0) == Content(w);
        LoadedBlock(DoOp(w, op).0);
      } else {
        SeekAppends(w, p);
      }
  }

  lemma WriteIsStep(w: World, data: seq<byte>)
    requires Usable(w) && Clean(w) && |data| <= BLOCK_SIZE && WriteExisting(w, data).1 == 0
    ensures var w2 := WriteExisting(w, data).0; Usable(w2) && Clean(w2) && AbsStep(AbsOf(w), OpWrite(data), AbsOf(w2))
  {
    hide Sane, Describes, Marked, CountsMatch, Mul, InodeAt, Ptr, Inv, Attached, Held, WriteExisting, NewByte, Content,
      ByteAt;
    WriteInv(w, data);
    WriteTouches(w, data);
    WriteLength(w, data);
    UsableHere(w);
    var c := Content(WriteExisting(w, data).0);
    forall q | 0 <= q < |c|
      ensures c[q] == NewByte(AbsOf(w), data, q)
    {
      WrittenNew(w, data, q);
    }
  }

  lemma WrittenNew(w: World, data: seq<byte>, q: nat)
    requires Usable(w) && |data| <= BLOCK_SIZE && WriteExisting(w, data).1 == 0 && Here(w) < |w.fs.disk|
    requires q < |Content(WriteExisting(w, data).0)|
    ensures Content(WriteExisting(w, data).0)[q] == NewByte(AbsOf(w), data, q)
  {
    hide Inv, Attached, Held, WriteExisting, PlainByte, Behind, Ptr, ByteAt, Content;
    WriteByte(w, data, q);
  }

  /** All calls of a run stay in range and succeed. */
  ghost predicate RunFine(w: World, ops: seq<FileOp>)
    requires Usable(w) && Clean(w)
    decreases |ops|
  {
    ops == []
    || (OpInRange(w, ops[0]) && DoOp(w, ops[0]).1 == 0
        && (StepRefines(w, ops[0]); RunFine(DoOp(w, ops[0]).0, ops[1..])))
  }

  ghost function Run(w: World, ops: seq<FileOp>): World
    requires Usable(w) && Clean(w) && RunFine(w, ops)
    decreases |ops|
  {
    if ops == [] then w
    else
      StepRefines(w, ops[0]);
      Run(DoOp(w, ops[0]).0, ops[1..])
  }

  ghost predicate AbsRun(a: Abs, ops: seq<FileOp>, b: Abs)
    decreases |ops|
  {
    if ops == [] then b == a else exists m :: AbsStep(a, ops[0], m) && AbsRun(m, ops[1..], b)
  }

  /** Refinement over runs: any sequence of successful writes and seeks on the open file, attaching blocks
      or not, is the same sequence on the machine. */
  lemma {:induction false} RunRefines(w: World, ops: seq<FileOp>)
    requires Usable(w) && Clean(w) && RunFine(w, ops)
    ensures Usable(Run(w, ops)) && Clean(Run(w, ops)) && AbsRun(AbsOf(w), ops, AbsOf(Run(w, ops)))
    decreases |ops|
  {
    hide Usable, Clean, DoOp, AbsStep, OpInRange, AbsOf;
    if ops != [] {
      StepRefines(w, ops[0]);
      RunRefines(DoOp(w, ops[0]).0, ops[1..]);
    }
  }

  /** A read is a read of the machine. */
  lemma ReadRefines(w: World, n: nat)
    requires Usable(w) && ReadInFile(w, n)
    requires Straddles(w.f, n) ==> w.f.pos / BLOCK_SIZE + 1 < 15 && FileBlock(w, w.f.pos / BLOCK_SIZE + 1) < |w.fs.disk|
    ensures w.f.pos + n <= |Content(w)| && ReadBytes(w, n) == AbsRead(AbsOf(w), n)
  {
    hide Inv, Attached, Ptr, Content, ByteAt, ReadBytes, AbsRead;
    ReadLength(w, n);
    UsableHere(w);
    ReadLengthIs(AbsOf(w), n);
    forall i | 0 <= i < n
      ensures ReadBytes(w, n)[i] == AbsRead(AbsOf(w), n)[i]
    {
      ReadByte(w, n, i);
      ReadAt(AbsOf(w), n, i);
    }
  }

  lemma ReadLengthIs(a: Abs, n: nat)
    requires n <= BLOCK_SIZE && a.pos + n <= |a.content|
    ensures |AbsRead(a, n)| == n
  {
  }

  lemma ReadAt(a: Abs, n: nat, i: nat)
    requires n <= BLOCK_SIZE && a.pos + n <= |a.content| && i < n
    ensures var o := a.pos % BLOCK_SIZE + i;
      |AbsRead(a, n)| == n && AbsRead(a, n)[i] == if o < BLOCK_SIZE then a.window[o] else a.content[a.pos + i]
  {
  }

  lemma UsableHere(w: World)
    requires Usable(w)
    ensures Here(w) < |w.fs.disk|
  {
    hide Sane, Describes, Marked, CountsMatch, Mul, InodeAt, Ptr, Attached, Inv;
    UsableFacts(w);
  }

  /** When the window shows the contents, a read delivers the contents at the position. */
  lemma ReadInStep(w: World, n: nat)
    requires InStep(w) && ReadInFile(w, n)
    requires Straddles(w.f, n) ==> w.f.pos / BLOCK_SIZE + 1 < 15 && FileBlock(w, w.f.pos / BLOCK_SIZE + 1) < |w.fs.disk|
    ensures w.f.pos + n <= |Content(w)| && ReadBytes(w, n) == Content(w)[w.f.pos..w.f.pos + n]
  {
    hide Inv, Coherent, ByteAt, Attached, Ptr;
    forall i | 0 <= i < n
      ensures |ReadBytes(w, n)| == n && w.f.pos + i < |Content(w)| && ReadBytes(w, n)[i] == Content(w)[w.f.pos + i]
    {
      ReadIsContent(w, n, i);
    }
    ReadLength(w, n);
  }

  /** The buffer agrees with a block on the bytes that a read of `n` bytes takes from it. */
  predicate AgreesOn(buff: Block, b: Block, pos: nat, n: nat) {
    forall o :: pos % BLOCK_SIZE <= o < BLOCK_SIZE && o < pos % BLOCK_SIZE + n ==> buff[o] == b[o]
  }

  /** Byte `i` of a read: from the buffer in the block of the position, from the file after it. */
  lemma ReadByte(w: World, n: nat, i: nat)
    requires Usable(w) && ReadInFile(w, n) && i < n && Here(w) < |w.fs.disk|
    requires Straddles(w.f, n) ==> w.f.pos / BLOCK_SIZE + 1 < 15 && FileBlock(w, w.f.pos / BLOCK_SIZE + 1) < |w.fs.disk|
    ensures var o := w.f.pos % BLOCK_SIZE + i;
      && |ReadBytes(w, n)| == n && w.f.pos + i < |Content(w)|
      && ReadBytes(w, n)[i] == (if o < BLOCK_SIZE then w.f.buff[o] else Content(w)[w.f.pos + i])
      && (o < BLOCK_SIZE ==> Content(w)[w.f.pos + i] == w.fs.disk[Here(w)][o])
  {
    hide Inv, Attached, Ptr;
    hide Content;
    var k, p := w.f.pos / BLOCK_SIZE, w.f.pos % BLOCK_SIZE;
    ReadLength(w, n);
    if p + i < BLOCK_SIZE {
      Locate(k, p + i);
      ByteIs(w, w.f.pos + i, k, p + i);
      FrontByte(w.f.buff, p, n, i);
    } else {
      Locate(k + 1, p + i - BLOCK_SIZE);
      ByteIs(w, w.f.pos + i, k + 1, p + i - BLOCK_SIZE);
      BackByte(w.f.buff, w.fs.disk[FileBlock(w, k + 1)], p, n, i);
    }
  }

  lemma ByteIs(w: World, q: nat, k: nat, o: nat)
    requires q < |Content(w)| && q / BLOCK_SIZE == k < 15 && q % BLOCK_SIZE == o && FileBlock(w, k) < |w.fs.disk|
    ensures Content(w)[q] == w.fs.disk[FileBlock(w, k)][o]
  {
    hide Attached, Ptr;
  }

  /** A read delivers the contents exactly when the buffer agrees with the disk on the bytes taken from it. */
  lemma ReadExactlyIff(w: World, n: nat)
    requires Usable(w) && ReadInFile(w, n) && Here(w) < |w.fs.disk|
    requires Straddles(w.f, n) ==> w.f.pos / BLOCK_SIZE + 1 < 15 && FileBlock(w, w.f.pos / BLOCK_SIZE + 1) < |w.fs.disk|
    ensures w.f.pos + n <= |Content(w)|
    ensures ReadBytes(w, n) == Content(w)[w.f.pos..w.f.pos + n] <==> AgreesOn(w.f.buff, w.fs.disk[Here(w)], w.f.pos, n)
  {
    hide Inv, Attached, Ptr, ByteAt, Content, ReadBytes;
    ReadLength(w, n);
    var r, c, p := ReadBytes(w, n), Content(w), w.f.pos % BLOCK_SIZE;
    if r == c[w.f.pos..w.f.pos + n] {
      forall o | p <= o < BLOCK_SIZE && o < p + n
        ensures w.f.buff[o] == w.fs.disk[Here(w)][o]
      {
        ReadByte(w, n, o - p);
        assert r[o - p] == c[w.f.pos + (o - p)];
      }
    }
    if AgreesOn(w.f.buff, w.fs.disk[Here(w)], w.f.pos, n) {
      forall i | 0 <= i < n
        ensures r[i] == c[w.f.pos + i]
      {
        ReadByte(w, n, i);
      }
    }
  }

  lemma ReadLength(w: World, n: nat)
    requires InFile(w.f) && ReadInFile(w, n)
    requires Straddles(w.f, n) ==> w.f.pos / BLOCK_SIZE + 1 < 15 && FileBlock(w, w.f.pos / BLOCK_SIZE + 1) < |w.fs.disk|
    ensures |ReadBytes(w, n)| == n && w.f.pos + n <= BLOCK_SIZE * Attached(w.f.inode)
  {
    hide Attached, Ptr;
  }

  /** No call of the run writes. */
  predicate SeeksOnly(ops: seq<FileOp>) {
    forall i :: 0 <= i < |ops| ==> ops[i].OpSeek?
  }

  /** A run of seeks keeps the bytes of the file, and shows the block of the position whenever it is one
      of those attached before the run. */
  lemma {:induction false} SeeksKeep(w: World, ops: seq<FileOp>, k: nat)
    requires Usable(w) && Clean(w) && RunFine(w, ops) && SeeksOnly(ops)
    requires k <= Attached(w.f.inode) && (w.f.pos / BLOCK_SIZE < k ==> Coherent(w))
    ensures var r := Run(w, ops);
      && Usable(r) && Clean(r) && Content(w) <= Content(r) && (r.f.pos / BLOCK_SIZE < k ==> Coherent(r))
    decreases |ops|
  {
    hide Inv, Coherent, Content, Attached, SeekExisting, ByteAt, AbsStep, LowerSize;
    if ops != [] {
      var p, w2 := ops[0].newPos, DoOp(w, ops[0]).0;
      StepRefines(w, ops[0]);
      if p != w.f.pos {
        if p / BLOCK_SIZE < Attached(w.f.inode) {
          SeekLoads(w, p);
          SameContent(w, w2);
        } else {
          SeekAppends(w, p);
        }
      }
      SeeksKeep(w2, ops[1..], k);
    }
  }

  lemma SameContent(a: World, b: World)
    requires a.fs == b.fs && a.f.inode == b.f.inode
    ensures Content(a) == Content(b)
  {
  }

  /** A read of as many bytes at the position delivers `data`. */
  predicate ReadsBack(w: World, data: seq<byte>) {
    && ReadInFile(w, |data|)
    && (Straddles(w.f, |data|) ==>
          w.f.pos / BLOCK_SIZE + 1 < 15 && FileBlock(w, w.f.pos / BLOCK_SIZE + 1) < |w.fs.disk|)
    && ReadBytes(w, |data|) == data
  }

  /** After a write any usable file is in step with the simple file. */
  lemma WriteInStep(w: World, data: seq<byte>)
    requires Usable(w) && Clean(w) && |data| <= BLOCK_SIZE
    ensures InStep(WriteExisting(w, data).0)
  {
    hide Sane, Describes, Marked, CountsMatch, Mul, InodeAt, Ptr, Inv, Attached, Held, WriteExisting;
    WriteInv(w, data);
    WriteCoherent(w, data);
  }

  /** Written bytes are read back: right after the write, and after any run of seeks that returns to
      the position. This holds for every usable file, whatever its buffer held before the write, for
      writes that straddle two blocks, whether or not the second one had to be allocated, and for seeks
      that attach blocks. */
  lemma WriteReadBack(w: World, data: seq<byte>, w2: World, ops: seq<FileOp>)
    requires Usable(w) && Clean(w) && |data| <= BLOCK_SIZE && WriteExisting(w, data) == (w2, 0)
    requires InStep(w2) && RunFine(w2, ops) && SeeksOnly(ops) && Run(w2, ops).f.pos == w.f.pos
    ensures ReadsBack(Run(w2, ops), data)
  {
    hide Sane, Describes, Marked, CountsMatch, Mul, InodeAt, Ptr, Inv, Attached, Held, WriteExisting, SeekExisting,
      NewByte, ByteAt, Run, RunFine, AbsStep, Coherent, Content, ReadsBack, SeeksOnly;
    SeeksKeep(w2, ops, Attached(w2.f.inode));
    WriteTouches(w, data);
    WriteLength(w, data);
    LengthCovers(|Content(w)|, w.f.pos, |data|);
    WrittenContent(w, data, w2);
    ReadsKept(Run(w2, ops), Content(w2), data);
  }

  /** A file in step whose contents start with `c` reads what `c` has at the position. */
  lemma ReadsKept(r: World, c: seq<byte>, data: seq<byte>)
    requires InStep(r) && c <= Content(r) && r.f.pos + |data| <= |c| && |data| <= BLOCK_SIZE
    requires c[r.f.pos..r.f.pos + |data|] == data
    ensures ReadsBack(r, data)
  {
    hide Inv, Attached, Ptr, Content, ByteAt, Coherent, ReadBytes;
    ContentCovers(r, |data|);
    ReadSafe(r, |data|);
    ReadInStep(r, |data|);
    assert Content(r)[r.f.pos..r.f.pos + |data|] == c[r.f.pos..r.f.pos + |data|];
  }

  lemma ContentCovers(r: World, n: nat)
    requires r.f.pos + n <= |Content(r)| && n <= BLOCK_SIZE
    ensures ReadInFile(r, n)
  {
    hide Attached, ByteAt;
  }

  lemma WrittenContent(w: World, data: seq<byte>, w2: World)
    requires Usable(w) && |data| <= BLOCK_SIZE && WriteExisting(w, data) == (w2, 0)
    requires w.f.pos + |data| <= |Content(w2)|
    ensures Content(w2)[w.f.pos..w.f.pos + |data|] == data
  {
    hide Sane, Describes, Marked, CountsMatch, Mul, InodeAt, Ptr, Inv, Attached, Held, WriteExisting, ByteAt;
    forall i | 0 <= i < |data|
      ensures Content(w2)[w.f.pos + i] == data[i]
    {
      WriteContents(w, data, w.f.pos + i);
    }
  }

  lemma LengthCovers(len: nat, pos: nat, n: nat)
    requires (pos / BLOCK_SIZE + 1) * BLOCK_SIZE <= len && n <= BLOCK_SIZE
    ensures pos + n <= NewLength(len, pos, n)
    ensures pos % BLOCK_SIZE + n > BLOCK_SIZE ==> (pos / BLOCK_SIZE + 2) * BLOCK_SIZE <= NewLength(len, pos, n)
  {
  }

  /** The size after a write is the old size or the end of the write, whichever is larger, exactly when
      the position is in the first block or the write ends inside the old size. */
  lemma SizeExactly(w: World, data: seq<byte>)
    requires Usable(w) && |data| <= BLOCK_SIZE && WriteExisting(w, data).1 == 0
    ensures var was, end := LowerSize(w.f.inode), w.f.pos + |data|;
      LowerSize(WriteExisting(w, data).0.f.inode) == (if end > was then end else was)
      <==> w.f.pos < BLOCK_SIZE || end <= was
  {
    hide Sane, Describes, Marked, CountsMatch, Mul, InodeAt, Ptr, Inv, Attached, Held, WriteExisting, LowerSize;
    WriteInode(w, data);
  }

  /** Every other tracked inode keeps its bytes, and its blocks their contents. */
  ghost predicate Untouched(a: Fs, b: Fs, n: nat) {
    && Mounted(a) && Mounted(b) && a.g == b.g && ValidIno(a.g, n)
    && Image(b, n) == Image(a, n)
    && forall q: nat :: q < BLOCK_SIZE * Attached(Image(a, n))
         ==> ByteAt(b.disk, Image(a, n), q) == ByteAt(a.disk, Image(a, n), q)
  }

  /** Isolation: a write to the open file, successful or not, leaves every other tracked inode and every
      byte of its contents alone. */
  lemma WriteIsolated(w: World, data: seq<byte>, n: nat)
    requires Usable(w) && |data| <= BLOCK_SIZE && n in w.tracked && n != w.f.inodeNum
    ensures Untouched(w.fs, WriteExisting(w, data).0.fs, n)
  {
    hide Sane, Describes, Marked, CountsMatch, Mul, InodeAt, Ptr, Attached, WriteExisting, SectorsToBlocks, DirOk,
      KindOk, InodeUsed, BlockUsed;
    var b := WriteExisting(w, data).0.fs;
    assert InodeOwned(w.fs, n);
    UsableFacts(w);
    WriteTouches(w, data);
    SecondIsOurs(w, data);
    var D := {Here(w), Second(w, data)};
    TouchesFacts(w.fs, b, D, {w.f.inodeNum});
    SameInodeIn(w.fs, b, D, {w.f.inodeNum}, n);
    forall q: nat | q < BLOCK_SIZE * Attached(Image(w.fs, n))
      ensures ByteAt(b.disk, Image(w.fs, n), q) == ByteAt(w.fs.disk, Image(w.fs, n), q)
    {
      var i := q / BLOCK_SIZE;
      assert Held(w.fs.g, w.fs.disk, PtrOf(w.fs.g, w.fs.disk, n, i));
      assert Apart(w.fs, w.f.inodeNum, w.f.pos / BLOCK_SIZE, n, i);
      assert Apart(w.fs, w.f.inodeNum, w.f.pos / BLOCK_SIZE + 1, n, i);
    }
  }

  /** A seek, successful or not, changes no data and no inode but the file's own. */
  lemma SeekTouches(w: World, p: nat)
    requires Inv(w) && w.f.open && w.f.exist && Clean(w) && p < 0x1_0000_0000
    ensures var w2 := SeekExisting(w, p).0;
      Touches(w.fs, w2.fs, {}, {w.f.inodeNum}) && w2.tracked == w.tracked && w2.f.inodeNum == w.f.inodeNum
  {
    hide Sane, Describes, Marked, CountsMatch, BlockUsed, InodeUsed, Mul, InodeAt, Ptr, IsData, Moved, AttachBlock,
      AllocBlock, Sectors, SectorsToBlocks, Held, Attached, Owned, DirOk, Resize, PutInode, Splice, LowerSize, TypePerm,
      AttachNew, Touches, Sound;
    var none: set<nat> := {};
    MovedInv(w, p);
    var w1 := Moved(w, p);
    MountedFile(w1);
    if Allocated(w1.f) < p / BLOCK_SIZE + 1 {
      AttachNewKeeps(w1);
      var (w3, blk) := AttachNew(w1);
      TouchesFacts(w1.fs, w3.fs, {}, {});
      if blk != 0 {
        SetInodeTouches(w3.fs, w.f.inodeNum, Resize(w3.f.inode, p % BLOCK_SIZE));
        TouchesTrans(w1.fs, w3.fs, SeekExisting(w, p).0.fs, {}, {}, {}, {w.f.inodeNum});
        assert none + {w.f.inodeNum} == {w.f.inodeNum} && none + none == none;
      } else {
        TouchesWiden(w1.fs, w3.fs, {}, {}, {}, {w.f.inodeNum});
      }
    } else {
      TouchesSelf(w.fs, {w.f.inodeNum});
    }
  }

  lemma TouchesSelf(fs: Fs, I: set<nat>)
    requires Good(fs)
    ensures Touches(fs, fs, {}, I)
  {
  }

  /** What a change does to an inode outside it, and to its contents: nothing. */
  lemma KeptByTouches(a: Fs, b: Fs, T: set<nat>, D: set<nat>, I: set<nat>, n: nat)
    requires Sound(a, T) && Touches(a, b, D, I) && n in T && n !in I && ValidIno(a.g, n)
    requires forall i :: 0 <= i < Attach(a.g, a.disk, n) ==> PtrOf(a.g, a.disk, n, i) !in D
    ensures Untouched(a, b, n)
  {
    hide Sane, Describes, Marked, CountsMatch, BlockUsed, InodeUsed, Mul, InodeAt, Ptr, Attached, DirOk, KindOk;
    assert InodeOwned(a, n);
    SameInodeIn(a, b, D, I, n);
    forall q: nat | q < BLOCK_SIZE * Attached(Image(a, n))
      ensures ByteAt(b.disk, Image(a, n), q) == ByteAt(a.disk, Image(a, n), q)
    {
      assert Held(a.g, a.disk, PtrOf(a.g, a.disk, n, q / BLOCK_SIZE));
    }
  }

  lemma SeekIsolated(w: World, p: nat, n: nat)
    requires Inv(w) && w.f.open && w.f.exist && Clean(w) && p < 0x1_0000_0000 && n in w.tracked && n != w.f.inodeNum
    ensures Untouched(w.fs, SeekExisting(w, p).0.fs, n)
  {
    hide Sane, Describes, Marked, CountsMatch, Mul, InodeAt, Ptr, Attached, SeekExisting, DirOk, Touches, Owned;
    SeekTouches(w, p);
    Tracked(w.fs, w.tracked, n);
    KeptByTouches(w.fs, SeekExisting(w, p).0.fs, w.tracked, {}, {w.f.inodeNum}, n);
  }

  /** ... and so does every run of successful writes and seeks. */
  lemma {:induction false} RunIsolated(w: World, ops: seq<FileOp>, n: nat)
    requires Usable(w) && Clean(w) && RunFine(w, ops) && n in w.tracked && n != w.f.inodeNum
    ensures Untouched(w.fs, Run(w, ops).fs, n)
    decreases |ops|
  {
    hide Sane, Describes, Marked, CountsMatch, Mul, InodeAt, Owned, DirOk, DoOp, OpInRange, ByteAt, FileOk, AbsStep;
    if ops == [] {
      Tracked(w.fs, w.tracked, n);
    } else {
      var w2 := DoOp(w, ops[0]).0;
      StepRefines(w, ops[0]);
      OpIsolated(w, ops[0], n);
      RunIsolated(w2, ops[1..], n);
    }
  }

  lemma Tracked(fs: Fs, T: set<nat>, n: nat)
    requires Sound(fs, T) && n in T
    ensures ValidIno(fs.g, n)
  {
    hide Sane, Describes, Marked, CountsMatch, Mul, DirOk, KindOk, Held, InodeUsed;
    assert InodeOwned(fs, n);
  }

  lemma OpIsolated(w: World, op: FileOp, n: nat)
    requires Usable(w) && Clean(w) && OpInRange(w, op) && DoOp(w, op).1 == 0 && n in w.tracked && n != w.f.inodeNum
    ensures var w2 := DoOp(w, op).0;
      Untouched(w.fs, w2.fs, n) && w2.tracked == w.tracked && w2.f.inodeNum == w.f.inodeNum
  {
    hide Sane, Describes, Marked, CountsMatch, Mul, InodeAt, Ptr, Inv, Attached, Held, WriteExisting, SeekExisting,
      ByteAt, Touches;
    match op
    case OpWrite(data) =>
      WriteIsolated(w, data, n);
      WriteTouches(w, data);
    case OpSeek(p) =>
      UsableTracked(w, n);
      if p != w.f.pos {
        SeekTouches(w, p);
        SeekIsolated(w, p, n);
      }
  }

  lemma UsableTracked(w: World, n: nat)
    requires Usable(w) && n in w.tracked
    ensures Mounted(w.fs) && ValidIno(w.fs.g, n)
  {
    hide Sane, Describes, Marked, CountsMatch, Mul, Owned, DirOk, FileOk;
    Tracked(w.fs, w.tracked, n);
  }
}
