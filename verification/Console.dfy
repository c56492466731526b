/** The text console: an 80 by 25 buffer of cells written through a moving pointer. It shows a window on
    the unbounded log of everything printed. */
module Console {
  import opened Bytes
  import opened Paths
  import opened Strings

  const WIDTH: nat := 80
  const HEIGHT: nat := 25
  const CELLS: nat := 2000
  const NEWLINE: byte := 10

  /** A printed character with its colours. */
  datatype Glyph = Glyph(c: byte, background: byte, foreground: byte)

  /** The 16-bit cell: background and foreground nibbles above the character. */
  function Cell(x: Glyph): nat {
    (x.background % 16 * 16 + x.foreground % 16) * 256 + x.c
  }

  const BLANK: nat := Cell(Glyph(32, 0, 15))

  /** The parts of a cell: the character below, then the foreground, then the background. */
  predicate Holds(cell: nat, c: byte, background: byte, foreground: byte) {
    cell % 256 == c && cell / 256 % 16 == foreground % 16 && cell / 4096 == background % 16
  }

  lemma CellHolds(x: Glyph)
    ensures Holds(Cell(x), x.c, x.background, x.foreground) && BLANK == 0x0F20
  {
  }

  lemma CellIs(cell: nat, c: byte, background: byte, foreground: byte)
    requires Holds(cell, c, background, foreground)
    ensures cell == background % 16 * 4096 + foreground % 16 * 256 + c
  {
    assert cell / 4096 == cell / 256 / 16;
  }

  /** One character on the screen `was` with the pointer at `i`. A newline moves the pointer to the end of the
      row that it has reached into. Another character goes into the cell at the pointer; when the screen is
      full, the rows first move up and the last one becomes blank. */
  predicate Typed(was: seq<nat>, i: nat, x: Glyph, now: seq<nat>, j: nat)
    requires |was| == |now| == 2000 && i <= 2000
  {
    if x.c == 10 then now == was && j == if i == 0 then 80 else (i + 79) / 80 * 80
    else if i < 2000 then
      j == i + 1 && Holds(now[i], x.c, x.background, x.foreground)
      && forall k :: 0 <= k < 2000 && k != i ==> now[k] == was[k]
    else
      j == 1921 && Holds(now[1920], x.c, x.background, x.foreground)
      && forall k :: 0 <= k < 2000 && k != 1920 ==> now[k] == if k < 1920 then was[k + 80] else 0x0F20
  }

  // The log: what a text looks like on an endless sheet of 80 columns.

  /** Where a newline moves a position: to the end of the row it has reached into; the first row counts
      as reached. */
  function RowEnd(p: nat): nat {
    if p == 0 then WIDTH else ((p - 1) / WIDTH + 1) * WIDTH
  }

  /** The position after a text. */
  function Pos(t: seq<Glyph>): nat {
    if t == [] then 0
    else if t[|t| - 1].c == NEWLINE then RowEnd(Pos(t[..|t| - 1]))
    else Pos(t[..|t| - 1]) + 1
  }

  /** Cells that nothing was printed to: the initial screen, and blanks below it. */
  function Initial(screen: seq<nat>, p: nat): nat {
    if p < |screen| then screen[p] else BLANK
  }

  /** The cell at log position `p` after a text. */
  function LogCell(screen: seq<nat>, t: seq<Glyph>, p: nat): nat {
    if t == [] then Initial(screen, p)
    else
      var init, x := t[..|t| - 1], t[|t| - 1];
      if x.c != NEWLINE && Pos(init) == p then Cell(x) else LogCell(screen, init, p)
  }

  /** The number of rows scrolled away when the log position is `p`. */
  function Scrolled(p: nat): nat {
    if p <= CELLS then 0 else (p - CELLS + WIDTH - 1) / WIDTH
  }

  /** Nothing was printed at or after the position. */
  lemma {:induction false} Unwritten(screen: seq<nat>, t: seq<Glyph>, p: nat)
    requires Pos(t) <= p
    ensures LogCell(screen, t, p) == if p < |screen| then screen[p] else 0x0F20
  {
    if t != [] {
      Unwritten(screen, t[..|t| - 1], p);
    }
  }

  /** The log is never rewritten: positions passed keep their cells whatever is printed later. */
  lemma {:induction false} LogIsWriteOnce(screen: seq<nat>, t: seq<Glyph>, u: seq<Glyph>, p: nat)
    requires p < Pos(t)
    ensures Pos(t) <= Pos(t + u) && LogCell(screen, t + u, p) == LogCell(screen, t, p)
  {
    if u == [] {
      assert t + u == t;
    } else {
      var v := u[..|u| - 1];
      assert (t + u)[..|t + u| - 1] == t + v;
      LogIsWriteOnce(screen, t, v, p);
    }
  }

  /** Every printed character is in the log, at the position reached when it was printed. */
  lemma LogHoldsText(screen: seq<nat>, t: seq<Glyph>, i: nat)
    requires i < |t| && t[i].c != NEWLINE
    ensures Holds(LogCell(screen, t, Pos(t[..i])), t[i].c, t[i].background, t[i].foreground)
  {
    CellHolds(t[i]);
    var u := t[..i + 1];
    assert u[..i] == t[..i];
    assert u + t[i + 1..] == t;
    LogIsWriteOnce(screen, u, t[i + 1..], Pos(t[..i]));
  }

  /** A newline at the start of a row other than the first leaves the position alone. */
  lemma NewlineIdempotent(p: nat)
    ensures RowEnd(p) % WIDTH == 0 && RowEnd(RowEnd(p)) == RowEnd(p)
    ensures p > 0 ==> p <= RowEnd(p) < p + WIDTH
  {
  }

  /** The scroll test, with its division by twice the height, fires exactly at the end of the screen. */
  lemma ScrollTest(at: nat)
    requires at <= CELLS
    ensures (Line(at) >= HEIGHT - 1 && 2 * at / (HEIGHT * 2) == WIDTH) <==> at == CELLS
    ensures Line(at) < HEIGHT
  {
  }

  /** The current line as the driver computes it from the byte address of the pointer. */
  function Line(at: nat): nat {
    if at == 0 then 2 * at / (WIDTH * 2) else 2 * (at - 1) / (WIDTH * 2)
  }

  /** Moving on by one character: the window moves exactly when the screen was full. */
  lemma WindowStep(p: nat)
    requires Scrolled(p) * WIDTH <= p
    ensures p - Scrolled(p) * WIDTH <= CELLS
    ensures Scrolled(p + 1) == Scrolled(p) + (if p - Scrolled(p) * WIDTH == CELLS then 1 else 0)
    ensures Scrolled(p + 1) * WIDTH <= p + 1
  {
  }

  /** A newline never moves the window. */
  lemma WindowNewline(p: nat)
    requires Scrolled(p) * WIDTH <= p
    ensures var at := p - Scrolled(p) * WIDTH;
      && Scrolled(RowEnd(p)) == Scrolled(p) && Scrolled(p) * WIDTH <= RowEnd(p)
      && RowEnd(p) - Scrolled(p) * WIDTH == (Line(at) + 1) * WIDTH
  {
    var s := Scrolled(p);
    if s > 0 {
      assert p - s * WIDTH > CELLS - WIDTH;
    }
  }

  /** One more character: the position and the one cell that changes. */
  lemma LogStep(screen: seq<nat>, t: seq<Glyph>, x: Glyph, q: nat)
    ensures Pos(t + [x]) == if x.c == NEWLINE then RowEnd(Pos(t)) else Pos(t) + 1
    ensures LogCell(screen, t + [x], q)
         == if x.c != NEWLINE && q == Pos(t) then Cell(x) else LogCell(screen, t, q)
  {
    assert (t + [x])[..|t|] == t;
  }

  /** A character drawn on the screen, after the rows have moved up if it was full. */
  lemma TypedIs(was: seq<nat>, i: nat, moved: seq<nat>, x: Glyph)
    requires |was| == |moved| == CELLS && i <= CELLS && x.c != NEWLINE
    requires i < CELLS ==> moved == was
    requires i == CELLS ==>
      forall k :: 0 <= k < CELLS ==> moved[k] == if k < CELLS - WIDTH then was[k + WIDTH] else BLANK
    ensures var j := if i < CELLS then i else CELLS - WIDTH; Typed(was, i, x, moved[j := Cell(x)], j + 1)
  {
    CellHolds(x);
    hide Holds, Cell;
  }

  lemma NextLine(at: nat)
    ensures (Line(at) + 1) * WIDTH == if at == 0 then 80 else (at + 79) / 80 * 80
  {
  }

  lemma BelowScreen(screen: seq<nat>, p: nat)
    requires |screen| <= p
    ensures Initial(screen, p) == BLANK
  {
  }

  class Vga {
    const cells: array<nat>
    /** The pointer, as a cell index, and the hardware cursor. */
    var at: nat
    var cursor: nat
    ghost const screen: seq<nat>
    ghost var text: seq<Glyph>

    /** The screen is the window of 25 rows on the log of the text, and the pointer is its position. */
    ghost predicate Valid()
      reads this, cells
    {
      && cells.Length == CELLS && |screen| == CELLS
      && Scrolled(Pos(text)) * WIDTH <= Pos(text)
      && at == Pos(text) - Scrolled(Pos(text)) * WIDTH <= CELLS
      && Shows(Scrolled(Pos(text)) * WIDTH)
    }

    /** The screen holds the 2000 cells of the log from `base` on. */
    ghost predicate Shows(base: nat)
      requires cells.Length == CELLS
      reads this, cells
    {
      forall k :: 0 <= k < CELLS ==> cells[k] == LogCell(screen, text, base + k)
    }

    constructor (cells: array<nat>)
      requires cells.Length == CELLS
      ensures this.cells == cells && Valid() && text == [] && screen == cells[..] && at == cursor == 0
    {
      this.cells := cells;
      at, cursor := 0, 0;
      screen := cells[..];
      text := [];
    }

    /** `__vga_clear_line`: the pointer is saved and restored. */
    method ClearLine(line: nat)
      requires cells.Length == CELLS && line < HEIGHT
      modifies this`at, cells
      ensures at == old(at)
      ensures forall k :: 0 <= k < CELLS ==>
        cells[k] == if line * WIDTH <= k < (line + 1) * WIDTH then BLANK else old(cells[k])
    {
      var i, oldAt := 0, at;
      at := line * WIDTH;
      while i < WIDTH
        invariant 0 <= i <= WIDTH && at == line * WIDTH + i
        invariant forall k :: 0 <= k < CELLS ==>
          cells[k] == if line * WIDTH <= k < line * WIDTH + i then BLANK else old(cells[k])
      {
        cells[at] := BLANK;
        at := at + 1;
        i := i + 1;
      }
      at := oldAt;
    }

    /** `__vga_scroll`: rows move up by one, the pointer ends at the start of the last row. */
    method Scroll()
      requires cells.Length == CELLS
      modifies this`at, cells
      ensures at == CELLS - WIDTH
      ensures forall k :: 0 <= k < CELLS ==> cells[k] == if k < CELLS - WIDTH then old(cells[k + WIDTH]) else BLANK
    {
      at := 0;
      var i, tmp := 0, WIDTH;
      while i < WIDTH * (HEIGHT - 1)
        invariant 0 <= i <= WIDTH * (HEIGHT - 1) && at == i && tmp == i + WIDTH
        invariant forall k :: 0 <= k < CELLS ==> cells[k] == if k < i then old(cells[k + WIDTH]) else old(cells[k])
      {
        cells[at] := cells[tmp];
        at := at + 1;
        tmp := tmp + 1;
        i := i + 1;
      }
      ClearLine(HEIGHT - 1);
    }

    /** Scrolling a full screen shows the log one row further on. */
    method ScrollWindow()
      requires Valid() && at == CELLS
      modifies this`at, cells
      ensures at == CELLS - WIDTH && Shows((Scrolled(Pos(text)) + 1) * WIDTH)
      ensures forall k :: 0 <= k < CELLS ==> cells[k] == if k < CELLS - WIDTH then old(cells[k + WIDTH]) else BLANK
    {
      hide Pos, LogCell, RowEnd, Scrolled, Initial;
      ghost var base := Scrolled(Pos(text)) * WIDTH;
      Scroll();
      forall k | 0 <= k < CELLS
        ensures cells[k] == LogCell(screen, text, base + WIDTH + k)
      {
        if k >= CELLS - WIDTH {
          Unwritten(screen, text, base + WIDTH + k);
          BelowScreen(screen, base + WIDTH + k);
        } else {
          assert cells[k] == old(cells[k + WIDTH]);
          assert base + WIDTH + k == base + (k + WIDTH);
        }
      }
    }

    /** Printing a character that is not a newline, with a scroll before it when the screen is full. */
    method PutGlyph(x: Glyph, line: nat)
      requires Valid() && x.c != NEWLINE && line == Line(at)
      modifies this`at, this`text, cells
      ensures Valid() && text == old(text) + [x]
      ensures Typed(old(cells[..]), old(at), x, cells[..], at)
    {
      LogStep(screen, text, x, 0);
      hide Pos, LogCell, RowEnd, Scrolled, Cell, Initial, Line, Typed;
      ghost var base := Scrolled(Pos(text) + 1) * WIDTH;
      ghost var was, i := cells[..], at;
      MakeRoom(line);
      ghost var before, j := cells[..], at;
      assert i < CELLS ==> before == was;
      assert i == CELLS ==> forall k :: 0 <= k < CELLS ==> before[k] == if k < CELLS - WIDTH then was[k + WIDTH] else BLANK;
      Draw(x, base);
      TypedIs(was, i, before, x);
      assert cells[..] == before[j := Cell(x)];
      assert at == Pos(text) - base <= CELLS && base == Scrolled(Pos(text)) * WIDTH;
    }

    /** The scroll test: a full screen moves up, and the pointer is where the next character goes. */
    method MakeRoom(line: nat)
      requires Valid() && line == Line(at)
      modifies this`at, cells
      ensures var base := Scrolled(Pos(text) + 1) * WIDTH; Shows(base) && base + at == Pos(text) && base <= Pos(text) + 1
      ensures at == if old(at) < CELLS then old(at) else CELLS - WIDTH
      ensures old(at) < CELLS ==> cells[..] == old(cells[..])
      ensures old(at) == CELLS ==>
        forall k :: 0 <= k < CELLS ==> cells[k] == if k < CELLS - WIDTH then old(cells[k + WIDTH]) else BLANK
    {
      hide Pos, LogCell, RowEnd, Scrolled, Initial, Line;
      ScrollTest(at);
      WindowStep(Pos(text));
      if line >= HEIGHT - 1 && 2 * at / (HEIGHT * 2) == WIDTH {
        ScrollWindow();
      }
    }

    /** Writing the cell at the pointer adds the character to the log that the screen shows. */
    method Draw(x: Glyph, ghost base: nat)
      requires cells.Length == CELLS && Shows(base) && at < CELLS && x.c != NEWLINE && base + at == Pos(text)
      modifies this`at, this`text, cells
      ensures text == old(text) + [x] && at == old(at) + 1 && Shows(base)
      ensures cells[..] == old(cells[..])[old(at) := Cell(x)]
    {
      hide Pos, LogCell, RowEnd, Scrolled, Cell, Initial;
      cells[at] := Cell(x);
      forall k | 0 <= k < CELLS
        ensures cells[k] == LogCell(screen, text + [x], base + k)
      {
        LogStep(screen, text, x, base + k);
      }
      text := text + [x];
      at := at + 1;
    }

    /** The part that `vga_print_char` and the loop of `vga_print` share. */
    method Put(x: Glyph)
      requires Valid()
      modifies this`at, this`text, cells
      ensures Valid() && text == old(text) + [x]
      ensures Typed(old(cells[..]), old(at), x, cells[..], at)
    {
      var line := Line(at);
      if x.c == NEWLINE {
        ghost var p, u := Pos(text), text + [x];
        LogStep(screen, text, x, 0);
        hide Pos, LogCell, RowEnd, Scrolled, Cell, Line;
        ScrollTest(at);
        WindowNewline(p);
        NextLine(at);
        at := (line + 1) * WIDTH;
        forall k | 0 <= k < CELLS
          ensures cells[k] == LogCell(screen, u, Scrolled(p) * WIDTH + k)
        {
          LogStep(screen, text, x, Scrolled(p) * WIDTH + k);
        }
        text := u;
      } else {
        PutGlyph(x, line);
      }
    }

    /** `__vga_update_cursor` with the coordinates that the callers compute. */
    method UpdateCursor()
      requires at <= CELLS
      modifies this`cursor
      ensures cursor == at
    {
      var y := 2 * at / (WIDTH * 2);
      var x := 2 * at / 2 - y * WIDTH;
      cursor := y * WIDTH + x;
    }

    /** `vga_print_char`. */
    method PrintChar(c: byte, background: byte, foreground: byte)
      requires Valid()
      modifies this, cells
      ensures Valid() && text == old(text) + [Glyph(c, background, foreground)] && cursor == at
      ensures Typed(old(cells[..]), old(at), Glyph(c, background, foreground), cells[..], at)
    {
      Put(Glyph(c, background, foreground));
      UpdateCursor();
    }

    /** `vga_print`: a C string, up to its terminator. */
    method Print(txt: seq<byte>, background: byte, foreground: byte)
      requires Valid() && Terminated(txt)
      modifies this, cells
      ensures Valid() && text == old(text) + Styled(CString(txt), background, foreground) && cursor == at
    {
      hide Pos, LogCell, RowEnd, Scrolled, Styled, CString;
      ghost var z :| 0 <= z < |txt| && txt[z] == 0;
      var i := 0;
      assert Styled(txt[..0], background, foreground) == [];
      while txt[i] != 0
        invariant 0 <= i <= z && Valid()
        invariant forall k :: 0 <= k < i ==> txt[k] != 0
        invariant text == old(text) + Styled(txt[..i], background, foreground)
        decreases z - i
      {
        Put(Glyph(txt[i], background, foreground));
        StyledStep(txt, i, background, foreground);
        i := i + 1;
      }
      CStringIs(txt, i);
      UpdateCursor();
    }
  }

  function Styled(s: seq<byte>, background: byte, foreground: byte): (r: seq<Glyph>)
    ensures |r| == |s| && forall i :: 0 <= i < |s| ==> r[i] == Glyph(s[i], background, foreground)
  {
    if s == [] then [] else Styled(s[..|s| - 1], background, foreground) + [Glyph(s[|s| - 1], background, foreground)]
  }

  lemma StyledStep(s: seq<byte>, i: nat, background: byte, foreground: byte)
    requires i < |s|
    ensures Styled(s[..i + 1], background, foreground)
         == Styled(s[..i], background, foreground) + [Glyph(s[i], background, foreground)]
  {
    assert s[..i + 1][..i] == s[..i];
  }

  /** A letter in light blue on black, a newline and another letter: the words on the screen. */
  method Letters(cells: array<nat>) returns (out: Vga)
    requires cells.Length == 2000
    modifies cells
    ensures out.Valid() && out.cells == cells && cells[0] == 0x0941 && cells[80] == 0x0942 && out.cursor == 81
  {
    hide Pos, LogCell, RowEnd, Scrolled, Cell, Initial, Line, Holds;
    out := new Vga(cells);
    out.PrintChar(65, 0, 9);
    CellIs(cells[..][0], 65, 0, 9);
    out.PrintChar(10, 0, 9);
    out.PrintChar(66, 0, 9);
    CellIs(cells[..][80], 66, 0, 9);
  }
}
