/**
 The text console as a value: 25 rows of 80 cells, a ring of 100 evicted rows, a scroll
 offset, the VGA mirror and the hardware cursor.  Each function is what one C function does
 to that state; module Console proves the array code against them.
 */
module ConsoleModel {
  import opened CTypes
  import CStrings

  type Cell = U16

  const BLANK: Cell := 0x0720

  /** `((uint16_t)vga_color << 8) | c`, with vga_color == 7 and c sign-extended by promotion. */
  function CellOf(c: Char): Cell {
    if c < 0 then 0x1_0000 + c else 0x0700 + c
  }

  type Row = r: seq<Cell> | |r| == 80 witness seq(80, _ => BLANK)

  /** The glyph is the character's byte; the sign of a char from 0x80 up fills the attribute byte. */
  lemma CellBytes(c: Char)
    ensures CellOf(c) % 0x100 == Unsigned(c)
    ensures CellOf(c) / 0x100 == if c < 0 then 0xFF else 0x07
  {
  }

  /** The C expression on bits, for the char whose byte is b: the char is sign-extended, then ORed with the colour. */
  lemma CellBits(b: bv16)
    requires b < 0x100
    ensures var c: Char := if b < 0x80 then b as int else b as int - 0x100;
      var promoted := if b < 0x80 then b else 0xFF00 | b;
      CellOf(c) == ((7 << 8) | promoted) as int
  {
    if b < 0x80 {
      assert (7 << 8) | b == 0x0700 + b;
    } else {
      assert (7 << 8) | (0xFF00 | b) == 0xFF00 + b;
    }
  }

  /** Blank cells, the prompt and the quadrant lines, as the characters they are. */
  lemma Glyphs()
    ensures BLANK == CellOf(SPACE) == 0x0720
    ensures |PROMPT| == |"LifeOS> "| && forall i :: 0 <= i < |PROMPT| ==> PROMPT[i] == "LifeOS> "[i] as int
  {
  }

  function BlankRow(): Row {
    seq(80, _ => BLANK)
  }

  type Grid = g: seq<Row> | |g| == 25 witness seq<Row>(25, _ => BlankRow())
  type Ring = g: seq<Row> | |g| == 100 witness seq<Row>(100, _ => BlankRow())
  type Col = x: int | 0 <= x < 80
  type Line = y: int | 0 <= y < 25
  type Slot = i: int | 0 <= i < 100
  type Count = i: int | 0 <= i <= 100

  datatype Con = Con(
    screen: Grid,       // screen_buffer
    ring: Ring,         // scrollback
    start: Slot,        // sb_start
    count: Count,       // sb_count
    view: nat,          // sb_view
    vga: Grid,          // vga_buffer, row by row
    cx: Col,
    cy: Line,
    hw: nat,            // cursor position held by CRTC registers 14 and 15
    serial: seq<Char>)  // everything sent to the serial port

  // ---------------------------------------------------------------- the C functions

  function UpdateCursor(c: Con): Con {
    c.(hw := c.cy * 80 + c.cx)
  }

  function PushRow(c: Con, row: Row): Con {
    var idx := (c.start + c.count) % 100;
    var c1 := c.(ring := c.ring[idx := row]);
    if c.count < 100 then c1.(count := c.count + 1)
    else c1.(start := (c.start + 1) % 100)
  }

  /** Row `row` of the mirror as the render_view loop fills it from document row `from + row`. */
  function RenderedRow(c: Con, from: nat, row: nat): Row {
    var idx := from + row;
    if idx < c.count then c.ring[(c.start + idx) % 100]
    else if idx - c.count < 25 then c.screen[idx - c.count]
    else BlankRow()
  }

  function RenderView(c: Con): Con {
    var total := c.count + 25;
    var view := if c.view > c.count then c.count else c.view;
    var from := if total > 25 + view then total - 25 - view else 0;
    UpdateCursor(c.(view := view, vga := seq(25, row requires 0 <= row => RenderedRow(c, from, row))))
  }

  function ScrollScreen(c: Con): Con {
    var c1 := PushRow(c, c.screen[0]);
    var c2 := c1.(screen := c.screen[1..] + [BlankRow()]);
    if c.view == 0 then c2.(vga := c2.screen) else c2
  }

  function EnsureBottom(c: Con): Con {
    if c.view != 0 then RenderView(c.(view := 0)) else c
  }

  function Clear(c: Con): Con {
    var g := seq(25, _ => BlankRow());
    UpdateCursor(c.(screen := g, vga := g, start := 0, count := 0, view := 0, cx := 0, cy := 0))
  }

  /** One cell of the screen, and of the mirror when the live view is showing. */
  function Poke(c: Con, x: Col, y: Line, v: Cell): Con {
    var c1 := c.(screen := c.screen[y := c.screen[y][x := v]]);
    if c.view == 0 then c1.(vga := c.vga[y := c.vga[y][x := v]]) else c1
  }

  function NextLine(c: Con): Con {
    if c.cy + 1 >= 25 then ScrollScreen(c).(cx := 0, cy := 24)
    else c.(cx := 0, cy := c.cy + 1)
  }

  function Putc(c: Con, ch: Char): Con {
    var b := EnsureBottom(c.(serial := c.serial + [ch]));
    var d :=
      if ch == NEWLINE then NextLine(b)
      else if ch == BACKSPACE then
        var x, y := if b.cx > 0 then b.cx - 1 else if b.cy > 0 then 79 else 0,
                    if b.cx > 0 then b.cy else if b.cy > 0 then b.cy - 1 else 0;
        Poke(b.(cx := x, cy := y), x, y, BLANK)
      else
        var p := Poke(b, b.cx, b.cy, CellOf(ch));
        if b.cx + 1 >= 80 then NextLine(p) else p.(cx := b.cx + 1);
    if d.view == 0 then UpdateCursor(d) else d
  }

  /** Coordinates off the screen are ignored, one by one. */
  function SetCursor(c: Con, x: nat, y: nat): Con {
    UpdateCursor(c.(cx := if x < 80 then x else c.cx, cy := if y < 25 then y else c.cy))
  }

  /** What a scroll key does in console_poll_input. */
  function ScrollKey(c: Con, up: bool): Con {
    RenderView(if up then (if c.view < c.count then c.(view := c.view + 1) else c)
               else if c.view > 0 then c.(view := c.view - 1) else c)
  }

  function PutAll(c: Con, s: seq<Char>): Con {
    if s == [] then c else Putc(PutAll(c, s[..|s| - 1]), s[|s| - 1])
  }

  const PROMPT: seq<Char> := [76, 105, 102, 101, 79, 83, 62, 32]  // "LifeOS> "

  function QuadrantCell(cell: Cell, y: Line, x: Col): Cell {
    if y == 12 && x == 40 then 0x07C5 else if y == 12 then 0x07C4 else if x == 40 then 0x07B3 else cell
  }

  function QuadrantGrid(g: Grid): Grid {
    seq(25, y requires 0 <= y < 25 => seq(80, x requires 0 <= x < 80 => QuadrantCell(g[y][x], y, x)))
  }

  /** console_draw_quadrants up to its last call; the mirror follows only in the live view. */
  function QuadrantLines(c: Con): Con {
    var c1 := c.(screen := QuadrantGrid(c.screen), cx := 1, cy := 13);
    if c.view == 0 then UpdateCursor(c1.(vga := QuadrantGrid(c.vga))) else c1
  }

  // ---------------------------------------------------------------- what the state means

  /** The scrollback, oldest row first. */
  function History(c: Con): (h: seq<Row>) {
    seq(c.count, i requires 0 <= i => c.ring[(c.start + i) % 100])
  }

  /** Everything that can be scrolled to. */
  function Document(c: Con): seq<Row> {
    History(c) + c.screen
  }

  /** The mirror shows the 25 document rows that end `view` rows above the bottom. */
  ghost predicate Mirrored(c: Con) {
    c.view <= c.count && c.vga == Document(c)[c.count - c.view..][..25]
  }

  ghost predicate CursorShown(c: Con) {
    c.hw == c.cy * 80 + c.cx < 2000
  }

  ghost predicate Consistent(c: Con) {
    Mirrored(c) && CursorShown(c)
  }

  // ---------------------------------------------------------------- lemmas

  /** A coordinate off the screen leaves the old one; text, view and scrollback stay in any case. */
  lemma MoveIs(c: Con, x: nat, y: nat)
    ensures var d := SetCursor(c, x, y);
      && d == c.(cx := d.cx, cy := d.cy, hw := 80 * d.cy + d.cx)
      && (x >= 80 ==> d.cx == c.cx) && (x < 80 ==> d.cx == x)
      && (y >= 25 ==> d.cy == c.cy) && (y < 25 ==> d.cy == y)
  {
  }

  /** A scroll key moves the view by one row within the scrollback and touches no text. */
  lemma ScrollKeyIs(c: Con, up: bool)
    requires c.view <= c.count
    ensures var d := ScrollKey(c, up);
      && d.view == (if up then Min(c.view + 1, c.count) else Max(c.view - 1, 0))
      && d == c.(view := d.view, vga := d.vga, hw := d.hw)
  {
    hide RenderedRow;
  }

  /** So down undoes up wherever there was a row to scroll to. */
  lemma DownUndoesUp(c: Con)
    requires Consistent(c) && c.view < c.count
    ensures ScrollKey(ScrollKey(c, true), false) == c
  {
    hide RenderedRow;
    ScrollKeyIs(c, true);
    ScrollKeyIs(ScrollKey(c, true), false);
    var d := ScrollKey(ScrollKey(c, true), false);
    RenderShowsWindow(ScrollKey(c, true).(view := c.view));
    assert Document(d) == Document(c);
  }

  /** Off the two lines the quadrants leave every cell; on them they put a line glyph in light grey on black. */
  lemma QuadrantsAre(c: Con)
    ensures var d := QuadrantLines(c);
      && (forall y, x :: 0 <= y < 25 && 0 <= x < 80 ==>
            && (y != 25 / 2 && x != 80 / 2 ==> d.screen[y][x] == c.screen[y][x])
            && (y == 25 / 2 || x == 80 / 2 ==>
                  && d.screen[y][x] / 0x100 == 7
                  && d.screen[y][x] % 0x100 == if y != 25 / 2 then 0xB3 else if x != 80 / 2 then 0xC4 else 0xC5))
      && d.cx == 1 && d.cy == 13 && History(d) == History(c)
  {
  }

  lemma GridsEqual(a: Grid, b: Grid)
    requires forall y, x :: 0 <= y < 25 && 0 <= x < 80 ==> a[y][x] == b[y][x]
    ensures a == b
  {
    forall y | 0 <= y < 25 ensures a[y] == b[y] {
    }
  }

  /** Slots of the ring are distinct as long as the offsets are. */
  lemma SlotDistinct(start: Slot, i: nat, j: nat)
    requires i < j < i + 100
    ensures (start + i) % 100 != (start + j) % 100
  {
  }

  lemma PushRoom(c: Con, row: Row)
    requires c.count < 100
    ensures History(PushRow(c, row)) == History(c) + [row]
  {
    var h, p := History(c), PushRow(c, row);
    forall i | 0 <= i < c.count ensures History(p)[i] == h[i] {
      SlotDistinct(c.start, i, c.count);
    }
  }

  lemma PushFull(c: Con, row: Row)
    requires c.count == 100
    ensures History(PushRow(c, row)) == History(c)[1..] + [row]
  {
    var h, p := History(c), PushRow(c, row);
    forall i | 0 <= i < 99 ensures History(p)[i] == h[1..][i] {
      SlotDistinct(c.start, i + 1, 100);
      RotatedSlot(c.start, i);
    }
    RotatedSlot(c.start, 99);
    assert History(p)[99] == row;
  }

  /** An evicted row joins the scrollback at its newest end; a full scrollback loses its oldest row. */
  lemma PushAppends(c: Con, row: Row)
    ensures History(PushRow(c, row)) == (if c.count < 100 then History(c) else History(c)[1..]) + [row]
  {
    hide History, PushRow;
    if c.count < 100 {
      PushRoom(c, row);
    } else {
      PushFull(c, row);
    }
  }

  lemma RotatedSlot(start: Slot, i: nat)
    ensures ((start + 1) % 100 + i) % 100 == (start + (i + 1)) % 100
  {
  }

  /** The blank fill of render_view is dead: the mirror is rebuilt from document rows only. */
  lemma RenderShowsWindow(c: Con)
    ensures Consistent(RenderView(c))
    ensures RenderView(c).view == Min(c.view, c.count)
  {
    hide RenderedRow;
    var r := RenderView(c);
    var from := r.count - r.view;
    assert Document(r) == Document(c);
    forall row | 0 <= row < 25 ensures r.vga[row] == Document(r)[from..][..25][row] {
      RenderedRowIs(c, from, row);
      assert Document(r)[from..][..25][row] == Document(r)[from + row];
    }
  }

  lemma RenderedRowIs(c: Con, from: nat, row: nat)
    requires from + row < c.count + 25
    ensures RenderedRow(c, from, row) == Document(c)[from + row]
  {
  }

  lemma ScrollKeepsMirror(c: Con)
    requires c.view == 0 && Mirrored(c)
    ensures Mirrored(ScrollScreen(c))
  {
    var s := ScrollScreen(c);
    assert Document(s)[s.count..][..25] == s.screen;
  }

  /** In the live view the mirror is simply the screen. */
  lemma LiveMirror(c: Con)
    requires c.view == 0
    ensures Mirrored(c) <==> c.vga == c.screen
  {
    assert Document(c)[c.count..][..25] == c.screen;
  }

  lemma NextLineLive(c: Con)
    requires c.view == 0 && c.vga == c.screen
    ensures NextLine(c).view == 0 && NextLine(c).vga == NextLine(c).screen
  {
  }

  /** Output always ends consistent, even from a state whose mirror was left behind while scrolled up. */
  lemma PutcConsistent(c: Con, ch: Char)
    requires c.view == 0 ==> Mirrored(c)
    ensures Consistent(Putc(c, ch)) && Putc(c, ch).view == 0
  {
    hide RenderView, NextLine, Mirrored;
    var e := c.(serial := c.serial + [ch]);
    if c.view == 0 {
      LiveMirror(c);
    } else {
      RenderShowsWindow(e.(view := 0));
      LiveMirror(EnsureBottom(e));
    }
    var b := EnsureBottom(e);
    if ch == NEWLINE {
      NextLineLive(b);
    } else if ch != BACKSPACE {
      NextLineLive(Poke(b, b.cx, b.cy, CellOf(ch)));
    }
    LiveMirror(Putc(c, ch));
  }

  lemma PutTwo(c: Con, a: Char, b: Char)
    ensures PutAll(c, [a, b]) == Putc(Putc(c, a), b)
  {
    hide Putc;
    assert PutAll(c, [a]) == Putc(PutAll(c, []), a) by { assert [a][..0] == []; }
    assert [a, b][..1] == [a];
  }

  lemma {:induction false} PutAllConcat(c: Con, s: seq<Char>, t: seq<Char>)
    ensures PutAll(PutAll(c, s), t) == PutAll(c, s + t)
  {
    if t == [] {
      assert s + t == s;
    } else {
      PutAllConcat(c, s, t[..|t| - 1]);
      assert (s + t)[..|s + t| - 1] == s + t[..|t| - 1];
    }
  }

  lemma PutcSerial(c: Con, ch: Char)
    ensures Putc(c, ch).serial == c.serial + [ch]
  {
    hide RenderedRow;
  }

  /** Every character written is also sent to the serial port, in order. */
  lemma {:induction false} PutAllSerial(c: Con, s: seq<Char>)
    ensures PutAll(c, s).serial == c.serial + s
  {
    hide Putc;
    if s != [] {
      PutAllSerial(c, s[..|s| - 1]);
      PutcSerial(PutAll(c, s[..|s| - 1]), s[|s| - 1]);
      assert s == s[..|s| - 1] + [s[|s| - 1]];
    }
  }

  lemma PromptText()
    ensures CStrings.Text(PROMPT + [NUL]) == PROMPT
  {
    var t := CStrings.Text(PROMPT + [NUL]);
    assert (PROMPT + [NUL])[|t|] == NUL;
    assert NUL !in PROMPT;
  }
}
