/** console.c: the arrays and counters of the text console, proved against ConsoleModel. */
module ConsoleDevice {
  import opened CTypes
  import opened CStrings
  import M = ConsoleModel
  import N = Numerals

  class Console {
    const screen: array2<M.Cell>       // screen_buffer[25][80]
    const scrollback: array2<M.Cell>   // scrollback[100][80]
    const vga: array<M.Cell>           // the 2000 cells at 0xB8000
    var cursorX: int
    var cursorY: int
    var sbStart: int
    var sbCount: int
    var sbView: int
    var crtc: int                      // CRTC registers 14 (high byte) and 15 (low byte)
    var serial: seq<Char>              // bytes sent to the serial port

    ghost var model: M.Con

    ghost function Repr(): set<object> {
      {this, screen, scrollback, vga}
    }

    ghost predicate Shape() {
      && screen.Length0 == 25 && screen.Length1 == 80
      && scrollback.Length0 == 100 && scrollback.Length1 == 80
      && vga.Length == 2000
      && screen != scrollback
    }

    ghost predicate ScreenIs(g: M.Grid)
      requires Shape()
      reads screen
    {
      forall y, x :: 0 <= y < 25 && 0 <= x < 80 ==> screen[y, x] == g[y][x]
    }

    ghost predicate RingIs(g: M.Ring)
      requires Shape()
      reads scrollback
    {
      forall y, x :: 0 <= y < 100 && 0 <= x < 80 ==> scrollback[y, x] == g[y][x]
    }

    ghost predicate VgaIs(g: M.Grid)
      requires Shape()
      reads vga
    {
      forall y, x :: 0 <= y < 25 && 0 <= x < 80 ==> vga[y * 80 + x] == g[y][x]
    }

    ghost predicate Valid()
      reads this, screen, scrollback, vga
    {
      && Shape()
      && ScreenIs(model.screen) && RingIs(model.ring) && VgaIs(model.vga)
      && cursorX == model.cx && cursorY == model.cy
      && sbStart == model.start && sbCount == model.count && sbView == model.view
      && crtc == model.hw && serial == model.serial
    }

    lemma CursorIs()
      requires Valid()
      ensures cursorX == model.cx && cursorY == model.cy
    {
    }

    constructor ()
      ensures Valid() && fresh(Repr())
      ensures model.view == 0 && model.count == 0 && model.serial == []
    {
      screen := new M.Cell[25, 80]((_, _) => 0);
      scrollback := new M.Cell[100, 80]((_, _) => 0);
      vga := new M.Cell[2000](_ => 0);
      cursorX, cursorY := 0, 0;
      sbStart, sbCount, sbView := 0, 0, 0;
      crtc, serial := 0, [];
      ghost var row: M.Row := seq(80, _ => 0);
      ghost var g: M.Grid := seq<M.Row>(25, _ => row);
      model := M.Con(g, seq<M.Row>(100, _ => row), 0, 0, 0, g, 0, 0, 0, []);
    }

    method SerialPutc(c: Char)
      requires Valid()
      modifies this
      ensures Valid() && model == old(model).(serial := old(model.serial) + [c])
    {
      serial := serial + [c];
      model := model.(serial := serial);
    }

    method UpdateCursor()
      requires Valid()
      modifies this
      ensures Valid() && model == M.UpdateCursor(old(model))
    {
      var pos := cursorY * 80 + cursorX;
      crtc := pos / 256 * 256 + pos % 256;
      model := M.UpdateCursor(model);
    }

    method ScrollbackPush(line: nat)
      requires Valid() && line < 25
      modifies this, scrollback
      ensures Valid() && model == M.PushRow(old(model), old(model).screen[line])
    {
      var idx := (sbStart + sbCount) % 100;
      for x := 0 to 80
        modifies scrollback
        invariant forall y, k :: 0 <= y < 100 && 0 <= k < 80 ==>
          scrollback[y, k] == if y == idx && k < x then screen[line, k] else model.ring[y][k]
      {
        scrollback[idx, x] := screen[line, x];
      }
      if sbCount < 100 {
        sbCount := sbCount + 1;
      } else {
        sbStart := (sbStart + 1) % 100;
      }
      model := M.PushRow(model, model.screen[line]);
    }

    /** The innermost loops of render_view. */
    method CopyRow(row: nat, from: array2<M.Cell>, y: nat)
      requires Shape() && row < 25 && y < from.Length0 && from.Length1 == 80
      modifies vga
      ensures forall k :: 0 <= k < 80 ==> vga[row * 80 + k] == from[y, k]
      ensures forall i :: 0 <= i < 2000 && (i < row * 80 || row * 80 + 80 <= i) ==> vga[i] == old(vga[i])
    {
      for x := 0 to 80
        invariant forall k :: 0 <= k < x ==> vga[row * 80 + k] == from[y, k]
        invariant forall i :: 0 <= i < 2000 && (i < row * 80 || row * 80 + 80 <= i) ==> vga[i] == old(vga[i])
      {
        vga[row * 80 + x] := from[y, x];
      }
    }

    method RenderView()
      requires Valid()
      modifies this, vga
      ensures Valid() && model == M.RenderView(old(model))
    {
      ghost var m := model;
      var total := sbCount + 25;
      if sbView > sbCount {
        sbView := sbCount;
      }
      var start := if total > 25 + sbView then total - 25 - sbView else 0;
      for row := 0 to 25
        modifies vga
        invariant forall y, x :: 0 <= y < row && 0 <= x < 80 ==> vga[y * 80 + x] == M.RenderedRow(m, start, y)[x]
      {
        var idx := start + row;
        if idx < sbCount {
          CopyRow(row, scrollback, (sbStart + idx) % 100);
        } else {
          var scr := idx - sbCount;
          if scr < 25 {
            CopyRow(row, screen, scr);
          } else {
            assert false;  // the blank fill is never reached
          }
        }
      }
      model := M.RenderView(m);
      model := model.(hw := m.hw);
      assert forall y :: 0 <= y < 25 ==> model.vga[y] == M.RenderedRow(m, start, y);
      UpdateCursor();
    }

    method ScrollScreen()
      requires Valid()
      modifies this, screen, scrollback, vga
      ensures Valid() && model == M.ScrollScreen(old(model))
    {
      ghost var m := model;
      ScrollbackPush(0);
      ShiftRows(m.screen);
      ghost var after := M.ScrollScreen(m);
      if sbView == 0 {
        CopyToVga(after.screen);
      }
      model := after;
    }

    /** The loops that move every row up by one and blank the last. */
    method ShiftRows(ghost g: M.Grid)
      requires Shape() && ScreenIs(g)
      modifies screen
      ensures ScreenIs(g[1..] + [M.BlankRow()])
    {
      for y := 0 to 24
        invariant forall r, k :: 0 <= r < 25 && 0 <= k < 80 ==>
          screen[r, k] == if r < y then g[r + 1][k] else g[r][k]
      {
        for x := 0 to 80
          invariant forall r, k :: 0 <= r < 25 && 0 <= k < 80 ==>
            screen[r, k] == if r < y || (r == y && k < x) then g[r + 1][k] else g[r][k]
        {
          screen[y, x] := screen[y + 1, x];
        }
      }
      for x := 0 to 80
        invariant forall r, k :: 0 <= r < 25 && 0 <= k < 80 ==>
          screen[r, k] == if r < 24 then g[r + 1][k] else if k < x then M.BLANK else g[r][k]
      {
        screen[24, x] := M.BLANK;
      }
    }

    /** The nested loop that copies the screen to the mirror. */
    method CopyToVga(ghost g: M.Grid)
      requires Shape() && ScreenIs(g)
      modifies vga
      ensures VgaIs(g)
    {
      for y := 0 to 25
        invariant forall r, k :: 0 <= r < y && 0 <= k < 80 ==> vga[r * 80 + k] == g[r][k]
      {
        for x := 0 to 80
          invariant forall r, k :: 0 <= r < y && 0 <= k < 80 ==> vga[r * 80 + k] == g[r][k]
          invariant forall k :: 0 <= k < x ==> vga[y * 80 + k] == g[y][k]
        {
          vga[y * 80 + x] := screen[y, x];
        }
      }
    }

    method EnsureBottom()
      requires Valid()
      modifies this, vga
      ensures Valid() && model == M.EnsureBottom(old(model))
    {
      if sbView != 0 {
        sbView := 0;
        model := model.(view := 0);
        RenderView();
      }
    }

    method Clear()
      requires Valid()
      modifies this, screen, vga
      ensures Valid() && model == M.Clear(old(model))
    {
      ghost var g := seq<M.Row>(25, _ => M.BlankRow());
      for y := 0 to 25
        modifies screen, vga
        invariant forall r, k :: 0 <= r < y && 0 <= k < 80 ==> screen[r, k] == g[r][k] == vga[r * 80 + k]
      {
        for x := 0 to 80
          modifies screen, vga
          invariant forall r, k :: 0 <= r < y && 0 <= k < 80 ==> screen[r, k] == g[r][k] == vga[r * 80 + k]
          invariant forall k :: 0 <= k < x ==> screen[y, k] == g[y][k] == vga[y * 80 + k]
        {
          screen[y, x] := M.BLANK;
          vga[y * 80 + x] := M.BLANK;
        }
      }
      sbStart, sbCount, sbView := 0, 0, 0;
      cursorX, cursorY := 0, 0;
      model := model.(screen := g, vga := g, start := 0, count := 0, view := 0, cx := 0, cy := 0);
      UpdateCursor();
    }

    /** Store a cell, also in the mirror when the live view shows. */
    method Poke(x: int, y: int, v: M.Cell)
      requires Valid() && 0 <= x < 80 && 0 <= y < 25
      modifies screen, vga, this
      ensures Valid() && model == M.Poke(old(model), x, y, v)
    {
      screen[y, x] := v;
      if sbView == 0 {
        vga[y * 80 + x] := v;
      }
      model := M.Poke(model, x, y, v);
    }

    method NextLine()
      requires Valid()
      modifies this, screen, scrollback, vga
      ensures Valid() && model == M.NextLine(old(model))
    {
      cursorX := 0;
      ghost var m := model.(cx := 0);
      if cursorY + 1 >= 25 {
        model := m;
        ScrollScreen();
        cursorY := 24;
        model := model.(cy := 24);
      } else {
        cursorY := cursorY + 1;
        model := m.(cy := cursorY);
      }
    }

    method Putc(c: Char)
      requires Valid()
      modifies Repr()
      ensures Valid() && model == M.Putc(old(model), c)
    {
      hide ScreenIs, RingIs, VgaIs, M.NextLine, M.EnsureBottom;
      SerialPutc(c);
      EnsureBottom();
      if c == NEWLINE {
        NextLine();
      } else if c == BACKSPACE {
        if cursorX > 0 {
          cursorX := cursorX - 1;
        } else if cursorY > 0 {
          cursorY := cursorY - 1;
          cursorX := 79;
        }
        model := model.(cx := cursorX, cy := cursorY);
        Poke(cursorX, cursorY, M.BLANK);
      } else {
        Poke(cursorX, cursorY, M.CellOf(c));
        if cursorX + 1 >= 80 {
          NextLine();
        } else {
          cursorX := cursorX + 1;
          model := model.(cx := cursorX);
        }
      }
      if sbView == 0 {
        UpdateCursor();
      }
    }

    method SetCursor(x: Byte, y: Byte)
      requires Valid()
      modifies this
      ensures Valid() && model == M.SetCursor(old(model), x, y)
    {
      if x < 80 {
        cursorX := x;
      }
      if y < 25 {
        cursorY := y;
      }
      model := model.(cx := cursorX, cy := cursorY);
      UpdateCursor();
    }

    /** The scroll branch of console_poll_input. */
    method ScrollKey(up: bool)
      requires Valid()
      modifies this, vga
      ensures Valid() && model == M.ScrollKey(old(model), up)
    {
      if up && sbView < sbCount {
        sbView := sbView + 1;
      } else if !up && sbView > 0 {
        sbView := sbView - 1;
      }
      model := model.(view := sbView);
      RenderView();
    }

    /** Only cells differ, and of the mirror only while the live view shows. */
    ghost predicate Redrawn(m: M.Con)
      reads this
    {
      && model == m.(screen := model.screen, vga := model.vga)
      && (m.view != 0 ==> model.vga == m.vga)
    }

    /** The vertical line of console_draw_quadrants. */
    method DrawColumn()
      requires Valid()
      modifies this, screen, vga
      ensures Valid() && Redrawn(old(model))
      ensures forall r, k :: 0 <= r < 25 && 0 <= k < 80 ==>
        model.screen[r][k] == if k == 40 then 0x07B3 else old(model).screen[r][k]
      ensures model.view == 0 ==> forall r, k :: 0 <= r < 25 && 0 <= k < 80 ==>
        model.vga[r][k] == if k == 40 then 0x07B3 else old(model).vga[r][k]
    {
      for y := 0 to 25
        invariant Valid() && Redrawn(old(model))
        invariant forall r, k :: 0 <= r < 25 && 0 <= k < 80 ==>
          model.screen[r][k] == if r < y && k == 40 then 0x07B3 else old(model).screen[r][k]
        invariant model.view == 0 ==> forall r, k :: 0 <= r < 25 && 0 <= k < 80 ==>
          model.vga[r][k] == if r < y && k == 40 then 0x07B3 else old(model).vga[r][k]
      {
        Poke(40, y, 0x07B3);
      }
    }

    /** The horizontal line of console_draw_quadrants. */
    method DrawRow()
      requires Valid()
      modifies this, screen, vga
      ensures Valid() && Redrawn(old(model))
      ensures forall r, k :: 0 <= r < 25 && 0 <= k < 80 ==>
        model.screen[r][k] == if r == 12 then 0x07C4 else old(model).screen[r][k]
      ensures model.view == 0 ==> forall r, k :: 0 <= r < 25 && 0 <= k < 80 ==>
        model.vga[r][k] == if r == 12 then 0x07C4 else old(model).vga[r][k]
    {
      for x := 0 to 80
        invariant Valid() && Redrawn(old(model))
        invariant forall r, k :: 0 <= r < 25 && 0 <= k < 80 ==>
          model.screen[r][k] == if r == 12 && k < x then 0x07C4 else old(model).screen[r][k]
        invariant model.view == 0 ==> forall r, k :: 0 <= r < 25 && 0 <= k < 80 ==>
          model.vga[r][k] == if r == 12 && k < x then 0x07C4 else old(model).vga[r][k]
      {
        Poke(x, 12, 0x07C4);
      }
    }

    /** console_draw_quadrants up to the call of shell_show_prompt. */
    method QuadrantLines()
      requires Valid()
      modifies this, screen, vga
      ensures Valid() && model == M.QuadrantLines(old(model))
    {
      ghost var m := model;
      DrawColumn();
      DrawRow();
      Poke(40, 12, 0x07C5);
      M.GridsEqual(model.screen, M.QuadrantGrid(m.screen));
      if sbView == 0 {
        M.GridsEqual(model.vga, M.QuadrantGrid(m.vga));
      }
      cursorX, cursorY := 1, 13;
      model := model.(cx := 1, cy := 13);
      if sbView == 0 {
        UpdateCursor();
      }
    }

    method Write(text: seq<Char>)
      requires Valid() && NUL in text
      modifies Repr()
      ensures Valid() && model == M.PutAll(old(model), Text(text))
    {
      hide M.Putc, Valid, Text;
      ghost var t := Text(text);
      var i := 0;
      while text[i] != NUL
        invariant Valid() && 0 <= i <= |t|
        invariant model == M.PutAll(old(model), t[..i])
        decreases |t| - i
      {
        Putc(text[i]);
        i := i + 1;
        assert t[..i][..i - 1] == t[..i - 1];
      }
      assert t[..i] == t;
    }

    method WriteDec(value: U64)
      requires Valid()
      modifies Repr()
      ensures Valid() && model == M.PutAll(old(model), N.Decimal(value))
    {
      hide M.Putc, Valid, N.Digits;
      var buf := new Char[21](_ => NUL);
      if value == 0 {
        Putc(48);
        assert [N.ZERO][..0] == [];
        return;
      }
      var i := FillDigits(value, buf);
      ghost var digits := N.Digits(value);
      assert digits[..0] == [];
      while i > 0
        invariant Valid() && 0 <= i <= |digits|
        invariant model == M.PutAll(old(model), digits[..|digits| - i])
        invariant forall k :: 0 <= k < i ==> buf[k] == digits[|digits| - 1 - k]
      {
        i := i - 1;
        Putc(buf[i]);
        assert digits[..|digits| - i][..|digits| - i - 1] == digits[..|digits| - i - 1];
      }
      assert digits[..|digits|] == digits;
    }

    /** The division loop of console_write_dec: 20 digits always suffice. */
    static method FillDigits(value: U64, buf: array<Char>) returns (i: int)
      requires buf.Length == 21
      modifies buf
      ensures i == |N.Digits(value)| <= 20
      ensures forall k :: 0 <= k < i ==> buf[k] == N.Digits(value)[i - 1 - k]
    {
      var rest := value;
      i := 0;
      ghost var digits := N.Digits(value);
      assert |digits| <= 20 by {
        N.Pow10Of20();
        N.DigitsAtMost(value, 20);
      }
      while rest > 0 && i < 20
        invariant 0 <= i <= 20 && 0 <= rest
        invariant |N.Digits(rest)| + i == |digits| && digits[..|N.Digits(rest)|] == N.Digits(rest)
        invariant forall k :: 0 <= k < i ==> buf[k] == digits[|digits| - 1 - k]
        decreases rest
      {
        buf[i] := 48 + rest % 10;
        i := i + 1;
        ghost var d := N.Digits(rest);
        assert d[..|d| - 1] == N.Digits(rest / 10);
        assert digits[..|d| - 1] == digits[..|d|][..|d| - 1];
        assert digits[|d| - 1] == digits[..|d|][|d| - 1];
        rest := rest / 10;
      }
    }

    method WriteHex8(value: Byte)
      requires Valid()
      modifies Repr()
      ensures Valid() && model == M.PutAll(old(model), N.Hex(value, 2))
    {
      hide M.Putc;
      Putc(N.HexDigit(value / 16 % 16));
      Putc(N.HexDigit(value % 16));
      M.PutTwo(old(model), N.HexDigit(value / 16 % 16), N.HexDigit(value % 16));
      N.HexPair(value);
    }

    method WriteHex16(value: U16)
      requires Valid()
      modifies Repr()
      ensures Valid() && model == M.PutAll(old(model), N.Hex(value, 4))
    {
      hide M.Putc, M.PutAll, N.Hex;
      WriteHex8(value / 0x100);
      WriteHex8(value % 0x100);
      N.HexHalves(value);
      M.PutAllConcat(old(model), N.Hex(value / 0x100, 2), N.Hex(value % 0x100, 2));
    }

    method WriteHex32(value: U32)
      requires Valid()
      modifies Repr()
      ensures Valid() && model == M.PutAll(old(model), N.Hex(value, 8))
    {
      hide M.Putc, M.PutAll, N.Hex;
      WriteHex16(value / 0x1_0000);
      WriteHex16(value % 0x1_0000);
      N.HexHalves(value);
      M.PutAllConcat(old(model), N.Hex(value / 0x1_0000, 4), N.Hex(value % 0x1_0000, 4));
    }

    method WriteHex64(value: U64)
      requires Valid()
      modifies Repr()
      ensures Valid() && model == M.PutAll(old(model), N.Hex(value, 16))
    {
      hide M.Putc, M.PutAll, N.Hex;
      WriteHex32(value / 0x1_0000_0000);
      WriteHex32(value % 0x1_0000_0000);
      N.HexHalves(value);
      M.PutAllConcat(old(model), N.Hex(value / 0x1_0000_0000, 8), N.Hex(value % 0x1_0000_0000, 8));
    }
  }
}
