/** gui.c: the frame is a function of the typed text alone. */
module Gui {
  import opened CTypes
  import opened Framebuffer

  /** Printable characters; their font index is below 128. */
  predicate Typable(s: seq<Char>) {
    |s| <= 127 && forall i :: 0 <= i < |s| ==> s[i] >= SPACE
  }

  /** gui_handle_key on the text. */
  function Typed(s: seq<Char>, c: Char): seq<Char> {
    if c == BACKSPACE then (if s == [] then s else s[..|s| - 1])
    else if c >= SPACE && |s| < 127 then s + [c]
    else s
  }

  function TypedAll(keys: seq<Char>): seq<Char> {
    if keys == [] then [] else Typed(TypedAll(keys[..|keys| - 1]), keys[|keys| - 1])
  }

  /** The column where centred text of n characters begins. */
  function StartX(n: nat): int {
    512 - 4 * n
  }

  /** Pixel (x, y) lies on the ink of one of the first n characters of the centred row. */
  predicate OnText(font: Font, s: seq<Char>, n: nat, x: int, y: int)
    requires Typable(s) && n <= |s|
  {
    var d := x - StartX(|s|);
    && 0 <= d < 8 * n
    && Inked(font[Unsigned(s[d / 8])], StartX(|s|) + 8 * (d / 8), 504, x, y)
  }

  /** Black exactly on the ink, white everywhere else. */
  ghost predicate Shows(g: Image, font: Font, s: seq<Char>)
    requires Typable(s)
  {
    forall y, x :: 0 <= y < 768 && 0 <= x < 1024 ==> g[y][x] == if OnText(font, s, |s|, x, y) then BLACK else WHITE
  }

  class GuiScreen {
    const screen: FrameBuffer
    const inputBuf: array<Char>
    var inputLen: int

    ghost predicate BufferValid()
      reads this, inputBuf
    {
      inputBuf.Length == 128 && 0 <= inputLen <= 127 && Typable(inputBuf[..inputLen])
    }

    ghost predicate Valid()
      reads this, inputBuf, screen, screen.fb
    {
      && this as object !in {screen, screen.fb} && inputBuf as object !in {screen, screen.fb}
      && BufferValid() && screen.Valid()
    }

    ghost function Text(): seq<Char>
      requires BufferValid()
      reads this, inputBuf
    {
      inputBuf[..inputLen]
    }

    /** gui_init */
    constructor (font: Font)
      ensures Valid() && Text() == [] && Shows(screen.image, screen.font, []) && screen.font == font
      ensures fresh(inputBuf) && fresh(screen) && fresh(screen.fb)
    {
      screen := new FrameBuffer(font);
      inputBuf := new Char[128](_ => NUL);
      inputLen := 0;
      new;
      Redraw();
    }

    method Redraw()
      requires Valid()
      modifies screen, screen.fb
      ensures Valid() && Shows(screen.image, screen.font, Text())
    {
      hide FrameBuffer.Valid, Inked;
      ghost var s, font := Text(), screen.font;
      screen.Clear(WHITE);
      var baseline := 768 * 2 / 3;
      var startX := 1024 / 2 - inputLen * 8 / 2;
      screen.DrawRect(0, baseline - 8, 1024, 16, WHITE);
      for i := 0 to inputLen
        invariant screen.Valid()
        invariant forall y, x :: 0 <= y < 768 && 0 <= x < 1024 ==>
          screen.image[y][x] == if OnText(font, s, i, x, y) then BLACK else WHITE
      {
        ghost var before := screen.image;
        screen.DrawChar(inputBuf[i], startX + i * 8, baseline - 8, BLACK);
        forall y, x | 0 <= y < 768 && 0 <= x < 1024
          ensures screen.image[y][x] == if OnText(font, s, i + 1, x, y) then BLACK else WHITE
        {
          OneMore(font, s, i, x, y);
          assert before[y][x] == if OnText(font, s, i, x, y) then BLACK else WHITE;
        }
      }
    }

    method HandleKey(c: Char)
      requires Valid()
      modifies this, inputBuf, screen, screen.fb
      ensures Valid() && Text() == Typed(old(Text()), c)
      ensures Shows(screen.image, screen.font, Text())
    {
      hide FrameBuffer.Valid, Shows;
      Store(c);
      Redraw();
    }

    method Store(c: Char)
      requires BufferValid()
      modifies `inputLen, inputBuf
      ensures BufferValid() && Text() == Typed(old(Text()), c)
    {
      ghost var s := Text();
      if c == BACKSPACE {
        if inputLen > 0 {
          inputLen := inputLen - 1;
          assert inputBuf[..inputLen] == s[..|s| - 1];
        }
      } else if c >= SPACE && inputLen < 127 {
        inputBuf[inputLen] := c;
        inputLen := inputLen + 1;
        assert inputBuf[..inputLen] == s + [c];
      }
      ghost var t := inputBuf[..inputLen];
      inputBuf[inputLen] := NUL;
      assert inputBuf[..inputLen] == t;
    }
  }

  /** Any keys from power-on: text and frame depend on the keys alone. */
  method Session(font: Font, keys: seq<Char>) returns (text: seq<Char>, ghost image: Image)
    ensures Typable(text) && text == TypedAll(keys) && Shows(image, font, text)
  {
    hide Shows, OnText;
    var gui := new GuiScreen(font);
    for i := 0 to |keys|
      invariant gui.Valid() && fresh(gui) && fresh(gui.inputBuf) && fresh(gui.screen) && fresh(gui.screen.fb)
      invariant gui.Text() == TypedAll(keys[..i]) && Shows(gui.screen.image, font, gui.Text())
      invariant gui.screen.font == font
    {
      gui.HandleKey(keys[i]);
      assert keys[..i + 1][..i] == keys[..i];
    }
    assert keys[..|keys|] == keys;
    text := gui.inputBuf[..gui.inputLen];
    image := gui.screen.image;
  }

  /** Drawing the i-th character adds its ink and no other. */
  lemma OneMore(font: Font, s: seq<Char>, i: nat, x: int, y: int)
    requires Typable(s) && i < |s|
    ensures OnText(font, s, i + 1, x, y) <==>
      OnText(font, s, i, x, y) || Inked(font[Unsigned(s[i])], StartX(|s|) + 8 * i, 504, x, y)
  {
    hide Bit;
  }

  /** Every pixel of the text at once: character i, row by row, least significant bit to the left. */
  lemma PixelIs(g: Image, font: Font, s: seq<Char>, i: nat, row: nat, col: nat)
    requires Typable(s) && Shows(g, font, s) && i < |s| && row < 8 && col < 8
    ensures var x := 512 - 4 * |s| + 8 * i + col;
      0 <= x < 1024 && g[504 + row][x] == if (font[Unsigned(s[i])][row] as bv8) & (1 << col) != 0 then 0xFF00_0000 else 0xFFFF_FFFF
  {
    hide Inked;
    InkIs(font[Unsigned(s[i])], StartX(|s|) + 8 * i, 504, row, col);
    var x := StartX(|s|) + 8 * i + col;
    assert (x - StartX(|s|)) / 8 == i;
    assert g[504 + row][x] == if OnText(font, s, |s|, x, 504 + row) then BLACK else WHITE;
  }

  /** The margins left and right of the text are equal. */
  lemma Centred(n: nat)
    ensures StartX(n) - 0 == 1024 - (StartX(n) + 8 * n)
  {
  }

  /** Printable keys are kept as typed, the first 127 of them. */
  lemma {:induction false} TypedAsIs(keys: seq<Char>)
    requires forall i :: 0 <= i < |keys| ==> keys[i] >= SPACE
    ensures TypedAll(keys) == keys[..Min(|keys|, 127)]
  {
    if keys != [] {
      TypedAsIs(keys[..|keys| - 1]);
    }
  }

  /** Backspace undoes the last printable key, and leaves an empty text empty. */
  lemma BackspaceUndoes(s: seq<Char>, c: Char)
    ensures c >= SPACE && |s| < 127 ==> Typed(Typed(s, c), BACKSPACE) == s
    ensures Typed(s, BACKSPACE) == s[..Max(|s| - 1, 0)]
  {
  }

  /** The text fits: at 127 characters it spans columns 4 to 1019, so clipping never removes ink. */
  lemma NothingClipped(font: Font, s: seq<Char>, n: nat, x: int, y: int)
    requires Typable(s) && n <= |s| && OnText(font, s, n, x, y)
    ensures 4 <= x <= 1019 && 504 <= y <= 511
  {
    hide Bit;
  }

  /** Every font index used is in the table. */
  lemma IndexInFont(s: seq<Char>, i: nat)
    requires Typable(s) && i < |s|
    ensures 32 <= Unsigned(s[i]) < 128
  {
  }

  /** Two frames that show the same text are the same frame, whatever was on screen before. */
  lemma FrameIsDetermined(g: Image, h: Image, font: Font, s: seq<Char>)
    requires Typable(s) && Shows(g, font, s) && Shows(h, font, s)
    ensures g == h
  {
    hide OnText;
    forall y | 0 <= y < 768 ensures g[y] == h[y] {
    }
  }
}
