/** framebuffer.c: clipped pixels, rectangles and glyphs on a 1024 by 768 linear buffer. */
module Framebuffer {
  import opened CTypes

  type PixelRow = r: seq<U32> | |r| == 1024 witness seq(1024, _ => 0)

  function Flood(color: U32): PixelRow {
    seq(1024, _ => color)
  }

  type Image = g: seq<PixelRow> | |g| == 768 witness seq<PixelRow>(768, _ => Flood(0))

  type Glyph = g: seq<Byte> | |g| == 8 witness [0, 0, 0, 0, 0, 0, 0, 0]

  /** font8x8_basic; its contents do not matter here. */
  type Font = f: seq<Glyph> | |f| == 128 witness seq<Glyph>(128, _ => [0, 0, 0, 0, 0, 0, 0, 0])

  const WHITE: U32 := 0xFFFF_FFFF
  const BLACK: U32 := 0xFF00_0000

  /** `bits & (1 << col)` */
  function Bit(bits: Byte, col: int): bool
    requires 0 <= col < 8
  {
    bits / [1, 2, 4, 8, 16, 32, 64, 128][col] % 2 == 1
  }

  /** The test of the C code, on bits: column 0 is the least significant one. */
  lemma BitIs(bits: Byte, col: nat)
    requires col < 8
    ensures Bit(bits, col) <==> (bits as bv8) & (1 << col) != 0
  {
  }

  /** fb_draw_pixel: outside the screen nothing is written. */
  function SetPixel(g: Image, x: int, y: int, color: U32): Image {
    if 0 <= x < 1024 && 0 <= y < 768 then g[y := g[y][x := color]] else g
  }

  /** Where the glyph at (x0, y0) has ink. */
  predicate Inked(glyph: Glyph, x0: int, y0: int, x: int, y: int) {
    x0 <= x < x0 + 8 && y0 <= y < y0 + 8 && Bit(glyph[y - y0], x - x0)
  }

  /** Bit col of row byte `row` is the pixel col to the right of and row below the corner. */
  lemma InkIs(glyph: Glyph, x0: int, y0: int, row: nat, col: nat)
    requires row < 8 && col < 8
    ensures Inked(glyph, x0, y0, x0 + col, y0 + row) <==> (glyph[row] as bv8) & (1 << col) != 0
  {
    hide Bit;
    BitIs(glyph[row], col);
  }

  class FrameBuffer {
    const fb: array<U32>
    const font: Font
    ghost var image: Image

    /** Pixel (x, y) is word y * (pitch / 4) + x. */
    ghost predicate Valid()
      reads this, fb
    {
      fb.Length == 1024 * 768 && forall y, x :: 0 <= y < 768 && 0 <= x < 1024 ==> fb[y * 1024 + x] == image[y][x]
    }

    constructor (font: Font)
      ensures Valid() && fresh(fb) && this.font == font
    {
      fb := new U32[1024 * 768](_ => 0);
      this.font := font;
      image := seq<PixelRow>(768, _ => Flood(0));
    }

    method DrawPixel(x: int, y: int, color: U32)
      requires Valid()
      modifies this, fb
      ensures Valid() && image == SetPixel(old(image), x, y, color)
      ensures fb[..] == if 0 <= x < 1024 && 0 <= y < 768 then old(fb[..])[1024 * y + x := color] else old(fb[..])
    {
      if x < 0 || y < 0 || x >= 1024 || y >= 768 {
        return;
      }
      fb[y * 1024 + x] := color;
      image := image[y := image[y][x := color]];
    }

    method Clear(color: U32)
      requires Valid()
      modifies this, fb
      ensures Valid() && forall y, x :: 0 <= y < 768 && 0 <= x < 1024 ==> image[y][x] == color
    {
      ghost var done := seq<PixelRow>(768, _ => Flood(color));
      for y := 0 to 768
        modifies fb
        invariant forall r, k :: 0 <= r < y && 0 <= k < 1024 ==> fb[r * 1024 + k] == done[r][k]
      {
        for x := 0 to 1024
          modifies fb
          invariant forall r, k :: 0 <= r < y && 0 <= k < 1024 ==> fb[r * 1024 + k] == done[r][k]
          invariant forall k :: 0 <= k < x ==> fb[y * 1024 + k] == done[y][k]
        {
          fb[y * 1024 + x] := color;
        }
      }
      image := done;
    }

    method DrawRect(x: int, y: int, w: int, h: int, color: U32)
      requires Valid()
      modifies this, fb
      ensures Valid()
      ensures forall r, k :: 0 <= r < 768 && 0 <= k < 1024 ==>
        image[r][k] == if x <= k < x + w && y <= r < y + h then color else old(image)[r][k]
    {
      var j := 0;
      while j < h
        invariant Valid() && 0 <= j <= Max(h, 0)
        invariant forall r, k :: 0 <= r < 768 && 0 <= k < 1024 ==>
          image[r][k] == if x <= k < x + w && y <= r < y + j then color else old(image)[r][k]
      {
        var i := 0;
        while i < w
          invariant Valid() && 0 <= i <= Max(w, 0)
          invariant forall r, k :: 0 <= r < 768 && 0 <= k < 1024 ==>
            image[r][k] == if (x <= k < x + w && y <= r < y + j) || (x <= k < x + i && r == y + j) then color else old(image)[r][k]
        {
          DrawPixel(x + i, y + j, color);
          i := i + 1;
        }
        j := j + 1;
      }
    }

    /** One row of a glyph. */
    method DrawBits(bits: Byte, x: int, y: int, color: U32)
      requires Valid()
      modifies this, fb
      ensures Valid()
      ensures forall r, k :: 0 <= r < 768 && 0 <= k < 1024 ==>
        image[r][k] == if r == y && x <= k < x + 8 && Bit(bits, k - x) then color else old(image)[r][k]
    {
      hide Bit;
      for col := 0 to 8
        invariant Valid()
        invariant forall r, k :: 0 <= r < 768 && 0 <= k < 1024 ==>
          image[r][k] == if r == y && x <= k < x + col && Bit(bits, k - x) then color else old(image)[r][k]
      {
        if Bit(bits, col) {
          DrawPixel(x + col, y, color);
        }
      }
    }

    method DrawChar(c: Char, x: int, y: int, color: U32)
      requires Valid() && Unsigned(c) < 128
      modifies this, fb
      ensures Valid()
      ensures forall r, k :: 0 <= r < 768 && 0 <= k < 1024 ==>
        image[r][k] == if Inked(font[Unsigned(c)], x, y, k, r) then color else old(image)[r][k]
    {
      hide Bit, Valid;
      var glyph := font[Unsigned(c)];
      for row := 0 to 8
        invariant Valid()
        invariant forall r, k :: 0 <= r < 768 && 0 <= k < 1024 ==>
          image[r][k] == if r < y + row && Inked(glyph, x, y, k, r) then color else old(image)[r][k]
      {
        DrawBits(glyph[row], x, y + row, color);
      }
    }
  }
}
