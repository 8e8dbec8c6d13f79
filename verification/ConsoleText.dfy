/** What a run of plain characters does to the console: cells laid over the screen, or rows scrolled away. */
module ConsoleText {
  import opened CTypes
  import opened ConsoleModel

  /** Characters that print as one cell each. */
  predicate Plain(s: seq<Char>) {
    NUL !in s && NEWLINE !in s && BACKSPACE !in s
  }

  /** Position on the screen, counted in cells from the top left. */
  function Flat(c: Con): nat {
    80 * c.cy + c.cx
  }

  /** How often the screen scrolls while n cells are written from flat position p. */
  function Scrolls(p: nat, n: nat): nat {
    if p + n < 2000 then 0 else (p + n - 1920) / 80
  }

  ghost predicate Scrolled(c: Con, d: Con, k: nat) {
    d.count == Min(100, c.count + k) && d.start == (c.start + Max(0, c.count + k - 100)) % 100
  }

  /** The cells of a grid after text is laid over it from flat position p. */
  ghost predicate Overlaid(g: Grid, h: Grid, p: nat, s: seq<Char>) {
    forall y, x :: 0 <= y < 25 && 0 <= x < 80 ==>
      h[y][x] == if p <= 80 * y + x < p + |s| then CellOf(s[80 * y + x - p]) else g[y][x]
  }

  // ---------------------------------------------------------------- writing plain text

  lemma PutPlain(c: Con, ch: Char)
    requires ch != NEWLINE && ch != BACKSPACE
    ensures var d := Putc(c, ch); var k := if Flat(c) == 1999 then 1 else 0;
      && Scrolled(c, d, k) && Flat(d) + 80 * k == Flat(c) + 1
      && (k == 0 ==> d.ring == c.ring && Overlaid(c.screen, d.screen, Flat(c), [ch]))
  {
    hide RenderView;
    var b := EnsureBottom(c.(serial := c.serial + [ch]));
    EnsureBottomText(c.(serial := c.serial + [ch]));
    if Flat(c) == 1999 {
      assert c.cx == 79 && c.cy == 24;
    }
  }

  lemma EnsureBottomText(c: Con)
    ensures var b := EnsureBottom(c);
      b.screen == c.screen && b.ring == c.ring && b.start == c.start && b.count == c.count && b.cx == c.cx && b.cy == c.cy
  {
  }

  lemma ScrolledTwice(c: Con, d: Con, e: Con, j: nat, k: nat)
    requires Scrolled(c, d, j) && Scrolled(d, e, k)
    ensures Scrolled(c, e, j + k)
  {
    var a, b := Max(0, c.count + j - 100), Max(0, d.count + k - 100);
    assert (c.start + a) % 100 == (c.start + a) - 100 * ((c.start + a) / 100);
    assert ((c.start + a) % 100 + b) % 100 == (c.start + a + b) % 100;
    assert a + b == Max(0, c.count + j + k - 100);
  }

  lemma {:induction false} PutAllPlain(c: Con, s: seq<Char>)
    requires Plain(s) && Flat(c) + |s| < 4000
    ensures var d := PutAll(c, s); var k := Scrolls(Flat(c), |s|);
      && Scrolled(c, d, k) && Flat(d) + 80 * k == Flat(c) + |s|
      && (k == 0 ==> d.ring == c.ring && Overlaid(c.screen, d.screen, Flat(c), s))
  {
    hide Putc;
    if s != [] {
      var t, ch := s[..|s| - 1], s[|s| - 1];
      PutAllPlain(c, t);
      var m := PutAll(c, t);
      PutPlain(m, ch);
      ScrolledTwice(c, m, Putc(m, ch), Scrolls(Flat(c), |t|), if Flat(m) == 1999 then 1 else 0);
      if Scrolls(Flat(c), |s|) == 0 {
        OverlaidSnoc(c.screen, m.screen, Putc(m, ch).screen, Flat(c), t, ch);
        assert t + [ch] == s;
      }
    }
  }

  lemma OverlaidSnoc(g: Grid, h: Grid, i: Grid, p: nat, t: seq<Char>, ch: Char)
    requires Overlaid(g, h, p, t) && Overlaid(h, i, p + |t|, [ch])
    ensures Overlaid(g, i, p, t + [ch])
  {
    forall y, x | 0 <= y < 25 && 0 <= x < 80
      ensures i[y][x] == if p <= 80 * y + x < p + |t| + 1 then CellOf((t + [ch])[80 * y + x - p]) else g[y][x]
    {
      assert h[y][x] == if p <= 80 * y + x < p + |t| then CellOf(t[80 * y + x - p]) else g[y][x];
    }
  }
}
