/**
 The console without rows, rings or mirrors: one flat stream of cells, of which the oldest
 `evicted` rows have left the screen.
 */
module ConsoleStream {
  import opened CTypes
  import opened ConsoleModel

  datatype Stream = Stream(cells: seq<Cell>, evicted: nat)

  function Blanks(n: nat): (b: seq<Cell>)
    ensures |b| == n
  {
    seq(n, _ => BLANK)
  }

  /** Rows leave as soon as the cursor would fall below the 25th. */
  function Settle(s: Stream): Stream {
    if |s.cells| >= 80 * (s.evicted + 25) then s.(evicted := s.evicted + 1) else s
  }

  function Append(s: Stream, ch: Char): Stream {
    if ch == NEWLINE then Settle(s.(cells := s.cells + Blanks(80 - |s.cells| % 80)))
    else if ch == BACKSPACE then
      if |s.cells| > 80 * s.evicted then s.(cells := s.cells[..|s.cells| - 1]) else s
    else Settle(s.(cells := s.cells + [CellOf(ch)]))
  }

  /** The cell at a position of the stream, blank past its end. */
  function At(s: Stream, k: nat): Cell {
    if k < |s.cells| then s.cells[k] else BLANK
  }

  /** The console shows the stream: its last 25 rows on screen, up to 100 evicted ones in the scrollback. */
  ghost predicate Shows(c: Con, s: Stream) {
    && |s.cells| == 80 * (s.evicted + c.cy) + c.cx
    && c.count == Min(100, s.evicted)
    && (forall y, x :: 0 <= y < 25 && 0 <= x < 80 ==> c.screen[y][x] == At(s, 80 * (s.evicted + y) + x))
    && (forall i, x :: 0 <= i < c.count && 0 <= x < 80 ==>
          History(c)[i][x] == s.cells[80 * (s.evicted - c.count + i) + x])
  }

  // Keys that only move the view may come between the characters.
  datatype Event = Type(ch: Char) | Scroll(up: bool)

  function Console(c: Con, es: seq<Event>): Con {
    if es == [] then c
    else
      var d := Console(c, es[..|es| - 1]);
      match es[|es| - 1]
      case Type(ch) => Putc(d, ch)
      case Scroll(up) => ScrollKey(d, up)
  }

  function StreamOf(es: seq<Event>): Stream {
    if es == [] then Stream([], 0)
    else
      var s := StreamOf(es[..|es| - 1]);
      match es[|es| - 1]
      case Type(ch) => Append(s, ch)
      case Scroll(_) => s
  }

  // ---------------------------------------------------------------- one character

  /** Only view, mirror, hardware cursor and serial log may differ. */
  ghost predicate SameText(c: Con, d: Con) {
    c.screen == d.screen && c.ring == d.ring && c.start == d.start && c.count == d.count && c.cx == d.cx && c.cy == d.cy
  }

  lemma SameTextShows(c: Con, d: Con, s: Stream)
    requires SameText(c, d) && Shows(c, s)
    ensures Shows(d, s)
  {
    assert History(c) == History(d);
  }

  lemma ScrollIs(c: Con, d: Con)
    requires SameText(d, ScrollScreen(c).(cx := 0, cy := 24))
    ensures History(d) == (if c.count < 100 then History(c) else History(c)[1..]) + [c.screen[0]]
    ensures d.screen == c.screen[1..] + [BlankRow()] && d.cx == 0 && d.cy == 24
  {
    PushAppends(c, c.screen[0]);
    assert History(d) == History(PushRow(c, c.screen[0]));
  }

  lemma ScrolledHistory(c: Con, d: Con, s: Stream)
    requires |s.cells| == 80 * (s.evicted + 25) && c.count == Min(100, s.evicted)
    requires forall x :: 0 <= x < 80 ==> c.screen[0][x] == At(s, 80 * (s.evicted + 0) + x)
    requires forall i, x :: 0 <= i < c.count && 0 <= x < 80 ==>
               History(c)[i][x] == s.cells[80 * (s.evicted - c.count + i) + x]
    requires History(d) == (if c.count < 100 then History(c) else History(c)[1..]) + [c.screen[0]]
    ensures d.count == Min(100, s.evicted + 1)
    ensures forall i, x :: 0 <= i < d.count && 0 <= x < 80 ==>
              History(d)[i][x] == s.cells[80 * (s.evicted + 1 - d.count + i) + x]
  {
    assert |History(d)| == d.count && |History(c)| == c.count;
    hide History;
    forall i, x | 0 <= i < d.count && 0 <= x < 80
      ensures History(d)[i][x] == s.cells[80 * (s.evicted + 1 - d.count + i) + x]
    {
      if i == d.count - 1 {
        assert c.screen[0][x] == At(s, 80 * (s.evicted + 0) + x);
      } else if c.count < 100 {
        assert History(d)[i] == History(c)[i];
      } else {
        assert History(d)[i] == History(c)[i + 1];
      }
    }
  }

  /** Scrolling the screen and advancing `evicted` keep the two in step. */
  lemma ScrollShows(c: Con, d: Con, s: Stream)
    requires |s.cells| == 80 * (s.evicted + 25)
    requires c.count == Min(100, s.evicted)
    requires forall y, x :: 0 <= y < 25 && 0 <= x < 80 ==> c.screen[y][x] == At(s, 80 * (s.evicted + y) + x)
    requires forall i, x :: 0 <= i < c.count && 0 <= x < 80 ==>
               History(c)[i][x] == s.cells[80 * (s.evicted - c.count + i) + x]
    requires SameText(d, ScrollScreen(c).(cx := 0, cy := 24))
    ensures Shows(d, s.(evicted := s.evicted + 1))
  {
    hide History, ScrollScreen;
    var t := s.(evicted := s.evicted + 1);
    ScrollIs(c, d);
    ScrolledHistory(c, d, s);
    forall y, x | 0 <= y < 25 && 0 <= x < 80 ensures d.screen[y][x] == At(t, 80 * (t.evicted + y) + x) {
      if y < 24 {
        assert d.screen[y] == c.screen[y + 1];
        assert c.screen[y + 1][x] == At(s, 80 * (s.evicted + (y + 1)) + x);
      }
    }
  }

  lemma NextLineShows(c: Con, d: Con, s: Stream)
    requires |s.cells| == 80 * (s.evicted + c.cy + 1)
    requires c.count == Min(100, s.evicted)
    requires forall y, x :: 0 <= y < 25 && 0 <= x < 80 ==> c.screen[y][x] == At(s, 80 * (s.evicted + y) + x)
    requires forall i, x :: 0 <= i < c.count && 0 <= x < 80 ==>
               History(c)[i][x] == s.cells[80 * (s.evicted - c.count + i) + x]
    requires SameText(d, NextLine(c))
    ensures Shows(d, Settle(s))
  {
    if c.cy == 24 {
      ScrollShows(c, d, s);
    } else {
      assert History(d) == History(c);
    }
  }

  lemma NewlineShows(c: Con, d: Con, s: Stream)
    requires Shows(c, s) && SameText(d, NextLine(c))
    ensures Shows(d, Append(s, NEWLINE))
  {
    assert |s.cells| % 80 == c.cx;
    NextLineShows(c, d, s.(cells := s.cells + Blanks(80 - |s.cells| % 80)));
  }

  lemma BackspaceShows(c: Con, d: Con, s: Stream, x: Col, y: Line)
    requires Shows(c, s)
    requires x == if c.cx > 0 then c.cx - 1 else if c.cy > 0 then 79 else 0
    requires y == if c.cx > 0 then c.cy else if c.cy > 0 then c.cy - 1 else 0
    requires SameText(d, Poke(c.(cx := x, cy := y), x, y, BLANK))
    ensures Shows(d, Append(s, BACKSPACE))
  {
    var t := Append(s, BACKSPACE);
    assert History(d) == History(c);
    hide History;
    forall r, k | 0 <= r < 25 && 0 <= k < 80 ensures d.screen[r][k] == At(t, 80 * (t.evicted + r) + k) {
      if r == y && k == x {
      } else {
        assert d.screen[r][k] == c.screen[r][k];
      }
    }
  }

  lemma GlyphShows(c: Con, d: Con, s: Stream, ch: Char)
    requires Shows(c, s) && ch != NEWLINE && ch != BACKSPACE
    requires var p := Poke(c, c.cx, c.cy, CellOf(ch));
      SameText(d, if c.cx + 1 >= 80 then NextLine(p) else p.(cx := c.cx + 1))
    ensures Shows(d, Append(s, ch))
  {
    var t := s.(cells := s.cells + [CellOf(ch)]);
    var p := Poke(c, c.cx, c.cy, CellOf(ch));
    assert History(p) == History(c);
    PokeShows(c, s, ch);
    if c.cx == 79 {
      NextLineShows(p, d, t);
    } else {
      assert History(d) == History(p);
    }
  }

  lemma AppendShows(c: Con, s: Stream, ch: Char)
    requires Shows(c, s)
    ensures Shows(Putc(c, ch), Append(s, ch))
  {
    var b, d := EnsureBottom(c.(serial := c.serial + [ch])), Putc(c, ch);
    SameTextShows(c, b, s);
    if ch == NEWLINE {
      NewlineShows(b, d, s);
    } else if ch == BACKSPACE {
      BackspaceShows(b, d, s, d.cx, d.cy);
    } else {
      GlyphShows(b, d, s, ch);
    }
  }

  lemma PokeShows(c: Con, s: Stream, ch: Char)
    requires Shows(c, s)
    ensures var t := s.(cells := s.cells + [CellOf(ch)]);
      forall y, x :: 0 <= y < 25 && 0 <= x < 80 ==>
        Poke(c, c.cx, c.cy, CellOf(ch)).screen[y][x] == At(t, 80 * (s.evicted + y) + x)
  {
    var t := s.(cells := s.cells + [CellOf(ch)]);
    var p := Poke(c, c.cx, c.cy, CellOf(ch));
    forall y, x | 0 <= y < 25 && 0 <= x < 80 ensures p.screen[y][x] == At(t, 80 * (s.evicted + y) + x) {
      if y == c.cy && x == c.cx {
      } else {
        assert p.screen[y][x] == c.screen[y][x];
        assert 80 * (s.evicted + y) + x != |s.cells|;
      }
    }
  }

  // ---------------------------------------------------------------- every run

  /** For every run of characters and scroll keys after a clear, the console shows the stream typed so far. */
  lemma {:induction false} ConsoleRefinesStream(c: Con, es: seq<Event>)
    ensures Shows(Console(Clear(c), es), StreamOf(es))
  {
    if es == [] {
    } else {
      var before := es[..|es| - 1];
      ConsoleRefinesStream(c, before);
      var d := Console(Clear(c), before);
      match es[|es| - 1]
      case Type(ch) => AppendShows(d, StreamOf(before), ch);
      case Scroll(up) => SameTextShows(d, ScrollKey(d, up), StreamOf(before));
    }
  }

  /** What has been evicted is final: no later key changes it, whatever is erased. */
  lemma {:induction false} EvictedRowsAreFinal(es: seq<Event>, n: nat)
    requires n <= |es|
    ensures var s, t := StreamOf(es[..n]), StreamOf(es);
      s.evicted <= t.evicted && 80 * s.evicted <= |s.cells| && 80 * t.evicted <= |t.cells|
      && t.cells[..80 * s.evicted] == s.cells[..80 * s.evicted]
  {
    ShowsLength(es);
    if n == |es| {
      assert es[..n] == es;
    } else {
      EvictedRowsAreFinal(es[..|es| - 1], n);
      assert es[..|es| - 1][..n] == es[..n];
    }
  }

  lemma ShowsLength(es: seq<Event>)
    ensures 80 * StreamOf(es).evicted <= |StreamOf(es).cells| < 80 * (StreamOf(es).evicted + 25)
  {
    if es != [] {
      ShowsLength(es[..|es| - 1]);
    }
  }
}
