/** The pane grid as a value, what drawing it does to the console, and the picture that must result. */
module PaneModel {
  import opened CTypes
  import opened ConsoleModel
  import opened Layout
  import ConsoleMirror
  import opened ConsoleText
  import S = ShellModel

  const LINE_VERT: Char := 0xB3 - 256
  const LINE_HORZ: Char := 0xC4 - 256
  const LINE_CROSS: Char := 0xC5 - 256

  datatype Pane = Pane(w: nat, h: nat, ax: nat, ay: nat)

  /** The grids the pane commands can reach. */
  predicate Reachable(p: Pane) {
    1 <= p.w <= 4 && 1 <= p.h <= 4 && p.ax < p.w && p.ay < p.h
  }

  function X(p: Pane, i: nat): nat
    requires Reachable(p) && i <= p.w
  {
    Offset(80, p.w, p.ax, i)
  }

  function Y(p: Pane, j: nat): nat
    requires Reachable(p) && j <= p.h
  {
    Offset(25, p.h, p.ay, j)
  }

  // ---------------------------------------------------------------- the drawing

  function PutAt(c: Con, x: nat, y: nat, ch: Char): Con {
    Putc(SetCursor(c, x, y), ch)
  }

  /** One divider between columns, drawn down n rows. */
  function Column(c: Con, x: nat, n: nat): Con {
    if n == 0 then c else PutAt(Column(c, x, n - 1), x, n - 1, LINE_VERT)
  }

  function Columns(c: Con, p: Pane, k: nat): Con
    requires Reachable(p) && 0 < k <= p.w
  {
    if k == 1 then c else Column(Columns(c, p, k - 1), X(p, k - 1), 25)
  }

  function Repeat(ch: Char, n: nat): (s: seq<Char>)
    ensures |s| == n
  {
    seq(n, _ => ch)
  }

  function Rows(c: Con, p: Pane, k: nat): Con
    requires Reachable(p) && 0 < k <= p.h
  {
    if k == 1 then c else PutAll(SetCursor(Rows(c, p, k - 1), 0, Y(p, k - 1)), Repeat(LINE_HORZ, 80))
  }

  /** The crossings of one column divider with the row dividers before the k-th. */
  function Crossings(c: Con, p: Pane, i: nat, k: nat): Con
    requires Reachable(p) && 0 < i <= p.w && 0 < k <= p.h
  {
    if k == 1 then c else PutAt(Crossings(c, p, i, k - 1), X(p, i), Y(p, k - 1), LINE_CROSS)
  }

  function AllCrossings(c: Con, p: Pane, k: nat): Con
    requires Reachable(p) && 0 < k <= p.w
  {
    if k == 1 then c else Crossings(AllCrossings(c, p, k - 1), p, k - 1, p.h)
  }

  /** pane_draw_no_prompt */
  function Draw(c: Con, p: Pane): Con
    requires Reachable(p)
  {
    SetCursor(AllCrossings(Rows(Columns(Clear(c), p, p.w), p, p.h), p, p.w), X(p, p.ax) + 1, Y(p, p.ay) + 1)
  }

  // ---------------------------------------------------------------- the picture

  ghost predicate OnColumn(p: Pane, x: nat, k: nat)
    requires Reachable(p) && k <= p.w
  {
    exists i :: 0 < i < k && x == X(p, i)
  }

  ghost predicate OnRow(p: Pane, y: nat, k: nat)
    requires Reachable(p) && k <= p.h
  {
    exists j :: 0 < j < k && y == Y(p, j)
  }

  lemma OnColumnStep(p: Pane, x: nat, k: nat)
    requires Reachable(p) && 1 < k <= p.w
    ensures OnColumn(p, x, k) <==> OnColumn(p, x, k - 1) || x == X(p, k - 1)
    ensures !OnColumn(p, x, 1)
  {
    hide X;
  }

  lemma OnRowStep(p: Pane, y: nat, k: nat)
    requires Reachable(p) && 1 < k <= p.h
    ensures OnRow(p, y, k) <==> OnRow(p, y, k - 1) || y == Y(p, k - 1)
    ensures !OnRow(p, y, 1)
  {
    hide Y;
  }

  lemma NoDividerYet(p: Pane, x: nat, y: nat)
    requires Reachable(p)
    ensures !OnColumn(p, x, 1) && !OnRow(p, y, 1)
  {
  }

  /** Cross where the dividers meet, a line on one divider only, blank elsewhere. */
  ghost predicate Pictures(p: Pane, g: Grid)
    requires Reachable(p)
  {
    forall y, x :: 0 <= y < 25 && 0 <= x < 80 ==>
      g[y][x] == if OnColumn(p, x, p.w) && OnRow(p, y, p.h) then CellOf(LINE_CROSS)
                 else if OnRow(p, y, p.h) then CellOf(LINE_HORZ)
                 else if OnColumn(p, x, p.w) then CellOf(LINE_VERT)
                 else BLANK
  }

  // ---------------------------------------------------------------- where the dividers can be

  /** Every pane is at least four cells wide and high, so no divider is at the right or bottom edge. */
  lemma DividersInside(p: Pane, i: nat)
    requires Reachable(p)
    ensures 0 < i < p.w ==> 4 <= X(p, i) <= 76 && X(p, i) == X(p, i - 1) + Extent(80, p.w, p.ax, i - 1)
    ensures i < p.w ==> X(p, i) + 4 <= X(p, i + 1) <= 80
    ensures 0 < i < p.h ==> 4 <= Y(p, i) <= 21 && Y(p, i) == Y(p, i - 1) + Extent(25, p.h, p.ay, i - 1)
    ensures i < p.h ==> Y(p, i) + 4 <= Y(p, i + 1) <= 25
  {
    WideEnough(80, p.w, p.ax);
    WideEnough(25, p.h, p.ay);
    if i < p.w {
      StepsOf(80, p.w, p.ax, i);
    }
    if i < p.h {
      StepsOf(25, p.h, p.ay, i);
    }
  }

  lemma WideEnough(total: nat, n: nat, active: nat)
    requires total in {80, 25} && 0 < n <= 4 && active < n
    ensures forall k :: 0 <= k < n ==> Extent(total, n, active, k) >= 4
  {
  }

  lemma StepsOf(total: nat, n: nat, active: nat, i: nat)
    requires i < n <= 4 && active < n && forall k :: 0 <= k < n ==> Extent(total, n, active, k) >= 4
    ensures Offset(total, n, active, i) + 4 <= Offset(total, n, active, i + 1) <= total
    ensures 0 < i ==> 4 <= Offset(total, n, active, i)
  {
    ExtentsFill(total, n, active);
    OffsetGrows(total, n, active, i + 1);
  }

  // ---------------------------------------------------------------- drawing keeps still

  /** The live view is showing, with its mirror in step, and nothing has scrolled since the clear. */
  ghost predicate Still(c: Con) {
    c.view == 0 && c.count == 0 && Consistent(c)
  }

  lemma PutAtStill(c: Con, x: nat, y: nat, ch: Char)
    requires Still(c) && x < 79 && y < 25 && ch != NEWLINE && ch != BACKSPACE
    ensures var d := PutAt(c, x, y, ch);
      && Still(d) && d.screen == c.screen[y := c.screen[y][x := CellOf(ch)]]
  {
    hide RenderView, Mirrored;
    ConsoleMirror.MoveConsistent(c, x, y);
    PutcConsistent(SetCursor(c, x, y), ch);
  }

  lemma {:induction false} ColumnDraws(c: Con, x: nat, n: nat)
    requires Still(c) && x < 79 && n <= 25
    ensures var d := Column(c, x, n);
      && Still(d)
      && forall y, k :: 0 <= y < 25 && 0 <= k < 80 ==>
           d.screen[y][k] == if k == x && y < n then CellOf(LINE_VERT) else c.screen[y][k]
  {
    hide PutAt;
    if n > 0 {
      ColumnDraws(c, x, n - 1);
      PutAtStill(Column(c, x, n - 1), x, n - 1, LINE_VERT);
    }
  }

  lemma {:induction false} ColumnsDraw(c: Con, p: Pane, k: nat)
    requires Still(c) && Reachable(p) && 0 < k <= p.w
    ensures var d := Columns(c, p, k);
      && Still(d)
      && forall y, x :: 0 <= y < 25 && 0 <= x < 80 ==>
           d.screen[y][x] == if OnColumn(p, x, k) then CellOf(LINE_VERT) else c.screen[y][x]
  {
    hide Column, OnColumn, X;
    if k == 1 {
      forall x: nat | 0 <= x < 80 ensures !OnColumn(p, x, 1) {
        NoDividerYet(p, x, 0);
      }
    } else {
      ColumnsDraw(c, p, k - 1);
      DividersInside(p, k - 1);
      ColumnDraws(Columns(c, p, k - 1), X(p, k - 1), 25);
      var d := Columns(c, p, k);
      forall y, x | 0 <= y < 25 && 0 <= x < 80
        ensures d.screen[y][x] == if OnColumn(p, x, k) then CellOf(LINE_VERT) else c.screen[y][x]
      {
        OnColumnStep(p, x, k);
      }
    }
  }

  lemma {:induction false} LineDraws(c: Con, y: nat, n: nat)
    requires Still(c) && y < 24 && n <= 80 && c.cx == 0 && c.cy == y
    ensures var d := PutAll(c, Repeat(LINE_HORZ, n));
      && Still(d) && 80 * d.cy + d.cx == 80 * y + n
      && forall r, x :: 0 <= r < 25 && 0 <= x < 80 ==>
           d.screen[r][x] == if r == y && x < n then CellOf(LINE_HORZ) else c.screen[r][x]
  {
    hide Putc, Still;
    if n > 0 {
      assert Repeat(LINE_HORZ, n)[..n - 1] == Repeat(LINE_HORZ, n - 1);
      LineDraws(c, y, n - 1);
      PutStill(PutAll(c, Repeat(LINE_HORZ, n - 1)), LINE_HORZ);
    }
  }

  lemma PutStill(c: Con, ch: Char)
    requires Still(c) && 80 * c.cy + c.cx < 1999 && ch != NEWLINE && ch != BACKSPACE
    ensures var d := Putc(c, ch);
      && Still(d) && 80 * d.cy + d.cx == 80 * c.cy + c.cx + 1
      && d.screen == c.screen[c.cy := c.screen[c.cy][c.cx := CellOf(ch)]]
  {
    hide RenderView, Mirrored;
    PutcConsistent(c, ch);
  }

  lemma {:induction false} RowsDraw(c: Con, p: Pane, k: nat)
    requires Still(c) && Reachable(p) && 0 < k <= p.h
    ensures var d := Rows(c, p, k);
      && Still(d)
      && forall y, x :: 0 <= y < 25 && 0 <= x < 80 ==>
           d.screen[y][x] == if OnRow(p, y, k) then CellOf(LINE_HORZ) else c.screen[y][x]
  {
    hide PutAll, Mirrored, OnRow, Y;
    if k == 1 {
      forall y: nat | 0 <= y < 25 ensures !OnRow(p, y, 1) {
        NoDividerYet(p, 0, y);
      }
    } else {
      RowsDraw(c, p, k - 1);
      DividersInside(p, k - 1);
      var b := Rows(c, p, k - 1);
      ConsoleMirror.MoveConsistent(b, 0, Y(p, k - 1));
      LineDraws(SetCursor(b, 0, Y(p, k - 1)), Y(p, k - 1), 80);
      var d := Rows(c, p, k);
      forall y, x | 0 <= y < 25 && 0 <= x < 80
        ensures d.screen[y][x] == if OnRow(p, y, k) then CellOf(LINE_HORZ) else c.screen[y][x]
      {
        OnRowStep(p, y, k);
      }
    }
  }

  /** The two grids differ exactly by crosses in column i on the first row dividers. */
  ghost predicate Crossed(g: Grid, h: Grid, p: Pane, i: nat, k: nat)
    requires Reachable(p) && i < p.w && k <= p.h
  {
    forall y, x :: 0 <= y < 25 && 0 <= x < 80 ==>
      h[y][x] == if x == X(p, i) && OnRow(p, y, k) then CellOf(LINE_CROSS) else g[y][x]
  }

  lemma {:induction false} CrossingsDraw(c: Con, p: Pane, i: nat, k: nat)
    requires Still(c) && Reachable(p) && 0 < i < p.w && 0 < k <= p.h
    ensures Still(Crossings(c, p, i, k)) && Crossed(c.screen, Crossings(c, p, i, k).screen, p, i, k)
  {
    hide PutAt, OnRow, X, Y, Still, Extent, Offset;
    if k == 1 {
      forall y: nat | 0 <= y < 25 ensures !OnRow(p, y, 1) {
        NoDividerYet(p, 0, y);
      }
    } else {
      CrossingsDraw(c, p, i, k - 1);
      DividersInside(p, i);
      DividersInside(p, k - 1);
      var b, d := Crossings(c, p, i, k - 1), Crossings(c, p, i, k);
      PutAtStill(b, X(p, i), Y(p, k - 1), LINE_CROSS);
      forall y, x | 0 <= y < 25 && 0 <= x < 80
        ensures d.screen[y][x] == if x == X(p, i) && OnRow(p, y, k) then CellOf(LINE_CROSS) else c.screen[y][x]
      {
        OnRowStep(p, y, k);
        assert b.screen[y][x] == if x == X(p, i) && OnRow(p, y, k - 1) then CellOf(LINE_CROSS) else c.screen[y][x];
        assert d.screen[y][x] == if x == X(p, i) && y == Y(p, k - 1) then CellOf(LINE_CROSS) else b.screen[y][x];
      }
    }
  }

  lemma {:induction false} AllCrossingsDraw(c: Con, p: Pane, k: nat)
    requires Still(c) && Reachable(p) && 0 < k <= p.w
    ensures var d := AllCrossings(c, p, k);
      && Still(d)
      && forall y, x :: 0 <= y < 25 && 0 <= x < 80 ==>
           d.screen[y][x] == if OnColumn(p, x, k) && OnRow(p, y, p.h) then CellOf(LINE_CROSS) else c.screen[y][x]
  {
    hide Crossings, OnColumn, OnRow, X, Y, Still;
    if k == 1 {
      forall x: nat | 0 <= x < 80 ensures !OnColumn(p, x, 1) {
        NoDividerYet(p, x, 0);
      }
    } else {
      AllCrossingsDraw(c, p, k - 1);
      var b, d := AllCrossings(c, p, k - 1), AllCrossings(c, p, k);
      CrossingsDraw(b, p, k - 1, p.h);
      forall y, x | 0 <= y < 25 && 0 <= x < 80
        ensures d.screen[y][x] == if OnColumn(p, x, k) && OnRow(p, y, p.h) then CellOf(LINE_CROSS) else c.screen[y][x]
      {
        OnColumnStep(p, x, k);
        assert b.screen[y][x] == if OnColumn(p, x, k - 1) && OnRow(p, y, p.h) then CellOf(LINE_CROSS) else c.screen[y][x];
        assert d.screen[y][x] == if x == X(p, k - 1) && OnRow(p, y, p.h) then CellOf(LINE_CROSS) else b.screen[y][x];
      }
    }
  }

  /** From any console, drawing any reachable grid gives the picture, with empty scrollback and the cursor in the active pane. */
  lemma DrawIsPicture(c: Con, p: Pane)
    requires Reachable(p)
    ensures var d := Draw(c, p);
      && Pictures(p, d.screen) && Still(d) && History(d) == []
      && d.cx == X(p, p.ax) + 1 && d.cy == Y(p, p.ay) + 1
  {
    hide Columns, Rows, AllCrossings, OnColumn, OnRow, Mirrored;
    ConsoleMirror.ClearConsistent(c);
    ColumnsDraw(Clear(c), p, p.w);
    var a := Columns(Clear(c), p, p.w);
    RowsDraw(a, p, p.h);
    var b := Rows(a, p, p.h);
    AllCrossingsDraw(b, p, p.w);
    DividersInside(p, p.ax);
    DividersInside(p, p.ay);
    ConsoleMirror.MoveConsistent(AllCrossings(b, p, p.w), X(p, p.ax) + 1, Y(p, p.ay) + 1);
  }

  // ---------------------------------------------------------------- the prompt

  lemma OffsetsOrdered(total: nat, n: nat, active: nat, i: nat, j: nat)
    requires active < n && i <= j <= n
    ensures Offset(total, n, active, i) <= Offset(total, n, active, j)
    decreases j - i
  {
    if i < j {
      OffsetsOrdered(total, n, active, i + 1, j);
    }
  }

  /** Strictly inside a pane there is no divider. */
  lemma NoDividerInside(p: Pane, i: nat, j: nat, x: nat, y: nat)
    requires Reachable(p) && i < p.w && j < p.h
    ensures X(p, i) < x < X(p, i + 1) ==> !OnColumn(p, x, p.w)
    ensures Y(p, j) < y < Y(p, j + 1) ==> !OnRow(p, y, p.h)
  {
    forall k | 0 < k < p.w ensures X(p, i) < x < X(p, i + 1) ==> x != X(p, k) {
      if k <= i {
        OffsetsOrdered(80, p.w, p.ax, k, i);
      } else {
        OffsetsOrdered(80, p.w, p.ax, i + 1, k);
      }
    }
    forall k | 0 < k < p.h ensures Y(p, j) < y < Y(p, j + 1) ==> y != Y(p, k) {
      if k <= j {
        OffsetsOrdered(25, p.h, p.ay, k, j);
      } else {
        OffsetsOrdered(25, p.h, p.ay, j + 1, k);
      }
    }
  }

  /** The active pane has room for the prompt behind its left edge. */
  lemma RoomForPrompt(p: Pane)
    requires Reachable(p)
    ensures X(p, p.ax) + 40 <= X(p, p.ax + 1) <= 80 && Y(p, p.ay) + 2 <= Y(p, p.ay + 1) <= 25
  {
    DividersInside(p, p.ax);
    DividersInside(p, p.ay);
  }

  lemma DrawIsStill(c: Con, p: Pane)
    requires Reachable(p)
    ensures Draw(c, p).count == 0
  {
    hide Draw;
    DrawIsPicture(c, p);
  }

  /** After pane_draw only blank cells strictly inside the active pane have been written over, by the prompt. */
  lemma PromptInsidePane(c: Con, p: Pane)
    requires Reachable(p)
    ensures var d := Draw(c, p); var e := PutAll(d, PROMPT);
      && e.count == 0 && e.cy == d.cy && e.cx == d.cx + 8
      && forall y, x :: 0 <= y < 25 && 0 <= x < 80 && e.screen[y][x] != d.screen[y][x] ==>
           && d.screen[y][x] == BLANK
           && X(p, p.ax) < x < X(p, p.ax + 1) && Y(p, p.ay) < y < Y(p, p.ay + 1)
  {
    hide Draw, PutAll, OnColumn, OnRow, X, Y, Still;
    DrawIsPicture(c, p);
    DrawIsStill(c, p);
    RoomForPrompt(p);
    var d := Draw(c, p);
    var e := PutAll(d, PROMPT);
    PromptIsPlain();
    PutAllPlain(d, PROMPT);
    forall y, x | 0 <= y < 25 && 0 <= x < 80 && e.screen[y][x] != d.screen[y][x]
      ensures d.screen[y][x] == BLANK
      ensures X(p, p.ax) < x < X(p, p.ax + 1) && Y(p, p.ay) < y < Y(p, p.ay + 1)
    {
      assert y == d.cy && d.cx <= x < d.cx + 8;
      NoDividerInside(p, p.ax, p.ay, x, y);
    }
  }

  lemma PromptIsPlain()
    ensures Plain(PROMPT) && |PROMPT| == 8
  {
  }

  // ---------------------------------------------------------------- commands

  datatype Command = GuiStart | GuiStop | Width(delta: int) | Height(delta: int) | Left | Right | Up | Down

  function Resize(size: nat, delta: int): nat {
    if delta > 0 && size < 4 then size + 1 else if delta < 0 && size > 1 then size - 1 else size
  }

  function Move(p: Pane, cmd: Command): Pane {
    match cmd
    case GuiStart => Pane(2, 2, 0, 1)
    case GuiStop => Pane(1, 1, 0, 0)
    case Width(delta) =>
      var w := Resize(p.w, delta);
      p.(w := w, ax := if delta < 0 && p.ax >= w && w > 0 then w - 1 else p.ax)
    case Height(delta) =>
      var h := Resize(p.h, delta);
      p.(h := h, ay := if delta < 0 && p.ay >= h && h > 0 then h - 1 else p.ay)
    case Left => p.(ax := if p.ax > 0 then p.ax - 1 else p.ax)
    case Right => p.(ax := if p.ax + 1 < p.w then p.ax + 1 else p.ax)
    case Up => p.(ay := if p.ay > 0 then p.ay - 1 else p.ay)
    case Down => p.(ay := if p.ay + 1 < p.h then p.ay + 1 else p.ay)
  }

  /** pane_draw: the grid, then a fresh prompt in the active pane. */
  function Redrawn(s: S.State, p: Pane): S.State
    requires Reachable(p)
  {
    S.ShowPrompt(s.(con := Draw(s.con, p)))
  }

  /** The prompt of a redrawn pane is an empty line one cell inside the active pane, behind the eight characters of the prompt. */
  lemma RedrawnIs(s: S.State, p: Pane)
    requires Reachable(p)
    ensures var t := Redrawn(s, p);
      && t.con == PutAll(Draw(s.con, p), PROMPT)
      && t.sh == s.sh.(before := [], after := [], disp := 0, px := t.con.cx, py := t.con.cy)
      && t.sh.px == X(p, p.ax) + 9 && t.sh.py == Y(p, p.ay) + 1
  {
    hide Draw, PutAll, X, Y, Still;
    DrawIsPicture(s.con, p);
    PromptInsidePane(s.con, p);
  }

  /** The line characters in their cells: the sign of the char has overwritten the colour. */
  lemma LineCells()
    ensures CellOf(LINE_VERT) == 0xFFB3 && CellOf(LINE_HORZ) == 0xFFC4 && CellOf(LINE_CROSS) == 0xFFC5
  {
  }

  /** Moving stops at the edges of the grid, resizing at one and four, with the active pane pulled back onto the grid. */
  lemma MoveIs(p: Pane, cmd: Command)
    requires Reachable(p)
    ensures var q := Move(p, cmd);
      match cmd
      case GuiStart => q == Pane(2, 2, 0, 1)
      case GuiStop => q == Pane(1, 1, 0, 0)
      case Width(d) => q.w == Min(Max(p.w + Sign(d), 1), 4) && q.ax == Min(p.ax, q.w - 1) && q == p.(w := q.w, ax := q.ax)
      case Height(d) => q.h == Min(Max(p.h + Sign(d), 1), 4) && q.ay == Min(p.ay, q.h - 1) && q == p.(h := q.h, ay := q.ay)
      case Left => q.ax == Max(p.ax - 1, 0) && q == p.(ax := q.ax)
      case Right => q.ax == Min(p.ax + 1, p.w - 1) && q == p.(ax := q.ax)
      case Up => q.ay == Max(p.ay - 1, 0) && q == p.(ay := q.ay)
      case Down => q.ay == Min(p.ay + 1, p.h - 1) && q == p.(ay := q.ay)
  {
  }

  function Sign(d: int): int {
    if d > 0 then 1 else if d < 0 then -1 else 0
  }

  /** Each command and the one that undoes it, where there is room for the first. */
  lemma MovesUndo(p: Pane)
    requires Reachable(p)
    ensures p.ax + 1 < p.w ==> Move(Move(p, Right), Left) == p
    ensures p.ax > 0 ==> Move(Move(p, Left), Right) == p
    ensures p.ay + 1 < p.h ==> Move(Move(p, Down), Up) == p
    ensures p.ay > 0 ==> Move(Move(p, Up), Down) == p
    ensures p.w < 4 ==> Move(Move(p, Width(1)), Width(-1)) == p
    ensures p.h < 4 ==> Move(Move(p, Height(1)), Height(-1)) == p
  {
  }

  function Moves(p: Pane, cmds: seq<Command>): Pane {
    if cmds == [] then p else Move(Moves(p, cmds[..|cmds| - 1]), cmds[|cmds| - 1])
  }

  /** From the single pane of the start every run of commands stays on a grid of one to four panes each way. */
  lemma {:induction false} MovesReachable(cmds: seq<Command>)
    ensures Reachable(Moves(Pane(1, 1, 0, 0), cmds))
  {
    if cmds != [] {
      MovesReachable(cmds[..|cmds| - 1]);
      MoveReachable(Moves(Pane(1, 1, 0, 0), cmds[..|cmds| - 1]), cmds[|cmds| - 1]);
    }
  }

  /** The active pane stays on the grid under every command. */
  lemma MoveReachable(p: Pane, cmd: Command)
    requires Reachable(p)
    ensures Reachable(Move(p, cmd))
  {
  }
}
