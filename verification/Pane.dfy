/** pane.c: the grid variables, the layout arrays and the drawing, proved against PaneModel. */
module PaneDevice {
  import opened CTypes
  import opened ConsoleDevice
  import opened ShellDevice
  import C = ConsoleModel
  import L = Layout
  import M = PaneModel
  import S = ShellModel

  class PaneManager {
    const shell: Shell
    var gridW: int
    var gridH: int
    var activeX: int
    var activeY: int
    var guiActive: bool

    ghost function Repr(): set<object> {
      {this} + shell.Repr()
    }

    ghost predicate Valid()
      reads this, shell, shell.cmdBuf, shell.history, shell.con, shell.con.screen, shell.con.scrollback, shell.con.vga
    {
      && this !in shell.Repr() && shell.Valid()
      && 1 <= gridW <= 4 && 1 <= gridH <= 4 && 0 <= activeX < gridW && 0 <= activeY < gridH
    }

    ghost function Value(): M.Pane
      requires 0 <= gridW && 0 <= gridH && 0 <= activeX && 0 <= activeY
      reads this
    {
      M.Pane(gridW, gridH, activeX, activeY)
    }

    constructor (shell: Shell)
      requires shell.Valid()
      ensures Valid() && this.shell == shell && !guiActive && Value() == M.Pane(1, 1, 0, 0)
    {
      this.shell := shell;
      gridW, gridH := 1, 1;
      activeX, activeY := 0, 0;
      guiActive := false;
    }

    /** Starting positions of the columns or rows, from their extents. */
    static method Positions(n: int, active: nat, total: nat) returns (pos: array<U32>)
      requires 1 <= n <= 4 && active < n && total < 0x1_0000
      ensures fresh(pos) && pos.Length == 4
      ensures forall i :: 0 <= i < n ==> pos[i] == L.Offset(total, n, active, i)
    {
      hide L.Extent;
      var extents := new U32[4](_ => 0xDEADBEEF);  // uninitialised in C
      L.ComputeExtents(extents, n, active, total);
      pos := new U32[4](_ => 0);
      for i := 1 to n
        invariant forall k :: 0 <= k < i ==> pos[k] == L.Offset(total, n, active, k)
        invariant forall k :: 0 <= k < n ==> extents[k] == L.Extent(total, n, active, k)
      {
        L.ExtentsFill(total, n, active);
        L.OffsetGrows(total, n, active, i);
        pos[i] := (pos[i - 1] + extents[i - 1]) % 0x1_0000_0000;
      }
    }

    static method DrawColumns(con: Console, xpos: array<U32>, p: M.Pane)
      requires con.Valid() && M.Reachable(p) && xpos.Length == 4 && xpos !in con.Repr()
      requires forall i :: 0 <= i < p.w ==> xpos[i] == M.X(p, i)
      modifies con.Repr()
      ensures con.Valid() && con.model == M.Columns(old(con.model), p, p.w)
    {
      hide C.Putc, C.SetCursor, Console.Valid;
      for i := 1 to p.w
        invariant con.Valid() && con.model == M.Columns(old(con.model), p, i)
      {
        ghost var before := con.model;
        var x := xpos[i];
        M.DividersInside(p, i);
        for y := 0 to 25
          invariant con.Valid() && con.model == M.Column(before, x, y)
        {
          con.SetCursor(x % 256, y % 256);
          con.Putc(M.LINE_VERT);
        }
      }
    }

    static method DrawRows(con: Console, ypos: array<U32>, p: M.Pane)
      requires con.Valid() && M.Reachable(p) && ypos.Length == 4 && ypos !in con.Repr()
      requires forall j :: 0 <= j < p.h ==> ypos[j] == M.Y(p, j)
      modifies con.Repr()
      ensures con.Valid() && con.model == M.Rows(old(con.model), p, p.h)
    {
      hide C.Putc, C.SetCursor, Console.Valid;
      for j := 1 to p.h
        invariant con.Valid() && con.model == M.Rows(old(con.model), p, j)
      {
        M.DividersInside(p, j);
        con.SetCursor(0, ypos[j] % 256);
        ghost var before := con.model;
        for x := 0 to 80
          invariant con.Valid() && con.model == C.PutAll(before, M.Repeat(M.LINE_HORZ, x))
        {
          con.Putc(M.LINE_HORZ);
          assert M.Repeat(M.LINE_HORZ, x + 1)[..x] == M.Repeat(M.LINE_HORZ, x);
        }
      }
    }

    static method DrawCrossings(con: Console, xpos: array<U32>, ypos: array<U32>, p: M.Pane)
      requires con.Valid() && M.Reachable(p) && xpos.Length == ypos.Length == 4
      requires xpos !in con.Repr() && ypos !in con.Repr()
      requires forall i :: 0 <= i < p.w ==> xpos[i] == M.X(p, i)
      requires forall j :: 0 <= j < p.h ==> ypos[j] == M.Y(p, j)
      modifies con.Repr()
      ensures con.Valid() && con.model == M.AllCrossings(old(con.model), p, p.w)
    {
      hide C.Putc, C.SetCursor, Console.Valid, M.Crossings, M.X, M.Y;
      for i := 1 to p.w
        invariant con.Valid() && con.model == M.AllCrossings(old(con.model), p, i)
      {
        M.DividersInside(p, i);
        DrawCrossingsAt(con, xpos[i], i, ypos, p);
      }
    }

    static method DrawCrossingsAt(con: Console, x: U32, ghost i: nat, ypos: array<U32>, p: M.Pane)
      requires con.Valid() && M.Reachable(p) && 0 < i < p.w && x == M.X(p, i)
      requires ypos.Length == 4 && ypos !in con.Repr() && forall j :: 0 <= j < p.h ==> ypos[j] == M.Y(p, j)
      modifies con.Repr()
      ensures con.Valid() && con.model == M.Crossings(old(con.model), p, i, p.h)
    {
      hide C.Putc, C.SetCursor, Console.Valid, M.X, M.Y;
      M.DividersInside(p, i);
      for j := 1 to p.h
        invariant con.Valid() && con.model == M.Crossings(old(con.model), p, i, j)
      {
        M.DividersInside(p, j);
        con.SetCursor(x % 256, ypos[j] % 256);
        con.Putc(M.LINE_CROSS);
      }
    }

    /** pane_draw_internal up to the prompt. */
    static method DrawGrid(con: Console, p: M.Pane)
      requires con.Valid() && M.Reachable(p)
      modifies con.Repr()
      ensures con.Valid() && con.model == M.Draw(old(con.model), p)
    {
      hide C.SetCursor, C.Clear, Console.Valid, M.Columns, M.Rows, M.AllCrossings, L.Offset;
      con.Clear();
      var xpos := Positions(p.w, p.ax, 80);
      var ypos := Positions(p.h, p.ay, 25);
      DrawColumns(con, xpos, p);
      DrawRows(con, ypos, p);
      DrawCrossings(con, xpos, ypos, p);
      M.RoomForPrompt(p);
      con.SetCursor((xpos[p.ax] + 1) % 256, (ypos[p.ay] + 1) % 256);
    }

    method DrawInternal(showPrompt: bool)
      requires Valid()
      modifies shell, shell.con.Repr()
      ensures Valid()
      ensures shell.Value() == (var drawn := old(shell.Value()).(con := M.Draw(old(shell.con.model), Value()));
                                if showPrompt then S.ShowPrompt(drawn) else drawn)
    {
      hide M.Draw, S.ShowPrompt, Console.Valid;
      DrawGrid(shell.con, M.Pane(gridW, gridH, activeX, activeY));
      if showPrompt {
        shell.ShowPrompt();
      }
    }

    method ResizeWidth(delta: int)
      requires Valid()
      modifies this, shell, shell.con.Repr()
      ensures Valid() && Value() == M.Move(old(Value()), M.Width(delta))
      ensures guiActive == old(guiActive) && shell.Value() == M.Redrawn(old(shell.Value()), Value())
    {
      hide M.Draw, S.ShowPrompt, Console.Valid, S.WellFormed;
      if delta > 0 && gridW < 4 {
        gridW := gridW + 1;
      } else if delta < 0 && gridW > 1 {
        gridW := gridW - 1;
        if activeX >= gridW {
          activeX := gridW - 1;
        }
      }
      DrawInternal(true);
    }

    method ResizeHeight(delta: int)
      requires Valid()
      modifies this, shell, shell.con.Repr()
      ensures Valid() && Value() == M.Move(old(Value()), M.Height(delta))
      ensures guiActive == old(guiActive) && shell.Value() == M.Redrawn(old(shell.Value()), Value())
    {
      hide M.Draw, S.ShowPrompt, Console.Valid, S.WellFormed;
      if delta > 0 && gridH < 4 {
        gridH := gridH + 1;
      } else if delta < 0 && gridH > 1 {
        gridH := gridH - 1;
        if activeY >= gridH {
          activeY := gridH - 1;
        }
      }
      DrawInternal(true);
    }

    method MoveLeft()
      requires Valid()
      modifies this, shell, shell.con.Repr()
      ensures Valid() && Value() == M.Move(old(Value()), M.Left)
      ensures guiActive == old(guiActive) && shell.Value() == M.Redrawn(old(shell.Value()), Value())
    {
      hide M.Draw, S.ShowPrompt, Console.Valid, S.WellFormed;
      if activeX > 0 {
        activeX := activeX - 1;
      }
      DrawInternal(true);
    }

    method MoveRight()
      requires Valid()
      modifies this, shell, shell.con.Repr()
      ensures Valid() && Value() == M.Move(old(Value()), M.Right)
      ensures guiActive == old(guiActive) && shell.Value() == M.Redrawn(old(shell.Value()), Value())
    {
      hide M.Draw, S.ShowPrompt, Console.Valid, S.WellFormed;
      if activeX + 1 < gridW {
        activeX := activeX + 1;
      }
      DrawInternal(true);
    }

    method MoveUp()
      requires Valid()
      modifies this, shell, shell.con.Repr()
      ensures Valid() && Value() == M.Move(old(Value()), M.Up)
      ensures guiActive == old(guiActive) && shell.Value() == M.Redrawn(old(shell.Value()), Value())
    {
      hide M.Draw, S.ShowPrompt, Console.Valid, S.WellFormed;
      if activeY > 0 {
        activeY := activeY - 1;
      }
      DrawInternal(true);
    }

    method MoveDown()
      requires Valid()
      modifies this, shell, shell.con.Repr()
      ensures Valid() && Value() == M.Move(old(Value()), M.Down)
      ensures guiActive == old(guiActive) && shell.Value() == M.Redrawn(old(shell.Value()), Value())
    {
      hide M.Draw, S.ShowPrompt, Console.Valid, S.WellFormed;
      if activeY + 1 < gridH {
        activeY := activeY + 1;
      }
      DrawInternal(true);
    }

    method GuiStart()
      requires Valid()
      modifies this, shell, shell.con.Repr()
      ensures Valid() && guiActive == true
      ensures Value() == (if old(guiActive) then old(Value()) else M.Move(old(Value()), M.GuiStart))
      ensures shell.Value() == (if old(guiActive) then old(shell.Value()) else M.Redrawn(old(shell.Value()), Value()))
    {
      hide M.Draw, S.ShowPrompt, Console.Valid, S.WellFormed;
      if guiActive {
        return;
      }
      guiActive := true;
      gridW, gridH := 2, 2;
      activeX, activeY := 0, 1;
      DrawInternal(true);
    }

    method GuiStop()
      requires Valid()
      modifies this, shell, shell.con.Repr()
      ensures Valid() && guiActive == false
      ensures Value() == (if old(!guiActive) then old(Value()) else M.Move(old(Value()), M.GuiStop))
      ensures shell.Value() == (if old(!guiActive) then old(shell.Value()) else M.Redrawn(old(shell.Value()), Value()))
    {
      hide M.Draw, S.ShowPrompt, Console.Valid, S.WellFormed;
      if !guiActive {
        return;
      }
      guiActive := false;
      gridW, gridH := 1, 1;
      activeX, activeY := 0, 0;
      DrawInternal(true);
    }

    /** pane_init */
    method Init()
      requires Valid()
      modifies this, shell, shell.con.Repr()
      ensures Valid() && Value() == M.Pane(1, 1, 0, 0)
      ensures shell.Value() == old(shell.Value()).(con := M.Draw(old(shell.con.model), Value()))
    {
      hide M.Draw, S.ShowPrompt, Console.Valid, S.WellFormed;
      gridW, gridH := 1, 1;
      activeX, activeY := 0, 0;
      DrawInternal(false);
    }
  }
}
