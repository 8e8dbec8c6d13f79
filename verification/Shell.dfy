/** shell.c: the edit buffer, the history ring and the key handling, proved against ShellModel. */
module ShellDevice {
  import opened CTypes
  import opened ConsoleDevice
  import C = ConsoleModel
  import M = ShellModel

  class Shell {
    const con: Console
    const cmdBuf: array<Char>      // cmd_buf[128]
    const history: array2<Char>    // history[8][128]
    var cmdLen: int
    var cmdPos: int
    var dispLen: int
    var promptX: int
    var promptY: int
    var historyCount: int
    var historyIndex: int
    var historyNav: int

    ghost var model: M.Shell

    ghost function Repr(): set<object> {
      {this, cmdBuf, history} + con.Repr()
    }

    /** The ring slot that holds the k-th most recent command. */
    static function Slot(index: int, k: int): (slot: int)
      ensures 0 <= slot < 8
    {
      (index - 1 - k) % 8
    }

    ghost predicate Holds(slot: int, t: seq<Char>)
      requires history.Length0 == 8 && history.Length1 == 128 && 0 <= slot < 8
      reads history
    {
      && |t| <= 127 && history[slot, |t|] == NUL
      && forall i :: 0 <= i < |t| ==> history[slot, i] == t[i] != NUL
    }

    ghost predicate Separate() {
      && cmdBuf.Length == 128 && history.Length0 == 8 && history.Length1 == 128
      && this !in con.Repr() && cmdBuf !in con.Repr() && history !in con.Repr()
    }

    ghost predicate BufferIs(text: seq<Char>)
      reads cmdBuf
    {
      |text| <= cmdBuf.Length && cmdBuf[..|text|] == text
    }

    ghost predicate RingIs(past: seq<seq<Char>>)
      requires Separate()
      reads this, history
    {
      && historyCount == |past| && 0 <= historyIndex < 8
      && forall j :: 0 <= j < |past| ==> Holds(Slot(historyIndex, |past| - 1 - j), past[j])
    }

    ghost predicate Valid()
      reads this, cmdBuf, history, con, con.screen, con.scrollback, con.vga
    {
      && Separate() && con.Valid() && M.WellFormed(model)
      && BufferIs(M.Buffer(model)) && RingIs(model.past)
      && cmdLen == |M.Buffer(model)| && cmdPos == |model.before|
      && dispLen == model.disp && historyNav == model.nav
      && promptX == model.px && promptY == model.py
    }

    ghost function Value(): M.State
      reads this, con
    {
      M.State(model, con.model)
    }

    constructor (con: Console)
      requires con.Valid()
      ensures Valid() && this.con == con && con.model == old(con.model) && fresh(Repr() - con.Repr())
      ensures model.past == [] && model.nav == -1
    {
      hide Console.Valid, Holds, Slot;
      this.con := con;
      cmdBuf := new Char[128](_ => NUL);
      history := new Char[8, 128]((_, _) => NUL);
      cmdLen, cmdPos, dispLen := 0, 0, 0;
      promptX, promptY := 0, 0;
      historyCount, historyIndex, historyNav := 0, 0, -1;
      model := M.Shell([], [], [], -1, 0, 0, 0);
    }

    method PutSpaces(n: nat)
      requires con.Valid()
      modifies con.Repr()
      ensures con.Valid() && con.model == C.PutAll(old(con.model), M.Spaces(n))
    {
      hide C.Putc;
      for i := 0 to n
        invariant con.Valid() && con.model == C.PutAll(old(con.model), M.Spaces(i))
      {
        con.Putc(SPACE);
        assert M.Spaces(i + 1)[..i] == M.Spaces(i);
      }
    }

    method PutBuffer(ghost text: seq<Char>)
      requires con.Valid() && BufferIs(text) && cmdLen == |text| && this !in con.Repr() && cmdBuf !in con.Repr()
      modifies con.Repr()
      ensures con.Valid() && con.model == C.PutAll(old(con.model), text)
    {
      hide C.Putc;
      for i := 0 to cmdLen
        invariant con.Valid() && con.model == C.PutAll(old(con.model), text[..i])
      {
        con.Putc(cmdBuf[i]);
        assert text[..i + 1][..i] == text[..i];
      }
      assert text[..|text|] == text;
    }

    method RedrawLine()
      requires Valid()
      modifies this, con.Repr()
      ensures Valid() && Value() == M.Redraw(old(Value()))
    {
      hide C.PutAll, C.SetCursor, Console.Valid, Holds, Slot;
      con.SetCursor(promptX, promptY);
      PutSpaces(dispLen);
      con.SetCursor(promptX, promptY);
      PutBuffer(M.Buffer(model));
      dispLen := cmdLen;
      model := model.(disp := cmdLen);
      con.SetCursor((promptX + cmdPos) % 256, promptY);
    }

    method ShowPrompt()
      requires Valid()
      modifies this, con.Repr()
      ensures Valid() && Value() == M.ShowPrompt(old(Value()))
    {
      hide C.PutAll, Holds, Slot, Console.Valid;
      cmdLen, cmdPos, dispLen := 0, 0, 0;
      con.Write(C.PROMPT + [NUL]);
      C.PromptText();
      con.CursorIs();
      promptX, promptY := con.cursorX, con.cursorY;
      model := model.(before := [], after := [], disp := 0, px := con.cursorX, py := con.cursorY);
    }

    /** history_add, called with the terminated contents of the edit buffer. */
    method HistoryAdd()
      requires Separate() && M.WellFormed(model) && RingIs(model.past) && BufferIs(M.Buffer(model))
      requires M.Buffer(model) != [] && cmdBuf[|M.Buffer(model)|] == NUL
      modifies history, `historyCount, `historyIndex
      ensures RingIs(M.Remember(model.past, M.Buffer(model)))
    {
      hide Slot;
      ghost var text := M.Buffer(model);
      CopyLine(text);
      ghost var past, next := model.past, M.Remember(model.past, text);
      ghost var index := historyIndex;
      historyIndex := (historyIndex + 1) % 8;
      if historyCount < 8 {
        historyCount := historyCount + 1;
      }
      forall j | 0 <= j < |next| ensures Holds(Slot(historyIndex, |next| - 1 - j), next[j]) {
        SlotMoves(index, |next| - 1 - j);
        if j < |next| - 1 {
          ghost var k := |next| - 2 - j;
          assert next[j] == past[|past| - 1 - k];
          SlotOther(index, k);
        }
      }
    }

    /** The copying loop of history_add. */
    method CopyLine(ghost text: seq<Char>)
      requires Separate() && 0 <= historyIndex < 8
      requires BufferIs(text) && |text| <= 127 && cmdBuf[|text|] == NUL && NUL !in text
      modifies history
      ensures Holds(historyIndex, text)
      ensures forall r, k :: 0 <= r < 8 && 0 <= k < 128 && r != historyIndex ==> history[r, k] == old(history[r, k])
    {
      var i := 0;
      while cmdBuf[i] != NUL && i < 127
        invariant 0 <= i <= |text|
        invariant forall k :: 0 <= k < i ==> history[historyIndex, k] == text[k]
        invariant forall r, k :: 0 <= r < 8 && 0 <= k < 128 && r != historyIndex ==> history[r, k] == old(history[r, k])
        decreases |text| - i
      {
        history[historyIndex, i] := cmdBuf[i];
        i := i + 1;
      }
      history[historyIndex, i] := NUL;
    }

    static lemma SlotMoves(index: int, k: int)
      requires 0 <= index < 8
      ensures Slot((index + 1) % 8, k) == (if k == 0 then index else Slot(index, k - 1))
    {
    }

    static lemma SlotOther(index: int, k: int)
      requires 0 <= index < 8 && 0 <= k < 7
      ensures Slot(index, k) != index
    {
    }

    /** history_get: the slot of the offset-th most recent command, -1 for the empty literal. */
    method HistoryGet(offset: int) returns (slot: int)
      requires Valid()
      ensures -1 <= slot < 8
      ensures slot >= 0 ==> Holds(slot, M.Recall(model.past, offset)) && M.Recall(model.past, offset) in model.past
      ensures slot == -1 ==> M.Recall(model.past, offset) == []
    {
      if offset < 0 || offset >= historyCount {
        return -1;
      }
      slot := historyIndex - 1 - offset;
      if slot < 0 {
        slot := slot + 8;
      }
      assert slot == Slot(historyIndex, offset);
    }

    /** The loop that copies a remembered command, or nothing, into the edit buffer. */
    method Load(slot: int, ghost text: seq<Char>)
      requires Separate() && -1 <= slot < 8
      requires if slot >= 0 then Holds(slot, text) else text == []
      modifies cmdBuf, `cmdLen, `cmdPos
      ensures BufferIs(text) && cmdLen == cmdPos == |text|
    {
      cmdLen := 0;
      while slot >= 0 && history[slot, cmdLen] != NUL && cmdLen < 127
        invariant 0 <= cmdLen <= |text|
        invariant forall k :: 0 <= k < cmdLen ==> cmdBuf[k] == text[k]
        decreases |text| - cmdLen
      {
        cmdBuf[cmdLen] := history[slot, cmdLen];
        cmdLen := cmdLen + 1;
      }
      cmdPos := cmdLen;
    }

    method Browse(nav: int)
      requires Valid() && -1 <= nav < |model.past|
      modifies this, cmdBuf, con.Repr()
      ensures Valid() && Value() == M.Redraw(old(Value()).(sh := M.Browse(old(model), nav)))
    {
      hide M.Redraw, Console.Valid, M.WellFormed, Holds, Slot, M.Recall;
      ghost var text := M.Recall(model.past, nav);
      M.BrowseWellFormed(model, nav);
      var slot := -1;
      if nav >= 0 {
        slot := HistoryGet(nav);
      }
      Load(slot, text);
      historyNav := nav;
      model := model.(nav := nav, before := text, after := []);
      assert M.Buffer(model) == text;
      RedrawLine();
    }

    /** The loop that closes the gap left by the character before the cursor. */
    method ShiftLeft(ghost text: seq<Char>)
      requires BufferIs(text) && cmdLen == |text| && 0 < cmdPos <= cmdLen
      modifies cmdBuf, `cmdLen, `cmdPos
      ensures BufferIs(text[..old(cmdPos) - 1] + text[old(cmdPos)..])
      ensures cmdLen == old(cmdLen) - 1 && cmdPos == old(cmdPos) - 1
    {
      ghost var p := cmdPos;
      var i := cmdPos - 1;
      while i < cmdLen - 1
        modifies cmdBuf
        invariant p - 1 <= i <= |text| - 1
        invariant forall k :: 0 <= k < p - 1 ==> cmdBuf[k] == text[k]
        invariant forall k :: p - 1 <= k < i ==> cmdBuf[k] == text[k + 1]
        invariant forall k :: i <= k < |text| ==> cmdBuf[k] == text[k]
      {
        cmdBuf[i] := cmdBuf[i + 1];
        i := i + 1;
      }
      cmdLen, cmdPos := cmdLen - 1, cmdPos - 1;
    }

    /** The loop that opens a gap at the cursor, and the character put into it. */
    method ShiftRight(c: Char, ghost text: seq<Char>)
      requires BufferIs(text) && cmdLen == |text| < cmdBuf.Length && 0 <= cmdPos <= cmdLen
      modifies cmdBuf, `cmdLen, `cmdPos
      ensures BufferIs(text[..old(cmdPos)] + [c] + text[old(cmdPos)..])
      ensures cmdLen == old(cmdLen) + 1 && cmdPos == old(cmdPos) + 1
    {
      ghost var p := cmdPos;
      OpenGap(text);
      cmdBuf[cmdPos] := c;
      assert cmdBuf[..|text| + 1] == text[..p] + [c] + text[p..];
      cmdPos := cmdPos + 1;
      cmdLen := cmdLen + 1;
    }

    method OpenGap(ghost text: seq<Char>)
      requires BufferIs(text) && cmdLen == |text| < cmdBuf.Length && 0 <= cmdPos <= cmdLen
      modifies cmdBuf
      ensures cmdBuf[..cmdPos] == text[..cmdPos] && cmdBuf[cmdPos + 1..|text| + 1] == text[cmdPos..]
    {
      var i := cmdLen;
      while i > cmdPos
        invariant cmdPos <= i <= |text|
        invariant forall k :: 0 <= k < i ==> cmdBuf[k] == text[k]
        invariant forall k :: i < k <= |text| ==> cmdBuf[k] == text[k - 1]
      {
        cmdBuf[i] := cmdBuf[i - 1];
        i := i - 1;
      }
    }

    method DeleteBack()
      requires Valid() && model.before != []
      modifies this, cmdBuf, con.Repr()
      ensures Valid() && Value() == M.Key(old(Value()), BACKSPACE)
    {
      hide M.Redraw, Console.Valid, Holds, Slot;
      ghost var text, p := M.Buffer(model), cmdPos;
      ShiftLeft(text);
      model := model.(before := model.before[..p - 1]);
      assert M.Buffer(model) == text[..p - 1] + text[p..];
      RedrawLine();
    }

    method Insert(c: Char)
      requires Valid() && |M.Buffer(model)| < 127 && c !in {NUL, NEWLINE, BACKSPACE}
      modifies this, cmdBuf, con.Repr()
      ensures Valid() && Value() == M.Redraw(old(Value()).(sh := old(model).(before := old(model).before + [c])))
    {
      hide M.Redraw, Console.Valid, Holds, Slot;
      ghost var text, p := M.Buffer(model), cmdPos;
      ShiftRight(c, text);
      model := model.(before := model.before + [c]);
      assert M.Buffer(model) == text[..p] + [c] + text[p..];
      RedrawLine();
    }

    method StepLeft()
      requires Valid() && model.before != []
      modifies this, con.Repr()
      ensures Valid() && Value() == M.Key(old(Value()), KEY_LEFT)
    {
      hide C.SetCursor, Console.Valid, Holds, Slot;
      cmdPos := cmdPos - 1;
      ghost var b, a := model.before, model.after;
      model := model.(before := b[..|b| - 1], after := [b[|b| - 1]] + a);
      assert M.Buffer(model) == b + a;
      con.SetCursor((promptX + cmdPos) % 256, promptY);
    }

    method StepRight()
      requires Valid() && model.after != []
      modifies this, con.Repr()
      ensures Valid() && Value() == M.Key(old(Value()), KEY_RIGHT)
    {
      hide C.SetCursor, Console.Valid, Holds, Slot;
      cmdPos := cmdPos + 1;
      ghost var b, a := model.before, model.after;
      model := model.(before := b + [a[0]], after := a[1..]);
      assert M.Buffer(model) == b + a;
      con.SetCursor((promptX + cmdPos) % 256, promptY);
    }

    /** The key handling of shell_task, for every character it fetches but newline. */
    method HandleKey(c: Char)
      requires Valid() && c != NEWLINE
      modifies this, cmdBuf, con.Repr()
      ensures Valid() && Value() == M.Key(old(Value()), c)
    {
      hide M.Redraw, C.SetCursor, M.Browse, Console.Valid, Holds, Slot;
      if c == NUL {
      } else if c == BACKSPACE {
        if cmdPos > 0 {
          DeleteBack();
        }
      } else if c == KEY_LEFT {
        if cmdPos > 0 {
          StepLeft();
        }
      } else if c == KEY_RIGHT {
        if cmdPos < cmdLen {
          StepRight();
        }
      } else if c == KEY_UP {
        if historyCount > 0 && historyNav < historyCount - 1 {
          Browse(historyNav + 1);
        }
      } else if c == KEY_DOWN {
        if historyNav >= 0 {
          Browse(historyNav - 1);
        }
      } else {
        M.NavBeforeRedraw(Value().(sh := model.(before := model.before + [c])), -1);
        if cmdLen < 127 {
          Insert(c);
        }
        historyNav := -1;
        model := model.(nav := -1);
      }
    }

    /** Enter, up to the call of console_execute_command, which is handed `cmd`. */
    method Enter() returns (cmd: seq<Char>)
      requires Valid()
      modifies this, cmdBuf, history, con.Repr()
      ensures Valid() && Value() == M.Enter(old(Value()))
      ensures cmd == M.Buffer(old(model)) + [NUL]
    {
      hide C.Putc, C.SetCursor, Console.Valid, Holds, Slot;
      cmdBuf[cmdLen] := NUL;
      cmd := cmdBuf[..cmdLen + 1];
      con.SetCursor((promptX + dispLen) % 256, promptY);
      con.Putc(NEWLINE);
      FileLine();
    }

    /** A line that is not empty goes to the history, and browsing starts afresh. */
    method FileLine()
      requires Valid() && cmdBuf[cmdLen] == NUL
      modifies `model, `historyCount, `historyIndex, `historyNav, history
      ensures Valid()
      ensures model == old(model).(past := M.Remember(old(model).past, M.Buffer(old(model))), nav := -1)
    {
      hide Console.Valid, Holds, Slot;
      ghost var past := M.Remember(model.past, M.Buffer(model));
      if cmdLen > 0 {
        HistoryAdd();
      }
      historyNav := -1;
      model := model.(past := past, nav := -1);
    }

    /** console_draw_quadrants: the lines, then a prompt. */
    method DrawQuadrants()
      requires Valid()
      modifies this, con.Repr()
      ensures Valid() && con.model == C.PutAll(C.QuadrantLines(old(con.model)), C.PROMPT)
    {
      hide C.PutAll, C.QuadrantLines;
      con.QuadrantLines();
      ShowPrompt();
    }
  }
}
