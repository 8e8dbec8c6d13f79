/** keyboard.c and the input half of console.c, proved against KeyboardModel. */
module InputDevice {
  import opened CTypes
  import opened ConsoleDevice
  import opened ShellDevice
  import opened PaneDevice
  import C = ConsoleModel
  import K = KeyboardModel
  import P = PaneModel
  import S = ShellModel

  function PaneCommand(e: K.Effect): Option<P.Command> {
    match e
    case PaneLeft => Some(P.Left)
    case PaneRight => Some(P.Right)
    case PaneUp => Some(P.Up)
    case PaneDown => Some(P.Down)
    case PaneWidth(d) => Some(P.Width(d))
    case PaneHeight(d) => Some(P.Height(d))
    case _ => None
  }

  /** What a poll does to the screen: nothing, a scroll of the view, or a pane command. */
  ghost predicate Done(e: K.Effect, s: S.State, p: P.Pane, s2: S.State, p2: P.Pane) {
    match e
    case Nothing => s2 == s && p2 == p
    case ScrollView(up) => s2 == s.(con := C.ScrollKey(s.con, up)) && p2 == p
    case _ => PaneCommand(e).Some? && p2 == P.Move(p, PaneCommand(e).value) && P.Reachable(p2) && s2 == P.Redrawn(s, p2)
  }

  /** Keys to grid: right Alt goes left and FN right, with Ctrl up and down; F1 to F4 narrow, widen, lower and heighten. */
  lemma PaneKeys(i: K.Input, c: Char, view: nat, p: P.Pane)
    requires P.Reachable(p)
    ensures var e := K.Accept(i, c, view).1;
      PaneCommand(e).Some? ==>
        var q := P.Move(p, PaneCommand(e).value);
        && (c == KEY_ALT_R ==> q == if i.ctrl then p.(ay := Max(p.ay - 1, 0)) else p.(ax := Max(p.ax - 1, 0)))
        && (c == KEY_FN ==> q == if i.ctrl then p.(ay := Min(p.ay + 1, p.h - 1)) else p.(ax := Min(p.ax + 1, p.w - 1)))
        && (c == KEY_F1 ==> q.w == Max(p.w - 1, 1)) && (c == KEY_F2 ==> q.w == Min(p.w + 1, 4))
        && (c == KEY_F3 ==> q.h == Max(p.h - 1, 1)) && (c == KEY_F4 ==> q.h == Min(p.h + 1, 4))
    ensures PaneCommand(K.Accept(i, c, view).1).Some? <==> c in {KEY_ALT_R, KEY_FN, KEY_F1, KEY_F2, KEY_F3, KEY_F4}
  {
    K.EffectIs(i, c, view);
  }

  class ConsoleInput {
    const panes: PaneManager
    const ring: array<Char>   // input_buf[128]
    var head: int
    var tail: int
    var ctrl: bool
    var haveE0: bool

    ghost var model: K.Input

    /** The ring holds the queue from tail on, and one slot always stays free. */
    ghost predicate RingIs(q: seq<Char>)
      reads `head, `tail, ring
    {
      && ring.Length == 128 && 0 <= head < 128 && 0 <= tail < 128 && |q| <= 127
      && head == Place(tail, |q|)
      && forall i :: 0 <= i < |q| ==> ring[Place(tail, i)] == q[i]
    }

    /** The slot i places behind the tail. */
    static function Place(tail: int, i: nat): (p: int)
      ensures 0 <= p < 128
    {
      (tail + i) % 128
    }

    ghost predicate Valid()
      reads this, ring, panes, panes.shell, panes.shell.cmdBuf, panes.shell.history, panes.shell.con,
            panes.shell.con.screen, panes.shell.con.scrollback, panes.shell.con.vga
    {
      && panes.Valid() && this !in panes.Repr() && ring !in panes.Repr()
      && RingIs(model.queue) && ctrl == model.ctrl && haveE0 == model.haveE0
    }

    constructor (panes: PaneManager)
      requires panes.Valid()
      ensures Valid() && this.panes == panes && model == K.START
    {
      this.panes := panes;
      ring := new Char[128](_ => NUL);
      head, tail, ctrl, haveE0 := 0, 0, false, false;
      model := K.START;
    }

    /** keyboard_read_char; `port` is the byte waiting at port 0x60, if any. */
    method ReadChar(port: Option<Byte>) returns (c: Char)
      modifies `haveE0
      ensures port.None? ==> c == NUL && haveE0 == old(haveE0)
      ensures port.Some? ==> (haveE0, c) == K.Decode(old(haveE0), port.value)
    {
      if port.None? {
        return NUL;
      }
      var sc := port.value;
      if sc == 0xE0 {
        haveE0 := true;
        return NUL;
      }
      if haveE0 {
        haveE0 := false;
        return K.Extended(sc);
      }
      c := K.Unprefixed(sc);
    }

    method Enqueue(c: Char)
      requires RingIs(model.queue)
      modifies ring, `head, `model
      ensures model == old(model).(queue := K.Offer(old(model).queue, c)) && RingIs(model.queue)
    {
      hide Place;
      ghost var q := model.queue;
      PlaceNext(tail, |q|);
      PlaceIsTailIff(tail, |q| + 1);
      var nextHead := (head + 1) % 128;
      if nextHead != tail {
        ring[head] := c;
        head := nextHead;
        model := model.(queue := q + [c]);
        forall i | 0 <= i < |q| ensures ring[Place(tail, i)] == q[i] {
          PlacesDistinct(tail, i, |q|);
        }
      }
    }

    static lemma PlaceNext(tail: int, i: nat)
      requires 0 <= tail < 128
      ensures (Place(tail, i) + 1) % 128 == Place(tail, i + 1) == Place((tail + 1) % 128, i)
      ensures Place(tail, 0) == tail
    {
      var q, r := (tail + i + 1) / 128, (tail + i + 1) % 128;
      IndexIs(Place(tail, i) + 1, q - (tail + i) / 128, r);
      IndexIs((tail + 1) % 128 + i, q - (tail + 1) / 128, r);
    }

    static lemma IndexIs(x: int, q: int, r: int)
      requires x == q * 128 + r && 0 <= r < 128
      ensures x % 128 == r
    {
    }

    static lemma PlaceIsTailIff(tail: int, n: nat)
      requires 0 <= tail < 128 && n <= 128
      ensures Place(tail, n) == tail <==> n == 0 || n == 128
    {
    }

    static lemma PlacesDistinct(tail: int, i: nat, j: nat)
      requires 0 <= tail < 128 && i < j < 128
      ensures Place(tail, i) != Place(tail, j)
    {
    }

    method Dequeue() returns (c: Char)
      requires RingIs(model.queue)
      modifies `tail, `model
      ensures RingIs(model.queue) && (model, c) == K.Getc(old(model))
    {
      hide Place;
      ghost var q, t := model.queue, tail;
      PlaceIsTailIff(t, |q|);
      PlaceNext(t, 0);
      if head == tail {
        return NUL;
      }
      c := ring[tail];
      tail := (tail + 1) % 128;
      model := model.(queue := q[1..], taken := model.taken + [q[0]]);
      PlaceNext(t, |q| - 1);
      forall i | 0 <= i < |q| - 1 ensures ring[Place(tail, i)] == q[1..][i] {
        PlaceNext(t, i);
      }
    }

    /** console_getc */
    method Getc() returns (c: Char)
      requires Valid()
      modifies this
      ensures Valid() && (model, c) == K.Getc(old(model))
      ensures model == K.Step(old(model), K.Read)
    {
      hide PaneManager.Valid, RingIs;
      c := Dequeue();
    }

    /** Ctrl and an arrow, or an arrow while scrolled up. */
    method Scroll(up: bool)
      requires panes.Valid()
      modifies panes.shell.con.Repr()
      ensures panes.Valid()
      ensures Done(K.ScrollView(up), old(panes.shell.Value()), old(panes.Value()), panes.shell.Value(), panes.Value())
    {
      hide C.ScrollKey, Console.Valid, P.Redrawn;
      panes.shell.con.ScrollKey(up);
    }

    /** The two keys that move between panes, sideways or, after Ctrl, up and down. */
    method MovePane(back: bool, vertical: bool) returns (ghost e: K.Effect)
      requires panes.Valid()
      modifies panes, panes.shell, panes.shell.con.Repr()
      ensures panes.Valid()
      ensures e == if back then (if vertical then K.PaneUp else K.PaneLeft) else if vertical then K.PaneDown else K.PaneRight
      ensures Done(e, old(panes.shell.Value()), old(panes.Value()), panes.shell.Value(), panes.Value())
    {
      hide P.Redrawn, Console.Valid, Shell.Valid, C.ScrollKey;
      if back && vertical {
        e := K.PaneUp;
        panes.MoveUp();
      } else if back {
        e := K.PaneLeft;
        panes.MoveLeft();
      } else if vertical {
        e := K.PaneDown;
        panes.MoveDown();
      } else {
        e := K.PaneRight;
        panes.MoveRight();
      }
    }

    method ResizePane(width: bool, delta: int) returns (ghost e: K.Effect)
      requires panes.Valid()
      modifies panes, panes.shell, panes.shell.con.Repr()
      ensures panes.Valid()
      ensures e == if width then K.PaneWidth(delta) else K.PaneHeight(delta)
      ensures Done(e, old(panes.shell.Value()), old(panes.Value()), panes.shell.Value(), panes.Value())
    {
      hide P.Redrawn, Console.Valid, Shell.Valid, C.ScrollKey;
      if width {
        e := K.PaneWidth(delta);
        panes.ResizeWidth(delta);
      } else {
        e := K.PaneHeight(delta);
        panes.ResizeHeight(delta);
      }
    }

    /** console_poll_input behind keyboard_read_char. */
    method Dispatch(c: Char) returns (ghost e: K.Effect)
      requires Valid()
      modifies this, ring, panes, panes.shell, panes.shell.con.Repr()
      ensures Valid() && (model, e) == K.Accept(old(model), c, old(panes.shell.con.model.view))
      ensures Done(e, old(panes.shell.Value()), old(panes.Value()), panes.shell.Value(), panes.Value())
    {
      hide PaneManager.Valid, Shell.Valid, Console.Valid, P.Redrawn, C.ScrollKey, P.Move, RingIs;
      e := K.Nothing;
      if c == NUL {
        return;
      }
      if c == KEY_CTRL {
        ctrl := true;
        model := model.(ctrl := true);
        return;
      }
      var scrolled := IsScrolled();
      if (c == KEY_UP || c == KEY_DOWN) && (ctrl || scrolled) {
        Scroll(c == KEY_UP);
        e := K.ScrollView(c == KEY_UP);
        ctrl := false;
        model := model.(ctrl := false);
        return;
      }
      if c == KEY_ALT_R || c == KEY_FN {
        e := MovePane(c == KEY_ALT_R, ctrl);
        ctrl := false;
        model := model.(ctrl := false);
        return;
      }
      if c == KEY_F1 || c == KEY_F2 || c == KEY_F3 || c == KEY_F4 {
        e := ResizePane(c == KEY_F1 || c == KEY_F2, if c == KEY_F1 || c == KEY_F3 then -1 else 1);
        return;
      }
      Enqueue(if c == BACKSPACE || c == DELETE then BACKSPACE else c);
    }

    method IsScrolled() returns (b: bool)
      requires panes.Valid()
      ensures b <==> panes.shell.con.model.view > 0
    {
      b := panes.shell.con.sbView != 0;
    }

    /** console_poll_input, with the byte waiting at the keyboard port. */
    method Poll(port: Option<Byte>) returns (ghost e: K.Effect)
      requires Valid()
      modifies this, ring, panes, panes.shell, panes.shell.con.Repr()
      ensures Valid() && (model, e) == K.Poll(old(model), port, old(panes.shell.con.model.view))
      ensures Done(e, old(panes.shell.Value()), old(panes.Value()), panes.shell.Value(), panes.Value())
    {
      hide PaneManager.Valid, K.Extended, K.Unprefixed, K.Accept, Done, RingIs;
      var c := ReadChar(port);
      model := model.(haveE0 := haveE0);
      K.AcceptNothing(model, panes.shell.con.model.view);
      e := Dispatch(c);
    }

    /** The read in the loop of gui_task: what is decoded never reaches the queue or the latch. */
    method GuiRead(port: Option<Byte>) returns (c: Char)
      requires Valid()
      modifies `haveE0, `model
      ensures Valid() && model == K.Step(old(model), K.GuiRead(port))
      ensures c == if port.None? then NUL else K.Decode(old(model).haveE0, port.value).1
    {
      hide PaneManager.Valid, K.Extended, K.Unprefixed, K.Accept, RingIs;
      c := ReadChar(port);
      model := model.(haveE0 := haveE0);
    }
  }
}
