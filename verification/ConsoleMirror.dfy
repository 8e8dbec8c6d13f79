/** The incremental updates of the VGA mirror agree with a full re-render, over every run. */
module ConsoleMirror {
  import opened CTypes
  import opened ConsoleModel

  /** The operations other units perform on the console after console_init. */
  datatype Op =
    | Write(text: seq<Char>)
    | ClearScreen
    | Move(x: nat, y: nat)
    | DrawQuadrants
    | Scroll(up: bool)

  function Apply(c: Con, op: Op): Con {
    match op
    case Write(text) => PutAll(c, text)
    case ClearScreen => Clear(c)
    case Move(x, y) => SetCursor(c, x, y)
    case DrawQuadrants => PutAll(QuadrantLines(c), PROMPT)
    case Scroll(up) => ScrollKey(c, up)
  }

  function Run(c: Con, ops: seq<Op>): Con {
    if ops == [] then c else Apply(Run(c, ops[..|ops| - 1]), ops[|ops| - 1])
  }

  lemma {:induction false} PutAllConsistent(c: Con, s: seq<Char>)
    requires s == [] ==> Consistent(c)
    requires c.view == 0 ==> Mirrored(c)
    ensures Consistent(PutAll(c, s))
    ensures s != [] ==> PutAll(c, s).view == 0
  {
    if s != [] {
      var t := s[..|s| - 1];
      if t != [] {
        PutAllConsistent(c, t);
      }
      PutcConsistent(PutAll(c, t), s[|s| - 1]);
    }
  }

  lemma ClearConsistent(c: Con)
    ensures Consistent(Clear(c))
  {
    var r := Clear(c);
    assert Document(r)[0..][..25] == r.screen;
  }

  lemma MoveConsistent(c: Con, x: nat, y: nat)
    requires Consistent(c)
    ensures Consistent(SetCursor(c, x, y))
  {
    assert History(SetCursor(c, x, y)) == History(c);
  }

  /** Drawn while scrolled up, the quadrants leave the mirror behind until the prompt is written. */
  lemma QuadrantsConsistent(c: Con)
    requires Consistent(c)
    ensures Consistent(Apply(c, DrawQuadrants)) && Apply(c, DrawQuadrants).view == 0
  {
    var q := QuadrantLines(c);
    if c.view == 0 {
      assert c.vga == c.screen by { assert Document(c)[c.count..][..25] == c.screen; }
      assert Document(q)[q.count..][..25] == q.screen;
    }
    PutAllConsistent(q, PROMPT);
  }

  lemma WriteConsistent(c: Con, text: seq<Char>)
    requires Consistent(c)
    ensures Consistent(PutAll(c, text))
  {
    hide PutAll;
    assert c.view == 0 ==> Mirrored(c);
    PutAllConsistent(c, text);
  }

  lemma ScrollConsistent(c: Con, up: bool)
    requires Consistent(c)
    ensures Consistent(ScrollKey(c, up))
  {
    hide RenderView;
    RenderShowsWindow(if up then (if c.view < c.count then c.(view := c.view + 1) else c)
                      else if c.view > 0 then c.(view := c.view - 1) else c);
  }

  lemma ApplyConsistent(c: Con, op: Op)
    requires Consistent(c)
    ensures Consistent(Apply(c, op))
  {
    hide PutAll, RenderView, Consistent, Clear, SetCursor, ScrollKey, QuadrantLines;
    match op
    case Write(text) => WriteConsistent(c, text);
    case ClearScreen => ClearConsistent(c);
    case Move(x, y) => MoveConsistent(c, x, y);
    case DrawQuadrants => QuadrantsConsistent(c);
    case Scroll(up) => ScrollConsistent(c, up);
  }

  /** A full re-render of a consistent console changes nothing. */
  lemma RenderIsNoOp(c: Con)
    requires Consistent(c)
    ensures RenderView(c) == c
  {
    RenderShowsWindow(c);
    var r := RenderView(c);
    assert History(r) == History(c);
    assert r.vga == c.vga;
  }

  /** From console_init on, every operation ends with the mirror a re-render would produce. */
  lemma {:induction false} AlwaysConsistent(c: Con, ops: seq<Op>)
    ensures Consistent(Run(Clear(c), ops))
    ensures RenderView(Run(Clear(c), ops)) == Run(Clear(c), ops)
  {
    if ops == [] {
      ClearConsistent(c);
    } else {
      AlwaysConsistent(c, ops[..|ops| - 1]);
      ApplyConsistent(Run(Clear(c), ops[..|ops| - 1]), ops[|ops| - 1]);
    }
    RenderIsNoOp(Run(Clear(c), ops));
  }
}
