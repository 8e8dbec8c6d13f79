/** shell.c as a value: a zipper, the remembered commands and where the line is on the screen. */
module ShellModel {
  import opened CTypes
  import opened ConsoleModel
  import opened ConsoleText

  datatype Shell = Shell(
    before: seq<Char>,      // cmd_buf[..cmd_pos]
    after: seq<Char>,       // cmd_buf[cmd_pos..cmd_len]
    past: seq<seq<Char>>,   // the history, oldest first
    nav: int,               // history_nav
    disp: nat,              // disp_len
    px: Col,
    py: Line)

  datatype State = State(sh: Shell, con: Con)

  function Buffer(sh: Shell): seq<Char> {
    sh.before + sh.after
  }

  predicate WellFormed(sh: Shell) {
    && |sh.before| + |sh.after| <= 127 && Plain(sh.before) && Plain(sh.after)
    && |sh.past| <= 8 && (forall i :: 0 <= i < |sh.past| ==> 0 < |sh.past[i]| <= 127 && Plain(sh.past[i]))
    && -1 <= sh.nav && (sh.nav < |sh.past| || sh.nav == -1) && sh.disp <= 127
  }

  function Spaces(n: nat): (s: seq<Char>)
    ensures |s| == n
  {
    seq(n, _ => SPACE)
  }

  /** redraw_line */
  function Redraw(s: State): State {
    var text := Buffer(s.sh);
    var wiped := PutAll(SetCursor(s.con, s.sh.px, s.sh.py), Spaces(s.sh.disp));
    var typed := PutAll(SetCursor(wiped, s.sh.px, s.sh.py), text);
    State(s.sh.(disp := |text|), SetCursor(typed, s.sh.px + |s.sh.before|, s.sh.py))
  }

  function MoveCursor(s: State): State {
    s.(con := SetCursor(s.con, s.sh.px + |s.sh.before|, s.sh.py))
  }

  /** history_get: the offset-th most recent command, or the empty string. */
  function Recall(past: seq<seq<Char>>, offset: int): seq<Char> {
    if 0 <= offset < |past| then past[|past| - 1 - offset] else []
  }

  function Remember(past: seq<seq<Char>>, text: seq<Char>): seq<seq<Char>> {
    if text == [] then past
    else if |past| < 8 then past + [text]
    else past[1..] + [text]
  }

  /** How a key leaves the screen: as it was, with the line redrawn, or with only the cursor moved. */
  datatype Paint = Keep | Repaint | MoveOnly

  function Browse(sh: Shell, nav: int): Shell {
    sh.(nav := nav, before := Recall(sh.past, nav), after := [])
  }

  /** What a character does to the line; newline is handled by Enter. */
  function Edit(sh: Shell, c: Char): (Shell, Paint) {
    if c == NUL || c == NEWLINE then (sh, Keep)
    else if c == BACKSPACE then
      if sh.before == [] then (sh, Keep) else (sh.(before := sh.before[..|sh.before| - 1]), Repaint)
    else if c == KEY_LEFT then
      if sh.before == [] then (sh, Keep)
      else
        var k := |sh.before| - 1;
        (sh.(before := sh.before[..k], after := [sh.before[k]] + sh.after), MoveOnly)
    else if c == KEY_RIGHT then
      if sh.after == [] then (sh, Keep)
      else (sh.(before := sh.before + [sh.after[0]], after := sh.after[1..]), MoveOnly)
    else if c == KEY_UP then
      if sh.nav < |sh.past| - 1 then (Browse(sh, sh.nav + 1), Repaint) else (sh, Keep)
    else if c == KEY_DOWN then
      if sh.nav >= 0 then (Browse(sh, sh.nav - 1), Repaint) else (sh, Keep)
    else if |sh.before| + |sh.after| < 127 then (sh.(before := sh.before + [c], nav := -1), Repaint)
    else (sh.(nav := -1), Keep)
  }

  function Painted(s: State, p: Paint): State {
    match p
    case Keep => s
    case Repaint => Redraw(s)
    case MoveOnly => MoveCursor(s)
  }

  /** The body of shell_task for any character but newline. */
  function Key(s: State, c: Char): State {
    var (sh, p) := Edit(s.sh, c);
    Painted(s.(sh := sh), p)
  }

  /** The line after a key, which does not depend on the console. */
  function LineKey(sh: Shell, c: Char): Shell {
    var (t, p) := Edit(sh, c);
    if p == Repaint then t.(disp := |Buffer(t)|) else t
  }

  lemma KeyShell(s: State, c: Char)
    ensures Key(s, c).sh == LineKey(s.sh, c)
  {
    hide PutAll, SetCursor, Edit;
  }

  /** A key changes text, position and history position only; unless it redraws, the text stays. */
  lemma EditIs(sh: Shell, c: Char)
    requires WellFormed(sh)
    ensures var (t, p) := Edit(sh, c);
      && WellFormed(t) && t.px == sh.px && t.py == sh.py && t.disp == sh.disp && t.past == sh.past
      && (p != Repaint ==> Buffer(t) == Buffer(sh)) && (p == Keep ==> t.before == sh.before)
  {
  }

  // ---------------------------------------------------------------- what a key does to the line

  /** Characters that are typed into the line. */
  predicate Typeable(c: Char) {
    c !in {NUL, NEWLINE, BACKSPACE, KEY_LEFT, KEY_RIGHT, KEY_UP, KEY_DOWN}
  }

  /** Typing puts the character, and no other, at the cursor and steps behind it; a line of 127 characters stays. */
  lemma TypedIs(sh: Shell, c: Char)
    requires WellFormed(sh) && Typeable(c)
    ensures var t, b, p := Edit(sh, c).0, Buffer(sh), |sh.before|;
      && t.nav == -1
      && if |b| < 127 then Buffer(t) == b[..p] + [c] + b[p..] && |t.before| == p + 1 else Buffer(t) == b && |t.before| == p
  {
  }

  /** Backspace removes the character before the cursor, or nothing at the start of the line. */
  lemma ErasedIs(sh: Shell)
    requires WellFormed(sh)
    ensures var t, b, p := Edit(sh, BACKSPACE).0, Buffer(sh), |sh.before|;
      && t.nav == sh.nav
      && if p > 0 then Buffer(t) == b[..p - 1] + b[p..] && |t.before| == p - 1 else t == sh
  {
  }

  /** The arrows keep the text and move the cursor by one within it. */
  lemma MovedIs(sh: Shell)
    requires WellFormed(sh)
    ensures var l, r := Edit(sh, KEY_LEFT).0, Edit(sh, KEY_RIGHT).0;
      && Buffer(l) == Buffer(r) == Buffer(sh) && l.nav == r.nav == sh.nav
      && |l.before| == Max(|sh.before| - 1, 0) && |r.before| == Min(|sh.before| + 1, |Buffer(sh)|)
  {
  }

  /** Backspace undoes typing, and right undoes left. */
  lemma KeysUndo(sh: Shell, c: Char)
    requires WellFormed(sh)
    ensures Typeable(c) && |Buffer(sh)| < 127 ==> Edit(Edit(sh, c).0, BACKSPACE).0 == sh.(nav := -1)
    ensures sh.before != [] ==> Edit(Edit(sh, KEY_LEFT).0, KEY_RIGHT).0 == sh
  {
    if sh.before != [] {
      var l := Edit(sh, KEY_LEFT).0;
      assert l.before + [l.after[0]] == sh.before && l.after[1..] == sh.after;
    }
    if Typeable(c) && |Buffer(sh)| < 127 {
      assert (sh.before + [c])[..|sh.before|] == sh.before;
    }
  }

  function LineKeys(sh: Shell, cs: seq<Char>): Shell {
    if cs == [] then sh else LineKey(LineKeys(sh, cs[..|cs| - 1]), cs[|cs| - 1])
  }

  /** Whatever text is typed stands at the cursor as it was typed, up to 127 characters in all. */
  lemma {:induction false} TextIsKept(sh: Shell, text: seq<Char>)
    requires WellFormed(sh) && forall i :: 0 <= i < |text| ==> Typeable(text[i])
    ensures var t := LineKeys(sh, text); var n := Min(|text|, 127 - |Buffer(sh)|);
      && WellFormed(t) && t.before == sh.before + text[..n] && t.after == sh.after && t.past == sh.past
  {
    if text != [] {
      var k := |text| - 1;
      var b, c := text[..k], text[k];
      TextIsKept(sh, b);
      var t := LineKeys(sh, b);
      EditIs(t, c);
      var n := Min(|b|, 127 - |Buffer(sh)|);
      assert b[..n] == text[..n];
      assert n == k ==> text[..n] + [c] == text[..n + 1];
    }
  }

  /** At a fresh prompt the line is exactly what is typed, and Enter remembers it as the most recent command. */
  lemma LineIsTyped(s: State, text: seq<Char>)
    requires WellFormed(s.sh) && |text| <= 127 && forall i :: 0 <= i < |text| ==> Typeable(text[i])
    ensures var t := LineKeys(ShowPrompt(s).sh, text);
      Buffer(t) == text && (text != [] ==> Recall(Enter(State(t, s.con)).sh.past, 0) == text)
  {
    hide LineKey, Enter, ShowPrompt, WellFormed, Remember, Recall;
    var p := ShowPrompt(s).sh;
    PromptStarts(s);
    TextIsKept(p, text);
    assert text[..|text|] == text;
    EnterRemembers(State(LineKeys(p, text), s.con));
    if text != [] {
      NewestIsRecalled(s.sh.past, text);
    }
  }

  lemma NewestIsRecalled(past: seq<seq<Char>>, text: seq<Char>)
    requires text != []
    ensures Recall(Remember(past, text), 0) == text
  {
  }

  // ---------------------------------------------------------------- Enter and the prompt

  /** Enter, up to the call of console_execute_command. */
  function Enter(s: State): State {
    State(s.sh.(past := Remember(s.sh.past, Buffer(s.sh)), nav := -1),
          Putc(SetCursor(s.con, s.sh.px + s.sh.disp, s.sh.py), NEWLINE))
  }

  function ShowPrompt(s: State): State {
    var con := PutAll(s.con, PROMPT);
    State(s.sh.(before := [], after := [], disp := 0, px := con.cx, py := con.cy), con)
  }

  lemma PromptStarts(s: State)
    ensures var p := ShowPrompt(s).sh; p.before == p.after == [] && p.past == s.sh.past && p.nav == s.sh.nav
    ensures WellFormed(s.sh) ==> WellFormed(ShowPrompt(s).sh)
  {
    hide PutAll;
  }

  lemma EnterRemembers(s: State)
    ensures Enter(s).sh.past == Remember(s.sh.past, Buffer(s.sh)) && Enter(s).sh.nav == -1
  {
    hide SetCursor, Putc;
  }

  /** Enter leaves the line on screen and the cursor at the start of the row below the prompt, scrolling by one at the bottom. */
  lemma EnterMovesOn(s: State)
    ensures var e := Enter(s).con;
      && e.cx == 0 && e.cy == Min(s.sh.py + 1, 24) && e.view == 0
      && if s.sh.py < 24 then e.screen == s.con.screen && History(e) == History(s.con)
         else e.screen == s.con.screen[1..] + [BlankRow()]
              && History(e) == (if s.con.count < 100 then History(s.con) else History(s.con)[1..]) + [s.con.screen[0]]
  {
    hide RenderedRow;
    PushAppends(s.con, s.con.screen[0]);
    var e, p := Enter(s).con, PushRow(s.con, s.con.screen[0]);
    assert s.sh.py == 24 ==> History(e) == History(p);
    assert s.sh.py < 24 ==> History(e) == History(s.con);
  }

  lemma KeyWellFormed(s: State, c: Char)
    requires WellFormed(s.sh)
    ensures WellFormed(Key(s, c).sh)
  {
    hide Edit;
    EditIs(s.sh, c);
    KeyShell(s, c);
  }

  lemma BrowseWellFormed(sh: Shell, nav: int)
    requires WellFormed(sh) && -1 <= nav < |sh.past|
    ensures WellFormed(Browse(sh, nav))
    ensures nav == -1 ==> Recall(sh.past, nav) == []
    ensures 0 <= |Recall(sh.past, nav)| <= 127
  {
  }

  /** Redrawing does not look at the history position. */
  lemma NavBeforeRedraw(s: State, nav: int)
    ensures Redraw(s.(sh := s.sh.(nav := nav))) == Redraw(s).(sh := Redraw(s).sh.(nav := nav))
  {
    hide PutAll, SetCursor;
  }

  /** The keys that redraw the line: those that change the text. */
  predicate Repaints(sh: Shell, c: Char) {
    if c == BACKSPACE then sh.before != []
    else if c == KEY_UP then sh.nav + 1 < |sh.past|
    else if c == KEY_DOWN then sh.nav >= 0
    else Typeable(c) && |Buffer(sh)| < 127
  }

  /** What a key sends to the serial port: a redraw its spaces and the line, any other key nothing. */
  lemma KeySerial(s: State, c: Char)
    requires WellFormed(s.sh)
    ensures Key(s, c).con.serial ==
      s.con.serial + if Repaints(s.sh, c) then Spaces(s.sh.disp) + Buffer(Key(s, c).sh) else []
  {
    hide Edit, Repaints, Redraw;
    EditIs(s.sh, c);
    EditRepaints(s.sh, c);
    RedrawSerial(s.(sh := Edit(s.sh, c).0));
  }

  lemma EditRepaints(sh: Shell, c: Char)
    requires WellFormed(sh)
    ensures Edit(sh, c).1 == Repaint <==> Repaints(sh, c)
  {
  }

  lemma RedrawSerial(s: State)
    ensures Redraw(s).con.serial == s.con.serial + (Spaces(s.sh.disp) + Buffer(s.sh))
    ensures Buffer(Redraw(s).sh) == Buffer(s.sh)
  {
    hide PutAll;
    var a := SetCursor(s.con, s.sh.px, s.sh.py);
    PutAllSerial(a, Spaces(s.sh.disp));
    PutAllSerial(SetCursor(PutAll(a, Spaces(s.sh.disp)), s.sh.px, s.sh.py), Buffer(s.sh));
  }

  // ---------------------------------------------------------------- every session

  /** A key, or Enter followed by some command's output and a fresh prompt. */
  datatype Act = Press(c: Char) | Submit(output: Con)

  function Session(s: State, acts: seq<Act>): State {
    if acts == [] then s
    else
      var t := Session(s, acts[..|acts| - 1]);
      match acts[|acts| - 1]
      case Press(c) => Key(t, c)
      case Submit(output) => ShowPrompt(Enter(t).(con := output))
  }

  /** Over any keys and commands the line stays within 127 plain characters and the history within eight of them. */
  lemma {:induction false} SessionWellFormed(s: State, acts: seq<Act>)
    requires WellFormed(s.sh)
    ensures WellFormed(Session(s, acts).sh)
  {
    hide Key, Enter, ShowPrompt;
    if acts != [] {
      var t := Session(s, acts[..|acts| - 1]);
      SessionWellFormed(s, acts[..|acts| - 1]);
      match acts[|acts| - 1]
      case Press(c) => KeyWellFormed(t, c);
      case Submit(output) => EnterWellFormed(t, output);
    }
  }

  lemma EnterWellFormed(s: State, output: Con)
    requires WellFormed(s.sh)
    ensures WellFormed(Enter(s).sh) && WellFormed(ShowPrompt(Enter(s).(con := output)).sh)
  {
    hide PutAll, SetCursor, Putc;
  }

  // ---------------------------------------------------------------- history

  function NonEmpty(cmds: seq<seq<Char>>): seq<seq<Char>> {
    if cmds == [] then []
    else NonEmpty(cmds[..|cmds| - 1]) + (if cmds[|cmds| - 1] == [] then [] else [cmds[|cmds| - 1]])
  }

  function LastEight<T>(s: seq<T>): seq<T> {
    if |s| <= 8 then s else s[|s| - 8..]
  }

  /** The lines submitted in a session. */
  function Submitted(s: State, acts: seq<Act>): seq<seq<Char>> {
    if acts == [] then []
    else
      var b := acts[..|acts| - 1];
      Submitted(s, b) + (if acts[|acts| - 1].Submit? then [Buffer(Session(s, b).sh)] else [])
  }

  /** After any session exactly the last eight non-empty lines are remembered, in order, with those from before it. */
  lemma {:induction false} HistoryIsLastEight(s: State, acts: seq<Act>)
    requires WellFormed(s.sh)
    ensures Session(s, acts).sh.past == LastEight(s.sh.past + NonEmpty(Submitted(s, acts)))
  {
    hide Key, LineKey, Enter, ShowPrompt, WellFormed, Remember, LastEight, NonEmpty;
    if acts == [] {
      FewRemembered(s.sh);
    } else {
      var b := acts[..|acts| - 1];
      HistoryIsLastEight(s, b);
      SessionWellFormed(s, b);
      var t := Session(s, b);
      match acts[|acts| - 1]
      case Press(c) =>
        KeyKeepsPast(t, c);
        assert Submitted(s, acts) == Submitted(s, b);
      case Submit(output) =>
        var lines, line := Submitted(s, b), Buffer(t.sh);
        RememberOne(s.sh.past + NonEmpty(lines), line);
        EnterRemembers(t);
        PromptStarts(Enter(t).(con := output));
        NonEmptyStep(lines, line);
        assert Submitted(s, acts) == lines + [line];
        if line == [] {
          assert NonEmpty(lines + [line]) == NonEmpty(lines);
        } else {
          assert s.sh.past + NonEmpty(lines + [line]) == s.sh.past + NonEmpty(lines) + [line];
        }
    }
  }

  lemma KeyKeepsPast(s: State, c: Char)
    requires WellFormed(s.sh)
    ensures Key(s, c).sh.past == s.sh.past
  {
    hide Edit, Key;
    EditIs(s.sh, c);
    KeyShell(s, c);
  }

  lemma NonEmptyStep(lines: seq<seq<Char>>, line: seq<Char>)
    ensures NonEmpty(lines + [line]) == NonEmpty(lines) + (if line == [] then [] else [line])
  {
    assert (lines + [line])[..|lines|] == lines;
  }

  lemma FewRemembered(sh: Shell)
    requires WellFormed(sh)
    ensures LastEight(sh.past + NonEmpty([])) == sh.past
  {
  }

  lemma RememberOne(lines: seq<seq<Char>>, line: seq<Char>)
    ensures Remember(LastEight(lines), line) == if line == [] then LastEight(lines) else LastEight(lines + [line])
  {
  }

  function Ups(s: State, k: nat): State {
    if k == 0 then s else Key(Ups(s, k - 1), KEY_UP)
  }

  function Downs(s: State, k: nat): State {
    if k == 0 then s else Key(Downs(s, k - 1), KEY_DOWN)
  }

  /** k Ups show the k-th most recent command; more Ups than commands stay at the oldest. */
  lemma {:induction false} UpsRecall(s: State, k: nat)
    requires WellFormed(s.sh) && s.sh.nav == -1
    ensures var u := Ups(s, k).sh; var n := Min(k, |s.sh.past|);
      && u.past == s.sh.past && u.nav == n - 1
      && (n > 0 ==> Buffer(u) == s.sh.past[|s.sh.past| - n] && u.after == [])
      && (n == 0 ==> u == s.sh)
  {
    hide Key;
    if k > 0 {
      UpsRecall(s, k - 1);
      KeyShell(Ups(s, k - 1), KEY_UP);
    }
  }

  /** Downs retrace the Ups; below the newest command the line is empty, and stays so. */
  lemma {:induction false} DownsRetrace(s: State, k: nat, j: nat)
    requires WellFormed(s.sh) && s.sh.nav == -1 && 0 < k <= |s.sh.past|
    ensures var d := Downs(Ups(s, k), j).sh;
      && d.past == s.sh.past && d.nav == Max(k - j, 0) - 1 && d.after == []
      && Buffer(d) == Recall(s.sh.past, d.nav)
  {
    hide Key;
    if j == 0 {
      UpsRecall(s, k);
    } else {
      DownsRetrace(s, k, j - 1);
      KeyShell(Downs(Ups(s, k), j - 1), KEY_DOWN);
    }
  }
}
