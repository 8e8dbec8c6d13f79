/** The screen row of the shell stays equal to the edit buffer, exactly while the line fits. */
module ShellDisplay {
  import opened CTypes
  import opened ConsoleModel
  import opened ConsoleText
  import opened ShellModel

  // ---------------------------------------------------------------- redraw_line

  function Origin(sh: Shell): nat {
    80 * sh.py + sh.px
  }

  /** From the prompt on the new text, then blanks where the old line was longer; every other cell as before. */
  ghost predicate LineDrawn(g: Grid, h: Grid, o: nat, prior: nat, text: seq<Char>) {
    forall y, x :: 0 <= y < 25 && 0 <= x < 80 ==>
      h[y][x] == var k := 80 * y + x;
        if o <= k < o + |text| then CellOf(text[k - o])
        else if o <= k < o + prior then BLANK
        else g[y][x]
  }

  ghost predicate NotScrolled(c: Con, d: Con) {
    c.ring == d.ring && c.start == d.start && c.count == d.count
  }

  /** What the user expects of a redraw from a line of disp characters to the buffer's. */
  ghost predicate Faithful(prior: State, next: State) {
    && NotScrolled(prior.con, next.con)
    && LineDrawn(prior.con.screen, next.con.screen, Origin(next.sh), prior.sh.disp, Buffer(next.sh))
    && next.sh.disp == |Buffer(next.sh)|
    && Flat(next.con) == Origin(next.sh) + |next.sh.before|
  }

  /** The condition a caller can check: no cell past the screen, and the cursor column on the row. */
  predicate Fits(sh: Shell, prior: nat) {
    Origin(sh) + Max(prior, |Buffer(sh)|) < 2000 && sh.px + |sh.before| < 80
  }

  lemma SpacesAreBlank(g: Grid, h: Grid, i: Grid, o: nat, n: nat, text: seq<Char>)
    requires Overlaid(g, h, o, Spaces(n)) && Overlaid(h, i, o, text)
    ensures LineDrawn(g, i, o, n, text)
  {
    forall y, x | 0 <= y < 25 && 0 <= x < 80
      ensures i[y][x] == var k := 80 * y + x;
        if o <= k < o + |text| then CellOf(text[k - o]) else if o <= k < o + n then BLANK else g[y][x]
    {
      assert h[y][x] == if o <= 80 * y + x < o + n then CellOf(Spaces(n)[80 * y + x - o]) else g[y][x];
    }
  }

  lemma ScrollIsVisible(c: Con, d: Con, k: nat)
    requires Scrolled(c, d, k) && 0 < k < 100
    ensures !NotScrolled(c, d)
  {
    if c.count == 100 {
      SlotDistinct(c.start, 0, k);
    }
  }

  lemma SetCursorIs(c: Con, x: Col, y: Line)
    ensures var d := SetCursor(c, x, y);
      NotScrolled(c, d) && d.screen == c.screen && Flat(d) == 80 * y + x
  {
  }

  lemma RedrawEffect(s: State)
    requires WellFormed(s.sh)
    ensures var r := Redraw(s); var o := Origin(s.sh);
      && r.sh == s.sh.(disp := |Buffer(s.sh)|)
      && (NotScrolled(s.con, r.con) <==> o + Max(s.sh.disp, |Buffer(s.sh)|) < 2000)
      && (NotScrolled(s.con, r.con) ==> LineDrawn(s.con.screen, r.con.screen, o, s.sh.disp, Buffer(s.sh)))
      && r.con.cy == s.sh.py && (r.con.cx == s.sh.px + |s.sh.before| <==> s.sh.px + |s.sh.before| < 80)
  {
    hide PutAll, SetCursor, Overlaid, LineDrawn, Scrolled;
    var text, o, n := Buffer(s.sh), Origin(s.sh), s.sh.disp;
    var c1 := SetCursor(s.con, s.sh.px, s.sh.py);
    SetCursorIs(s.con, s.sh.px, s.sh.py);
    var c2 := PutAll(c1, Spaces(n));
    PutAllPlain(c1, Spaces(n));
    var c3 := SetCursor(c2, s.sh.px, s.sh.py);
    SetCursorIs(c2, s.sh.px, s.sh.py);
    var c4 := PutAll(c3, text);
    PutAllPlain(c3, text);
    var j, k := Scrolls(o, n), Scrolls(o, |text|);
    RedrawScrolls(s.con, c1, c2, c3, c4, j, k);
    if j + k == 0 {
      SpacesAreBlank(s.con.screen, c2.screen, c4.screen, o, n, text);
    }
    FinalCursor(c4, s.sh.px + |s.sh.before|, s.sh.py);
    assert Redraw(s).con == SetCursor(c4, s.sh.px + |s.sh.before|, s.sh.py);
  }

  lemma FinalCursor(c: Con, x: nat, y: Line)
    ensures var d := SetCursor(c, x, y);
      NotScrolled(c, d) && d.screen == c.screen && d.cy == y && (d.cx == x <==> x < 80)
  {
  }

  lemma RedrawScrolls(c: Con, c1: Con, c2: Con, c3: Con, c4: Con, j: nat, k: nat)
    requires NotScrolled(c, c1) && Scrolled(c1, c2, j) && NotScrolled(c2, c3) && Scrolled(c3, c4, k)
    requires j < 50 && k < 50
    requires (j == 0 ==> c2.ring == c1.ring) && (k == 0 ==> c4.ring == c3.ring)
    ensures NotScrolled(c, c4) <==> j + k == 0
  {
    ScrolledTwice(c, c3, c4, j, k);
    if j + k > 0 {
      ScrollIsVisible(c, c4, j + k);
    }
  }

  /** redraw_line does what is expected of it if and only if the line fits. */
  lemma RedrawFaithfulIff(s: State)
    requires WellFormed(s.sh)
    ensures Faithful(s, Redraw(s)) <==> Fits(s.sh, s.sh.disp)
  {
    hide Redraw, LineDrawn;
    RedrawEffect(s);
    assert NotScrolled(s.con, Redraw(s).con) ==> LineDrawn(s.con.screen, Redraw(s).con.screen, Origin(s.sh), s.sh.disp, Buffer(s.sh));
  }

  // ---------------------------------------------------------------- keys

  /** The row from the prompt shows the edit buffer and the cursor stands at its position. */
  ghost predicate Displayed(s: State) {
    && s.sh.disp == |Buffer(s.sh)|
    && Origin(s.sh) + |Buffer(s.sh)| < 2000 && s.sh.px + |s.sh.before| < 80
    && (forall y, x :: 0 <= y < 25 && 0 <= x < 80 && Origin(s.sh) <= 80 * y + x < Origin(s.sh) + |Buffer(s.sh)| ==>
          s.con.screen[y][x] == CellOf(Buffer(s.sh)[80 * y + x - Origin(s.sh)]))
    && Flat(s.con) == Origin(s.sh) + |s.sh.before|
  }

  lemma PromptDisplayed(s: State)
    ensures Displayed(ShowPrompt(s))
  {
    hide PutAll;
  }

  lemma UnchangedFaithful(s: State, t: State)
    requires Displayed(s) && NotScrolled(s.con, t.con) && t.con.screen == s.con.screen
    requires Buffer(t.sh) == Buffer(s.sh) && t.sh.disp == s.sh.disp && Origin(t.sh) == Origin(s.sh)
    ensures Faithful(s, t) <==> Flat(t.con) == Origin(t.sh) + |t.sh.before|
  {
  }

  lemma MoveFaithfulIff(s: State, t: State)
    requires Displayed(s) && t.con == s.con && Buffer(t.sh) == Buffer(s.sh)
    requires t.sh.disp == s.sh.disp && t.sh.px == s.sh.px && t.sh.py == s.sh.py
    ensures Faithful(s, MoveCursor(t)) <==> Fits(t.sh, s.sh.disp)
  {
    hide LineDrawn;
    FinalCursor(t.con, t.sh.px + |t.sh.before|, t.sh.py);
    UnchangedFaithful(s, MoveCursor(t));
  }

  lemma RedrawnFaithfulIff(s: State, t: State)
    requires WellFormed(t.sh) && t.con == s.con
    requires t.sh.disp == s.sh.disp && t.sh.px == s.sh.px && t.sh.py == s.sh.py
    ensures Faithful(s, Redraw(t)) <==> Fits(t.sh, s.sh.disp)
    ensures Redraw(t).sh == t.sh.(disp := |Buffer(t.sh)|)
  {
    hide Redraw, LineDrawn;
    RedrawFaithfulIff(t);
    RedrawEffect(t);
  }

  lemma KeptFaithful(s: State, t: State)
    requires Displayed(s) && t.con == s.con && Buffer(t.sh) == Buffer(s.sh) && t.sh.before == s.sh.before
    requires t.sh.disp == s.sh.disp && t.sh.px == s.sh.px && t.sh.py == s.sh.py
    ensures Faithful(s, t) && Fits(t.sh, s.sh.disp)
  {
    UnchangedFaithful(s, t);
  }

  /** A recalled command of n characters ends before the last cell of the screen and of the row. */
  predicate RoomFor(sh: Shell, n: nat) {
    Origin(sh) + n < 2000 && sh.px + n < 80
  }

  /**
   When a key keeps the row right, told from the line before the key: erasing and moving left
   always do, moving right if the cursor stays on the row, recalling if the command has room,
   and typing if the longer line stays on the screen and the cursor on the row.
   */
  predicate KeyFits(sh: Shell, c: Char) {
    if c in {NUL, NEWLINE, BACKSPACE, KEY_LEFT} then true
    else if c == KEY_RIGHT then sh.after == [] || sh.px + |sh.before| + 1 < 80
    else if c == KEY_UP then sh.nav >= |sh.past| - 1 || RoomFor(sh, |Recall(sh.past, sh.nav + 1)|)
    else if c == KEY_DOWN then sh.nav < 0 || RoomFor(sh, |Recall(sh.past, sh.nav - 1)|)
    else
      || |Buffer(sh)| == 127
      || (Origin(sh) + |Buffer(sh)| + 1 < 2000 && sh.px + |sh.before| + 1 < 80)
  }

  lemma KeyFitsIs(sh: Shell, c: Char)
    requires WellFormed(sh) && Fits(sh, sh.disp) && sh.disp == |Buffer(sh)|
    ensures Fits(Edit(sh, c).0, sh.disp) <==> KeyFits(sh, c)
  {
  }

  /** Every key but newline keeps row, other cells, scrollback and cursor right if and only if KeyFits says so beforehand. */
  lemma KeyFaithfulIff(s: State, c: Char)
    requires WellFormed(s.sh) && Displayed(s) && c != NEWLINE
    ensures Faithful(s, Key(s, c)) <==> KeyFits(s.sh, c)
    ensures Origin(Key(s, c).sh) == Origin(s.sh)
    ensures KeyFits(s.sh, c) ==> Displayed(Key(s, c))
  {
    hide Redraw, Faithful, MoveCursor, Displayed, Edit, KeyFits, Fits, WellFormed;
    var (sh, p) := Edit(s.sh, c);
    var t := s.(sh := sh);
    EditIs(s.sh, c);
    NoOpFits(s);
    KeyFitsIs(s.sh, c);
    match p {
      case Keep => KeptFaithful(s, t);
      case Repaint => RedrawnFaithfulIff(s, t);
      case MoveOnly =>
        MoveFaithfulIff(s, t);
        MovedShell(t);
    }
    if Faithful(s, Key(s, c)) {
      PaintFits(t, p, s.sh.disp);
      FaithfulDisplayed(s, Key(s, c));
    }
  }

  lemma NoOpFits(s: State)
    requires Displayed(s)
    ensures Fits(s.sh, s.sh.disp) && s.sh.disp == |Buffer(s.sh)|
  {
  }

  /** Fitting is about text, position and prompt, which painting leaves alone. */
  lemma PaintFits(t: State, p: Paint, disp: nat)
    ensures Fits(Painted(t, p).sh, disp) <==> Fits(t.sh, disp)
  {
    hide PutAll, SetCursor;
  }

  lemma MovedShell(t: State)
    ensures MoveCursor(t).sh == t.sh
  {
  }

  lemma FaithfulDisplayed(s: State, t: State)
    requires Faithful(s, t) && Fits(t.sh, s.sh.disp)
    ensures Displayed(t)
  {
  }

  function Keys(s: State, cs: seq<Char>): State {
    if cs == [] then s else Key(Keys(s, cs[..|cs| - 1]), cs[|cs| - 1])
  }

  /** Told from the line and the keys alone, without the console. */
  predicate KeysFit(sh: Shell, cs: seq<Char>) {
    cs == [] || (KeysFit(sh, cs[..|cs| - 1]) && KeyFits(LineKeys(sh, cs[..|cs| - 1]), cs[|cs| - 1]))
  }

  lemma {:induction false} KeysShell(s: State, cs: seq<Char>)
    ensures Keys(s, cs).sh == LineKeys(s.sh, cs)
  {
    hide Key, LineKey;
    if cs != [] {
      KeysShell(s, cs[..|cs| - 1]);
      KeyShell(Keys(s, cs[..|cs| - 1]), cs[|cs| - 1]);
    }
  }

  /** Cells before the prompt and beyond the longest line are never touched. */
  ghost predicate OutsideKept(g: Grid, h: Grid, o: nat) {
    forall y, x :: 0 <= y < 25 && 0 <= x < 80 && (80 * y + x < o || o + 127 <= 80 * y + x) ==> h[y][x] == g[y][x]
  }

  lemma KeptByFaithful(s: State, t: State)
    requires Faithful(s, t) && WellFormed(s.sh) && WellFormed(t.sh)
    ensures NotScrolled(s.con, t.con) && OutsideKept(s.con.screen, t.con.screen, Origin(t.sh))
  {
  }

  /** From a fresh prompt, over any keys that fit: row, cursor, the other cells and the scrollback are right. */
  lemma {:induction false} KeysDisplayed(s: State, cs: seq<Char>)
    requires WellFormed(s.sh) && Displayed(s) && NEWLINE !in cs && KeysFit(s.sh, cs)
    ensures var t := Keys(s, cs);
      && WellFormed(t.sh) && Displayed(t) && Origin(t.sh) == Origin(s.sh)
      && NotScrolled(s.con, t.con) && OutsideKept(s.con.screen, t.con.screen, Origin(s.sh))
  {
    hide Key, LineKey, KeyFits, Faithful, Displayed;
    if cs != [] {
      var b := cs[..|cs| - 1];
      KeysDisplayed(s, b);
      KeysShell(s, b);
      var m, t := Keys(s, b), Keys(s, cs);
      KeyFaithfulIff(m, cs[|cs| - 1]);
      KeyWellFormed(m, cs[|cs| - 1]);
      KeptByFaithful(m, t);
    }
  }

  /** Every single step of a run is displayed faithfully. */
  ghost predicate AlwaysFaithful(s: State, cs: seq<Char>) {
    forall i :: 0 <= i < |cs| ==> Faithful(Keys(s, cs[..i]), Keys(s, cs[..i + 1]))
  }

  /** A run of keys is displayed faithfully throughout if and only if the keys fit. */
  lemma {:induction false} KeysFaithfulIff(s: State, cs: seq<Char>)
    requires WellFormed(s.sh) && Displayed(s) && NEWLINE !in cs
    ensures AlwaysFaithful(s, cs) <==> KeysFit(s.sh, cs)
  {
    hide Key, LineKey, KeyFits, Faithful, Displayed;
    if cs != [] {
      var n := |cs| - 1;
      var b := cs[..n];
      KeysFaithfulIff(s, b);
      assert forall i :: 0 <= i <= n ==> b[..i] == cs[..i];
      assert cs[..n + 1] == cs;
      assert AlwaysFaithful(s, cs) <==> AlwaysFaithful(s, b) && Faithful(Keys(s, b), Keys(s, cs));
      if KeysFit(s.sh, b) {
        KeysDisplayed(s, b);
        KeysShell(s, b);
        KeyFaithfulIff(Keys(s, b), cs[n]);
      }
    }
  }

  // ---------------------------------------------------------------- a line that does not fit

  function Letters(n: nat): (s: seq<Char>)
    ensures |s| == n
  {
    seq(n, _ => 97)
  }

  lemma {:induction false} LettersFit(sh: Shell, n: nat)
    requires Buffer(sh) == [] && sh.px == 8 && sh.py == 0 && n <= 71
    ensures KeysFit(sh, Letters(n))
    ensures var t := LineKeys(sh, Letters(n)); t.before == Letters(n) && t.after == [] && t.px == 8 && t.py == 0
  {
    if n > 0 {
      LettersFit(sh, n - 1);
      assert Letters(n)[..n - 1] == Letters(n - 1);
    }
  }

  /** Typed at the top row behind the prompt, 71 letters are displayed and the next one is not. */
  lemma LongLineBreaks(s: State)
    requires WellFormed(s.sh) && Displayed(s) && Buffer(s.sh) == [] && s.sh.px == 8 && s.sh.py == 0
    ensures Displayed(Keys(s, Letters(71))) && !Faithful(Keys(s, Letters(71)), Key(Keys(s, Letters(71)), 97))
  {
    hide Key, Faithful, Displayed;
    LettersFit(s.sh, 71);
    assert NEWLINE !in Letters(71);
    KeysDisplayed(s, Letters(71));
    KeysShell(s, Letters(71));
    KeyFaithfulIff(Keys(s, Letters(71)), 97);
  }

  /** So it goes wrong on the cleared console of any machine: a prompt and 72 letters. */
  lemma ClearedConsoleBreaks(c: Con)
    ensures var s := ShowPrompt(State(Shell([], [], [], -1, 0, 0, 0), Clear(c)));
      var t := Keys(s, Letters(71));
      Displayed(t) && !Faithful(t, Key(t, 97))
  {
    hide Key, Faithful, Displayed, PutAll;
    var s := ShowPrompt(State(Shell([], [], [], -1, 0, 0, 0), Clear(c)));
    PromptDisplayed(State(Shell([], [], [], -1, 0, 0, 0), Clear(c)));
    assert Plain(PROMPT) && |PROMPT| == 8;
    PutAllPlain(Clear(c), PROMPT);
    LongLineBreaks(s);
  }
}
