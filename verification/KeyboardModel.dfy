/** Scancodes to characters, and characters to the input queue, as values. */
module KeyboardModel {
  import opened CTypes

  /** scancode_ascii, set 1; zero where the table has no entry. */
  function Ascii(sc: Byte): Char {
    match sc
    case 0x1E => 97 case 0x30 => 98 case 0x2E => 99 case 0x20 => 100 case 0x12 => 101
    case 0x21 => 102 case 0x22 => 103 case 0x23 => 104 case 0x17 => 105 case 0x24 => 106
    case 0x25 => 107 case 0x26 => 108 case 0x32 => 109 case 0x31 => 110 case 0x18 => 111
    case 0x19 => 112 case 0x10 => 113 case 0x13 => 114 case 0x1F => 115 case 0x14 => 116
    case 0x16 => 117 case 0x2F => 118 case 0x11 => 119 case 0x2D => 120 case 0x15 => 121
    case 0x2C => 122
    case 0x02 => 49 case 0x03 => 50 case 0x04 => 51 case 0x05 => 52 case 0x06 => 53
    case 0x07 => 54 case 0x08 => 55 case 0x09 => 56 case 0x0A => 57 case 0x0B => 48
    case 0x39 => SPACE case 0x1C => NEWLINE case 0x0F => 9 case 0x0E => BACKSPACE
    case _ => NUL
  }

  /** handle_extended: what a scancode means behind the 0xE0 prefix. */
  function Extended(sc: Byte): Char {
    match sc
    case 0x48 => KEY_UP case 0x50 => KEY_DOWN case 0x4B => KEY_LEFT case 0x4D => KEY_RIGHT
    case 0x38 => KEY_ALT_R case 0x5D => KEY_FN
    case _ => NUL
  }

  /** What it means without the prefix; key releases have bit 7 set. */
  function Unprefixed(sc: Byte): Char {
    if sc >= 0x80 then NUL
    else
      match sc
      case 0x3B => KEY_F1 case 0x3C => KEY_F2 case 0x3D => KEY_F3 case 0x3E => KEY_F4
      case 0x1D => KEY_CTRL case 0x38 => KEY_ALT_R
      case _ => Ascii(sc)
  }

  /** The unshifted set 1 keyboard, row by row; key releases and all other codes give no character. */
  lemma KeyboardRows(sc: Byte)
    ensures 0x02 <= sc < 0x0C ==> Unprefixed(sc) == "1234567890"[sc - 0x02] as int
    ensures 0x10 <= sc < 0x1A ==> Unprefixed(sc) == "qwertyuiop"[sc - 0x10] as int
    ensures 0x1E <= sc < 0x27 ==> Unprefixed(sc) == "asdfghjkl"[sc - 0x1E] as int
    ensures 0x2C <= sc < 0x33 ==> Unprefixed(sc) == "zxcvbnm"[sc - 0x2C] as int
    ensures 0x3B <= sc < 0x3F ==> Unsigned(Unprefixed(sc)) == [0x84, 0x85, 0x86, 0x87][sc - 0x3B]
    ensures Unprefixed(0x0E) == 8 && Unprefixed(0x0F) == '\t' as int
    ensures Unprefixed(0x1C) == '\n' as int && Unprefixed(0x39) == ' ' as int
    ensures Unsigned(Unprefixed(0x1D)) == 0x88 && Unsigned(Unprefixed(0x38)) == 0x89
    ensures Unprefixed(sc) != NUL <==>
      || 0x02 <= sc < 0x0C || 0x10 <= sc < 0x1A || 0x1E <= sc < 0x27 || 0x2C <= sc < 0x33 || 0x3B <= sc < 0x3F
      || sc in {0x0E, 0x0F, 0x1C, 0x1D, 0x38, 0x39}
  {
  }

  /** Behind the prefix: arrows, right Alt and the FN key, and no others. */
  lemma ExtendedKeys(sc: Byte)
    ensures Unsigned(Extended(sc)) ==
      if sc in {0x48, 0x50, 0x4B, 0x4D, 0x38, 0x5D}
      then (map[0x48 := 0x80, 0x50 := 0x81, 0x4B := 0x82, 0x4D := 0x83, 0x38 := 0x89, 0x5D := 0x8A])[sc]
      else 0
  {
  }

  /** The state of driver and console input: prefix seen, Ctrl latch, queue, and what was taken from it. */
  datatype Input = Input(haveE0: bool, ctrl: bool, queue: seq<Char>, taken: seq<Char>)

  /** One non-empty keyboard_read_char. */
  function Decode(haveE0: bool, sc: Byte): (bool, Char) {
    if sc == 0xE0 then (true, NUL)
    else if haveE0 then (false, Extended(sc))
    else (false, Unprefixed(sc))
  }

  datatype Effect =
    | Nothing
    | ScrollView(up: bool)
    | PaneLeft | PaneRight | PaneUp | PaneDown
    | PaneWidth(delta: int) | PaneHeight(delta: int)

  function Offer(q: seq<Char>, c: Char): seq<Char> {
    if |q| < 127 then q + [c] else q
  }

  /** console_poll_input once a character c has been read, while the view is scrolled up by `view` lines. */
  function Accept(i: Input, c: Char, view: nat): (Input, Effect) {
    if c == NUL then (i, Nothing)
    else if c == KEY_CTRL then (i.(ctrl := true), Nothing)
    else if (c == KEY_UP || c == KEY_DOWN) && (i.ctrl || view > 0) then (i.(ctrl := false), ScrollView(c == KEY_UP))
    else if c == KEY_ALT_R then (i.(ctrl := false), if i.ctrl then PaneUp else PaneLeft)
    else if c == KEY_FN then (i.(ctrl := false), if i.ctrl then PaneDown else PaneRight)
    else if c == KEY_F1 then (i, PaneWidth(-1))
    else if c == KEY_F2 then (i, PaneWidth(1))
    else if c == KEY_F3 then (i, PaneHeight(-1))
    else if c == KEY_F4 then (i, PaneHeight(1))
    else (i.(queue := Offer(i.queue, if c == DELETE then BACKSPACE else c)), Nothing)
  }

  function Poll(i: Input, sc: Option<Byte>, view: nat): (Input, Effect) {
    if sc.None? then (i, Nothing)
    else
      var (e0, c) := Decode(i.haveE0, sc.value);
      Accept(i.(haveE0 := e0), c, view)
  }

  /** Which keys scroll, and which move or resize panes, with Ctrl and without. */
  lemma EffectIs(i: Input, c: Char, view: nat)
    ensures var e := Accept(i, c, view).1; var scrolls := i.ctrl || view > 0;
      && (e == ScrollView(true) <==> c == KEY_UP && scrolls)
      && (e == ScrollView(false) <==> c == KEY_DOWN && scrolls)
      && (e == PaneLeft <==> c == KEY_ALT_R && !i.ctrl) && (e == PaneUp <==> c == KEY_ALT_R && i.ctrl)
      && (e == PaneRight <==> c == KEY_FN && !i.ctrl) && (e == PaneDown <==> c == KEY_FN && i.ctrl)
      && (e.PaneWidth? <==> c in {KEY_F1, KEY_F2}) && (e.PaneWidth? ==> e.delta == if c == KEY_F1 then -1 else 1)
      && (e.PaneHeight? <==> c in {KEY_F3, KEY_F4}) && (e.PaneHeight? ==> e.delta == if c == KEY_F3 then -1 else 1)
  {
  }

  lemma AcceptNothing(i: Input, view: nat)
    ensures Accept(i, NUL, view) == (i, Nothing)
  {
  }

  /** console_getc: zero when nothing is queued. */
  function Getc(i: Input): (Input, Char) {
    if i.queue == [] then (i, NUL)
    else (i.(queue := i.queue[1..], taken := i.taken + [i.queue[0]]), i.queue[0])
  }

  // ---------------------------------------------------------------- runs

  /**
   Polls, each with the scancode that has arrived and the view of the moment; passes of the loop of gui_task,
   which read the same port and share the prefix flag; and reads of the queue, in any order.
   */
  datatype Event = Polled(sc: Option<Byte>, view: nat) | GuiRead(sc: Option<Byte>) | Read

  const START := Input(false, false, [], [])

  function Step(i: Input, e: Event): Input {
    match e
    case Polled(sc, view) => Poll(i, sc, view).0
    case GuiRead(None) => i
    case GuiRead(Some(sc)) => i.(haveE0 := Decode(i.haveE0, sc).0)
    case Read => Getc(i).0
  }

  function Run(es: seq<Event>): Input {
    if es == [] then START else Step(Run(es[..|es| - 1]), es[|es| - 1])
  }

  /** The keys gui_task hands to gui_handle_key. */
  function GuiKeys(es: seq<Event>): seq<Char> {
    if es == [] then []
    else
      var b, e := es[..|es| - 1], es[|es| - 1];
      if e.GuiRead? && e.sc.Some? && Decode(Run(b).haveE0, e.sc.value).1 != NUL
      then GuiKeys(b) + [Decode(Run(b).haveE0, e.sc.value).1]
      else GuiKeys(b)
  }

  /** What console_getc returns in a run, NUL left out. */
  function Got(es: seq<Event>): seq<Char> {
    if es == [] then []
    else
      var b, e := es[..|es| - 1], es[|es| - 1];
      if e.Read? && Getc(Run(b)).1 != NUL then Got(b) + [Getc(Run(b)).1] else Got(b)
  }

  /** A scancode taken from the port, by a poll of the console or by gui_task. */
  datatype Arrival = Arrival(sc: Byte, polled: bool)

  /** The scancodes that arrived, in order, each with the one reader that took it. */
  function Arrivals(es: seq<Event>): seq<Arrival> {
    if es == [] then []
    else
      var e := es[|es| - 1];
      Arrivals(es[..|es| - 1]) + (if !e.Read? && e.sc.Some? then [Arrival(e.sc.value, e.Polled?)] else [])
  }

  predicate AfterPrefix(arr: seq<Arrival>) {
    arr != [] && arr[|arr| - 1].sc == 0xE0
  }

  /** The k-th scancode decoded by looking at its predecessor only, whichever reader took that. */
  function Decoded(arr: seq<Arrival>, k: nat): Char
    requires k < |arr|
  {
    if arr[k].sc == 0xE0 then NUL
    else if AfterPrefix(arr[..k]) then Extended(arr[k].sc)
    else Unprefixed(arr[k].sc)
  }

  predicate Unlatches(c: Char) {
    c == KEY_UP || c == KEY_DOWN || c == KEY_ALT_R || c == KEY_FN
  }

  /** A poll saw Ctrl struck, and no poll since saw a key that consumes it. */
  ghost predicate Latched(arr: seq<Arrival>) {
    exists j :: 0 <= j < |arr| && LatchedSince(arr, j)
  }

  ghost predicate LatchedSince(arr: seq<Arrival>, j: nat)
    requires j < |arr|
  {
    && arr[j].polled && Decoded(arr, j) == KEY_CTRL
    && forall k :: j < k < |arr| && arr[k].polled ==> !Unlatches(Decoded(arr, k))
  }

  /** Characters that are typed text rather than commands to the console or the panes. */
  ghost predicate Survives(c: Char, latched: bool, view: nat) {
    && c != NUL && c != KEY_CTRL && c != KEY_ALT_R && c != KEY_FN
    && c != KEY_F1 && c != KEY_F2 && c != KEY_F3 && c != KEY_F4
    && !((c == KEY_UP || c == KEY_DOWN) && (latched || view > 0))
  }

  /** What goes into the ring: of the scancodes polls took, the surviving characters that find fewer than 127 waiting. */
  ghost function Accepted(es: seq<Event>): seq<Char> {
    if es == [] then []
    else
      var b, e := es[..|es| - 1], es[|es| - 1];
      var arr, more := Arrivals(b), Arrivals(es);
      if e.Polled? && |more| > |arr| && Survives(Decoded(more, |arr|), Latched(arr), e.view) && |Accepted(b)| - |Got(b)| < 127
      then Accepted(b) + [if Decoded(more, |arr|) == DELETE then BACKSPACE else Decoded(more, |arr|)]
      else Accepted(b)
  }

  /** The characters that decode from the scancodes gui_task took. */
  function GuiDecoded(arr: seq<Arrival>): seq<Char> {
    if arr == [] then []
    else
      var k := |arr| - 1;
      if !arr[k].polled && Decoded(arr, k) != NUL then GuiDecoded(arr[..k]) + [Decoded(arr, k)] else GuiDecoded(arr[..k])
  }

  // ---------------------------------------------------------------- proofs

  lemma DecodedPrefix(arr: seq<Arrival>, a: Arrival, k: nat)
    requires k < |arr|
    ensures Decoded(arr + [a], k) == Decoded(arr, k)
  {
    assert (arr + [a])[..k] == arr[..k];
  }

  lemma LatchedSnoc(arr: seq<Arrival>, a: Arrival)
    ensures var more := arr + [a]; var c := Decoded(more, |arr|);
      Latched(more) <==> if a.polled then c == KEY_CTRL || (Latched(arr) && !Unlatches(c)) else Latched(arr)
  {
    hide Decoded, Unlatches;
    var more, n := arr + [a], |arr|;
    assert !Unlatches(KEY_CTRL) by { CtrlStays(); }
    forall k | 0 <= k < n ensures Decoded(more, k) == Decoded(arr, k) && more[k] == arr[k] {
      DecodedPrefix(arr, a, k);
    }
    if a.polled && Decoded(more, n) == KEY_CTRL {
      assert LatchedSince(more, n);
    }
    if Latched(arr) && (a.polled ==> !Unlatches(Decoded(more, n))) {
      var j :| 0 <= j < |arr| && LatchedSince(arr, j);
      assert LatchedSince(more, j);
    }
    if Latched(more) && (a.polled ==> Decoded(more, n) != KEY_CTRL) {
      var j :| 0 <= j < |more| && LatchedSince(more, j);
      assert LatchedSince(arr, j);
    }
  }

  lemma CtrlStays()
    ensures !Unlatches(KEY_CTRL)
  {
  }

  /** The branches of console_poll_input, sorted by what they do to latch and queue. */
  lemma AcceptIs(i: Input, c: Char, view: nat)
    ensures var r := Accept(i, c, view).0;
      && r.haveE0 == i.haveE0 && r.taken == i.taken
      && r.ctrl == (c == KEY_CTRL || (i.ctrl && !Unlatches(c)))
      && r.queue == if Survives(c, i.ctrl, view) then Offer(i.queue, if c == DELETE then BACKSPACE else c) else i.queue
  {
  }

  lemma DecodeIs(haveE0: bool, arr: seq<Arrival>, a: Arrival)
    requires haveE0 == AfterPrefix(arr)
    ensures AfterPrefix(arr + [a]) == (a.sc == 0xE0)
    ensures Decode(haveE0, a.sc) == (a.sc == 0xE0, Decoded(arr + [a], |arr|))
  {
    hide Extended, Unprefixed;
    assert (arr + [a])[..|arr|] == arr;
  }

  /** Prefix flag and latch are what the scancodes so far say, whatever reads and views came between. */
  lemma {:induction false} FlagsAre(es: seq<Event>)
    ensures Run(es).haveE0 == AfterPrefix(Arrivals(es)) && Run(es).ctrl == Latched(Arrivals(es))
  {
    hide Decoded, Decode, Accept, Latched, Unlatches, AfterPrefix;
    if es != [] {
      var b, e := es[..|es| - 1], es[|es| - 1];
      FlagsAre(b);
      if !e.Read? && e.sc.Some? {
        var arr, a := Arrivals(b), Arrival(e.sc.value, e.Polled?);
        LatchedSnoc(arr, a);
        var d := Decode(Run(b).haveE0, a.sc);
        DecodeIs(Run(b).haveE0, arr, a);
        if e.Polled? {
          AcceptIs(Run(b).(haveE0 := d.0), d.1, e.view);
        }
        assert Arrivals(es) == arr + [a];
      } else {
        assert Arrivals(es) == Arrivals(b);
      }
    } else {
      NothingArrived();
    }
  }

  lemma SurvivorIsText(c: Char, latched: bool, view: nat)
    ensures Survives(c, latched, view) ==> c != NUL
  {
  }

  lemma NothingArrived()
    ensures !Latched([]) && !AfterPrefix([])
  {
  }

  /** One poll that finds a scancode, in terms of the scancodes so far. */
  lemma PolledIs(es: seq<Event>)
    requires es != [] && es[|es| - 1].Polled? && es[|es| - 1].sc.Some?
    ensures var b, e := es[..|es| - 1], es[|es| - 1];
      var arr, more := Arrivals(b), Arrivals(es);
      && |more| == |arr| + 1 && Run(es).taken == Run(b).taken
      && var c := Decoded(more, |arr|);
         Run(es).queue == if Survives(c, Latched(arr), e.view)
           then Offer(Run(b).queue, if c == DELETE then BACKSPACE else c) else Run(b).queue
  {
    hide Decode, Accept, Latched, Survives, Unlatches, Decoded, AfterPrefix;
    var b, e := es[..|es| - 1], es[|es| - 1];
    FlagsAre(b);
    DecodeIs(Run(b).haveE0, Arrivals(b), Arrival(e.sc.value, true));
    var d := Decode(Run(b).haveE0, e.sc.value);
    AcceptIs(Run(b).(haveE0 := d.0), d.1, e.view);
  }

  /** console_getc takes the oldest character that waits, and gives NUL exactly when none does. */
  lemma GetcIs(i: Input)
    requires NUL !in i.queue
    ensures var (r, c) := Getc(i);
      && (c == NUL <==> i.queue == [])
      && if c == NUL then r == i else i.queue == [c] + r.queue && r == i.(queue := r.queue, taken := i.taken + [c])
  {
    if i.queue != [] {
      assert i.queue == [i.queue[0]] + i.queue[1..];
      assert i.queue[0] in i.queue;
    }
  }

  /** Conservation: what reads returned and what still waits are, once each and in order, the characters accepted. */
  lemma {:induction false} RingIsFifo(es: seq<Event>)
    ensures Got(es) + Run(es).queue == Accepted(es) && Got(es) == Run(es).taken
    ensures |Run(es).queue| <= 127 && NUL !in Run(es).queue
  {
    hide Decode, Latched, Accept, Survives, Unlatches, Decoded;
    if es != [] {
      var b, e := es[..|es| - 1], es[|es| - 1];
      RingIsFifo(b);
      if e.Read? {
        GetcIs(Run(b));
      } else if e.Polled? && e.sc.Some? {
        PolledIs(es);
        SurvivorIsText(Decoded(Arrivals(es), |Arrivals(b)|), Latched(Arrivals(b)), e.view);
      }
    }
  }

  /** The other reader: gui_task gets, in order, what its own scancodes decode to, each behind whatever came before it. */
  lemma {:induction false} GuiKeysAre(es: seq<Event>)
    ensures GuiKeys(es) == GuiDecoded(Arrivals(es))
  {
    hide Decode, Decoded, AfterPrefix;
    if es != [] {
      var b, e := es[..|es| - 1], es[|es| - 1];
      GuiKeysAre(b);
      if !e.Read? && e.sc.Some? {
        var arr, a := Arrivals(b), Arrival(e.sc.value, e.Polled?);
        FlagsAre(b);
        DecodeIs(Run(b).haveE0, arr, a);
        assert Arrivals(es)[..|arr|] == arr;
      } else {
        assert Arrivals(es) == Arrivals(b);
      }
    }
  }
}
