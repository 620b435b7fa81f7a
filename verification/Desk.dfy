/** The three terminals as their users see them: a screen and an edited line each, the displayed and
    the scheduled terminal, and the one cursor they share between ticks. */
module Desk {
  import opened Screen
  import opened Page
  import opened Terminals
  import KeyLines

  datatype Desk = Desk(
    screens: seq<Screen>, lines: seq<seq<char>>, displayed: int, scheduled: int, x: int, y: int)
  {
    predicate Valid() {
      && |screens| == TERMINALS && |lines| == TERMINALS
      && (forall t :: 0 <= t < TERMINALS ==> screens[t].Valid())
      && 0 <= displayed < TERMINALS && 0 <= scheduled < TERMINALS
      && 0 <= x < COLS && 0 <= y < ROWS
    }

    /** The shared cursor is the scheduled terminal's own. */
    predicate InSync() {
      0 <= scheduled < |screens| && x == screens[scheduled].x && y == screens[scheduled].y
    }
  }

  /** A process of the scheduled terminal prints one character. */
  function WriteChar(d: Desk, c: char): (r: Desk)
    requires d.Valid()
    ensures r.Valid()
  {
    if TabDropped(c, d.x) then d
    else
      var s := Draw(Screen(d.screens[d.scheduled].rows, d.x, d.y), c);
      d.(screens := d.screens[d.scheduled := s], x := s.x, y := s.y)
  }

  /** Nothing but the scheduled terminal's screen and the shared cursor has changed. */
  predicate SameAround(d: Desk, r: Desk) {
    && d.Valid() && r.Valid() && r.displayed == d.displayed && r.scheduled == d.scheduled
    && (forall t :: 0 <= t < TERMINALS && t != d.scheduled ==> r.screens[t] == d.screens[t])
    && (forall t :: 0 <= t < TERMINALS ==> r.lines[t] == d.lines[t])
  }

  /** The desk apart from the scheduled terminal's screen and the shared cursor. */
  function Around(d: Desk): Desk
    requires d.Valid()
  {
    Desk(d.screens[d.scheduled := Cleared()], d.lines, d.displayed, d.scheduled, 0, 0)
  }

  lemma SameAroundIs(d: Desk, r: Desk)
    requires SameAround(d, r)
    ensures Around(r) == Around(d)
  {
    assert Around(r).screens == Around(d).screens && Around(r).lines == Around(d).lines;
  }

  lemma WriteCharIs(d: Desk, r: Desk, c: char)
    requires d.Valid() && r.Valid()
    requires SameAround(d, r)
    requires var drawn := Draw(Screen(d.screens[d.scheduled].rows, d.x, d.y), c);
             && r.x == drawn.x && r.y == drawn.y
             && r.screens[d.scheduled] == if TabDropped(c, d.x) then d.screens[d.scheduled] else drawn
    ensures r == WriteChar(d, c)
  {
    assert r.screens == WriteChar(d, c).screens && r.lines == WriteChar(d, c).lines;
  }

  function Write(d: Desk, text: seq<char>): (r: Desk)
    requires d.Valid()
    ensures r.Valid() && r.scheduled == d.scheduled
    decreases |text|
  {
    if text == [] then d
    else WriteChar(Write(d, text[..|text| - 1]), text[|text| - 1])
  }

  lemma {:induction false} WriteStepsOn(d: Desk, text: seq<char>, n: nat)
    requires d.Valid() && n < |text|
    ensures Write(d, text[..n + 1]) == WriteChar(Write(d, text[..n]), text[n])
  {
    assert text[..n + 1][..n] == text[..n];
  }

  function LoadDisplayed(d: Desk): (r: Desk)
    requires d.Valid()
    ensures r.Valid()
  {
    d.(x := d.screens[d.displayed].x, y := d.screens[d.displayed].y)
  }

  /** A character key is echoed on the displayed terminal and joins its line. */
  function Echo(d: Desk, c: char): (r: Desk)
    requires d.Valid()
    ensures r.Valid()
  {
    var s := Draw(d.screens[d.displayed], c);
    var lines := d.lines[d.displayed := d.lines[d.displayed] + [c]];
    Desk(d.screens[d.displayed := s], lines, d.displayed, d.scheduled, s.x, s.y)
  }

  lemma EchoIs(d: Desk, r: Desk, c: char)
    requires d.Valid() && r.Valid()
    requires r.displayed == d.displayed && r.scheduled == d.scheduled
    requires forall t :: 0 <= t < TERMINALS && t != d.displayed ==>
                           r.screens[t] == d.screens[t] && r.lines[t] == d.lines[t]
    requires r.screens[d.displayed] == Draw(d.screens[d.displayed], c)
    requires r.lines[d.displayed] == d.lines[d.displayed] + [c]
    requires r.x == r.screens[d.displayed].x && r.y == r.screens[d.displayed].y
    ensures r == Echo(d, c)
  {
    var e := Echo(d, c);
    assert r.screens == e.screens;
    assert r.lines == e.lines;
  }

  function Wipe(d: Desk): (r: Desk)
    requires d.Valid()
    ensures r.Valid()
  {
    Desk(d.screens[d.displayed := Cleared()], d.lines, d.displayed, d.scheduled, 0, 0)
  }

  /** Alt with a function key: after a change of display the shared cursor is that of the terminal
      scheduled next. */
  function Switch(d: Desk, n: int): (r: Desk)
    requires d.Valid() && 0 <= n < TERMINALS
    ensures r.Valid()
  {
    if n == d.displayed then LoadDisplayed(d)
    else
      var next := d.screens[Next(d.scheduled)];
      d.(displayed := n, x := next.x, y := next.y)
  }

  /** The timer moves on to the next terminal and loads its cursor. */
  function Tick(d: Desk): (r: Desk)
    requires d.Valid()
    ensures r.Valid() && r.InSync()
  {
    var next := Next(d.scheduled);
    d.(scheduled := next, x := d.screens[next].x, y := d.screens[next].y)
  }

  /** The line of the displayed terminal has been read. */
  function TakeLine(d: Desk): (r: Desk)
    requires d.Valid()
    ensures r.Valid()
  {
    d.(lines := d.lines[d.displayed := []])
  }

  /** A silent key echoes nothing: a key that is released or has no character, or a backspace with no
      key held. */
  datatype Step =
    | TickStep
    | WriteStep(text: seq<char>)
    | KeyStep(c: char)
    | SilentKeyStep
    | WipeStep
    | SwitchStep(n: int)
    | ReadStep

  predicate StepOk(step: Step) {
    match step
    case SwitchStep(n) => 0 <= n < TERMINALS
    case KeyStep(c) => c != BACKSPACE
    case WriteStep(text) => BACKSPACE !in text
    case _ => true
  }

  function Do(d: Desk, step: Step): (r: Desk)
    requires d.Valid() && StepOk(step)
    ensures r.Valid()
  {
    match step
    case TickStep => Tick(d)
    case WriteStep(text) => Write(d, text)
    case KeyStep(c) => Echo(d, c)
    case SilentKeyStep => LoadDisplayed(d)
    case WipeStep => Wipe(d)
    case SwitchStep(n) => Switch(d, n)
    case ReadStep => TakeLine(d)
  }

  predicate RunOk(run: seq<Step>) {
    forall i :: 0 <= i < |run| ==> StepOk(run[i])
  }

  function Run(d: Desk, run: seq<Step>): (r: Desk)
    requires d.Valid() && RunOk(run)
    ensures r.Valid()
    decreases |run|
  {
    if run == [] then d
    else Do(Run(d, run[..|run| - 1]), run[|run| - 1])
  }

  /** Every process output of the run starts with the shared cursor at its own terminal's cursor. */
  predicate WritesInSync(d: Desk, run: seq<Step>)
    requires d.Valid() && RunOk(run)
    decreases |run|
  {
    run == [] ||
    var before := run[..|run| - 1];
    && WritesInSync(d, before)
    && (run[|run| - 1].WriteStep? ==> Run(d, before).InSync())
  }

  /** What terminal `t` itself was made to draw since its screen was last wiped, and whether it was. */
  datatype Own = Own(wiped: bool, text: seq<char>)

  /** The share of one step in what terminal `t` was made to draw. */
  function OwnAfter(d: Desk, own: Own, step: Step, t: int): Own {
    match step
    case WriteStep(text) => if t == d.scheduled then own.(text := own.text + text) else own
    case KeyStep(c) => if t == d.displayed then own.(text := own.text + [c]) else own
    case WipeStep => if t == d.displayed then Own(true, []) else own
    case _ => own
  }

  function OwnText(d: Desk, run: seq<Step>, t: int): Own
    requires d.Valid() && RunOk(run)
    decreases |run|
  {
    if run == [] then Own(false, [])
    else
      var before := run[..|run| - 1];
      OwnAfter(Run(d, before), OwnText(d, before, t), run[|run| - 1], t)
  }

  /** The screen that drawing a terminal's own text gives. */
  function OwnDrawn(start: Screen, own: Own): (s: Screen)
    requires start.Valid()
    ensures s.Valid()
  {
    DrawAll(if own.wiped then Cleared() else start, own.text)
  }

  lemma {:induction false} DrawAllSplit(s: Screen, a: seq<char>, b: seq<char>)
    requires s.Valid()
    ensures DrawAll(s, a + b) == DrawAll(DrawAll(s, a), b)
    decreases |b|
  {
    if b == [] {
      assert a + b == a;
    } else {
      DrawAllSplit(s, a, b[..|b| - 1]);
      assert (a + b)[..|a + b| - 1] == a + b[..|b| - 1];
    }
  }

  /** Output in sync draws exactly on the scheduled terminal's screen and stays in sync. */
  lemma {:induction false} WriteInSync(d: Desk, text: seq<char>)
    requires d.Valid() && d.InSync()
    ensures var r := Write(d, text);
            && r == d.(screens := d.screens[d.scheduled := DrawAll(d.screens[d.scheduled], text)], x := r.x, y := r.y)
            && r.InSync()
    decreases |text|
  {
    if text == [] {
      assert d.screens == d.screens[d.scheduled := d.screens[d.scheduled]];
    } else {
      WriteInSync(d, text[..|text| - 1]);
    }
  }

  lemma StepDrawsOwn(d: Desk, step: Step, t: int, start: Screen, own: Own)
    requires d.Valid() && StepOk(step) && (step.WriteStep? ==> d.InSync()) && 0 <= t < TERMINALS
    requires start.Valid() && d.screens[t] == OwnDrawn(start, own)
    ensures Do(d, step).screens[t] == OwnDrawn(start, OwnAfter(d, own, step, t))
  {
    var base := if own.wiped then Cleared() else start;
    match step {
      case WriteStep(text) =>
        WriteInSync(d, text);
        DrawAllSplit(base, own.text, text);
      case KeyStep(c) =>
        DrawAllSplit(base, own.text, [c]);
        OneChar(DrawAll(base, own.text), c);
      case _ =>
    }
  }

  /** Three virtual screens: however outputs, keys, wipes, switches and ticks interleave, each
      terminal's screen and cursor are what its own output and echoed keys draw, as long as every
      output starts at its own terminal's cursor. */
  lemma {:induction false} ScreensAreIndependent(d: Desk, run: seq<Step>, t: int)
    requires d.Valid() && RunOk(run) && WritesInSync(d, run) && 0 <= t < TERMINALS
    ensures Run(d, run).screens[t] == OwnDrawn(d.screens[t], OwnText(d, run, t))
    ensures BACKSPACE !in OwnText(d, run, t).text
    decreases |run|
  {
    if run == [] {
    } else {
      var before := run[..|run| - 1];
      ScreensAreIndependent(d, before, t);
      StepDrawsOwn(Run(d, before), run[|run| - 1], t, d.screens[t], OwnText(d, before, t));
    }
  }

  lemma OneChar(s: Screen, c: char)
    requires s.Valid()
    ensures DrawAll(s, [c]) == Draw(s, c)
  {
    assert [c][..0] == [];
    assert DrawAll(s, []) == s;
  }

  /** A terminal that started cleared then shows the end of the page of its own text. */
  lemma {:induction false} TerminalShowsItsPage(d: Desk, run: seq<Step>, t: int)
    requires d.Valid() && RunOk(run) && WritesInSync(d, run) && 0 <= t < TERMINALS
    requires d.screens[t] == Cleared() || OwnText(d, run, t).wiped
    requires OwnText(d, run, t).text != []
    ensures IsEndOf(Run(d, run).screens[t], Layout(EMPTY_PAGE, OwnText(d, run, t).text))
  {
    var text := OwnText(d, run, t).text;
    ScreensAreIndependent(d, run, t);
    assert Run(d, run).screens[t] == DrawAll(Cleared(), text);
    ScreenIsEndOfPage(text);
  }

  lemma {:induction false} WriteKeepsLines(d: Desk, text: seq<char>)
    requires d.Valid()
    ensures Write(d, text).lines == d.lines && Write(d, text).displayed == d.displayed
    decreases |text|
  {
    if text == [] {
    } else {
      WriteKeepsLines(d, text[..|text| - 1]);
    }
  }

  function BoardOf(d: Desk): KeyLines.Board {
    KeyLines.Board(d.lines, d.displayed)
  }

  /** What a step means for the lines. */
  function EventOf(step: Step): KeyLines.Event {
    match step
    case KeyStep(c) => KeyLines.Key(c)
    case ReadStep => KeyLines.Read
    case SwitchStep(n) => KeyLines.Show(n)
    case _ => KeyLines.Nothing
  }

  function EventsOf(run: seq<Step>): (events: seq<KeyLines.Event>)
    ensures |events| == |run|
    ensures forall i :: 0 <= i < |run| ==> events[i] == EventOf(run[i])
  {
    seq(|run|, i requires 0 <= i < |run| => EventOf(run[i]))
  }

  lemma StepMovesLines(d: Desk, step: Step)
    requires d.Valid() && StepOk(step)
    ensures BoardOf(Do(d, step)) == KeyLines.After(BoardOf(d), EventOf(step))
  {
    if step.WriteStep? {
      WriteKeepsLines(d, step.text);
    }
  }

  lemma {:induction false} RunMovesLines(d: Desk, run: seq<Step>)
    requires d.Valid() && RunOk(run)
    ensures KeyLines.EventsOk(EventsOf(run))
    ensures BoardOf(Run(d, run)) == KeyLines.AfterAll(BoardOf(d), EventsOf(run))
    decreases |run|
  {
    if run == [] {
    } else {
      var n := |run| - 1;
      RunMovesLines(d, run[..n]);
      StepMovesLines(Run(d, run[..n]), run[n]);
      assert EventsOf(run)[..n] == EventsOf(run[..n]);
    }
  }

  /** Switching terminals loses no typed key and mixes no lines: without backspaces each line is what
      it began with and the keys typed since. */
  lemma LinesAreIndependent(d: Desk, run: seq<Step>, t: int)
    requires d.Valid() && RunOk(run) && 0 <= t < TERMINALS
    ensures KeyLines.EventsOk(EventsOf(run))
    ensures var typed := KeyLines.KeysTyped(BoardOf(d), EventsOf(run), t);
            Run(d, run).lines[t] == typed.start + typed.keys
  {
    RunMovesLines(d, run);
    KeyLines.LinesAreExact(BoardOf(d), EventsOf(run), t);
    var typed := KeyLines.KeysTyped(BoardOf(d), EventsOf(run), t);
    NoBackspaceTyped(d, EventsOf(run), t);
    KeyLines.EditedForward(typed.start, typed.keys);
  }

  lemma {:induction false} NoBackspaceTyped(d: Desk, events: seq<KeyLines.Event>, t: int)
    requires d.Valid() && KeyLines.EventsOk(events) && 0 <= t < TERMINALS
    requires KeyLines.Key(BACKSPACE) !in events
    ensures BACKSPACE !in KeyLines.KeysTyped(BoardOf(d), events, t).keys
    decreases |events|
  {
    if events == [] {
    } else {
      NoBackspaceTyped(d, events[..|events| - 1], t);
    }
  }

  function OwnScreen(d: Desk): (s: Screen)
    requires d.Valid()
    ensures s.Valid()
  {
    d.screens[d.scheduled]
  }

  /** Both cursors stand in the last column, one in the bottom row and one in the row above, and the
      rows are alike: scrolling the screen and not scrolling it then look the same. */
  predicate LooksScrolled(d: Desk)
    requires d.Valid()
  {
    var s := OwnScreen(d);
    && d.x == COLS - 1 && s.x == COLS - 1
    && ((d.y == ROWS - 1 && s.y == ROWS - 2) || (d.y == ROWS - 2 && s.y == ROWS - 1))
    && (forall r :: 0 <= r < ROWS - 2 ==> s.rows[r] == s.rows[r + 1])
    && s.rows[ROWS - 2][..COLS - 1] == s.rows[ROWS - 1][..COLS - 1]
    && s.rows[ROWS - 1][1..] == Blanks(COLS - 1)
  }

  /** A character drawn in the last column of the bottom row, or of the row above, on rows that look
      scrolled. */
  lemma ScrollLooksSame(rows: seq<seq<Cell>>, c: char)
    requires WellShaped(rows) && c != BACKSPACE && c != '\t'
    requires forall r :: 0 <= r < ROWS - 2 ==> rows[r] == rows[r + 1]
    requires rows[ROWS - 2][..COLS - 1] == rows[ROWS - 1][..COLS - 1]
    requires rows[ROWS - 1][1..] == Blanks(COLS - 1)
    ensures Draw(Screen(rows, COLS - 1, ROWS - 2), c) == Draw(Screen(rows, COLS - 1, ROWS - 1), c)
  {
    var a, b := Draw(Screen(rows, COLS - 1, ROWS - 2), c), Draw(Screen(rows, COLS - 1, ROWS - 1), c);
    forall r | 0 <= r < ROWS
      ensures a.rows[r] == b.rows[r]
    {
      if r == ROWS - 1 {
        forall k | 0 < k < COLS
          ensures rows[r][k] == Ink(' ')
        {
          assert rows[r][k] == rows[r][1..][k - 1];
        }
        assert a.rows[r] == b.rows[r];
      } else if r == ROWS - 2 {
        forall k | 0 <= k < COLS - 1
          ensures rows[r][k] == rows[r + 1][k]
        {
          assert rows[r][k] == rows[r][..COLS - 1][k];
        }
        assert a.rows[r] == b.rows[r];
      }
    }
    assert a.rows == b.rows;
  }

  /** What a drawn glyph tells about where it was drawn. */
  lemma SameGlyphSameCursor(rows: seq<seq<Cell>>, x: int, y: int, x': int, y': int, c: char)
    requires WellShaped(rows) && IsGlyph(c)
    requires 0 <= x < COLS && 0 <= y < ROWS && 0 <= x' < COLS && 0 <= y' < ROWS
    requires Draw(Screen(rows, x, y), c) == Draw(Screen(rows, x', y'), c)
    ensures x == x'
    ensures y == y' || (x == COLS - 1 && y >= ROWS - 2 && y' >= ROWS - 2)
  {
  }

  lemma SameGlyphLooksScrolled(rows: seq<seq<Cell>>, c: char)
    requires WellShaped(rows) && IsGlyph(c)
    requires Draw(Screen(rows, COLS - 1, ROWS - 2), c) == Draw(Screen(rows, COLS - 1, ROWS - 1), c)
    ensures forall r :: 0 <= r < ROWS - 2 ==> rows[r] == rows[r + 1]
    ensures rows[ROWS - 2][..COLS - 1] == rows[ROWS - 1][..COLS - 1]
    ensures rows[ROWS - 1][1..] == Blanks(COLS - 1)
  {
    var a, b := Draw(Screen(rows, COLS - 1, ROWS - 2), c), Draw(Screen(rows, COLS - 1, ROWS - 1), c);
    forall r | 0 <= r < ROWS - 2
      ensures rows[r] == rows[r + 1]
    {
      assert a.rows[r] == rows[r] && b.rows[r] == rows[r + 1];
    }
    var above, bottom := rows[ROWS - 2], rows[ROWS - 1];
    assert a.rows[ROWS - 2] == above[COLS - 1 := Ink(c)] && b.rows[ROWS - 2] == bottom[COLS - 1 := Ink(c)];
    assert above[..COLS - 1] == above[COLS - 1 := Ink(c)][..COLS - 1];
    assert bottom[..COLS - 1] == bottom[COLS - 1 := Ink(c)][..COLS - 1];
    assert a.rows[ROWS - 1] == bottom[0 := Ink('_')] && b.rows[ROWS - 1] == Blanks(COLS)[0 := Ink('_')];
    assert bottom[1..] == bottom[0 := Ink('_')][1..];
  }

  /** A glyph drawn by a process lands as on its own terminal exactly when the shared cursor is its
      terminal's, or when a scroll would not show. */
  lemma GlyphIsExact(d: Desk, c: char)
    requires d.Valid() && IsGlyph(c)
    ensures WriteChar(d, c).screens[d.scheduled] == Draw(OwnScreen(d), c) <==> d.InSync() || LooksScrolled(d)
  {
    var s := OwnScreen(d);
    assert WriteChar(d, c).screens[d.scheduled] == Draw(Screen(s.rows, d.x, d.y), c);
    assert s == Screen(s.rows, s.x, s.y);
    if WriteChar(d, c).screens[d.scheduled] == Draw(s, c) {
      SameGlyphSameCursor(s.rows, d.x, d.y, s.x, s.y, c);
      if d.y != s.y {
        SameGlyphLooksScrolled(s.rows, c);
      }
    } else if LooksScrolled(d) {
      ScrollLooksSame(s.rows, c);
    }
  }

  /** Output that starts where a scroll would not show draws what it should all the same. */
  lemma {:induction false} HiddenScroll(d: Desk, text: seq<char>)
    requires d.Valid() && LooksScrolled(d) && BACKSPACE !in text
    ensures var r := Write(d, text);
            && r.screens[d.scheduled] == DrawAll(OwnScreen(d), text)
            && (r.InSync() || r == d)
    decreases |text|
  {
    if text == [] {
    } else {
      var n := |text| - 1;
      HiddenScroll(d, text[..n]);
      var mid := Write(d, text[..n]);
      if mid == d && !TabDropped(text[n], d.x) {
        ScrollLooksSame(OwnScreen(d).rows, text[n]);
      }
    }
  }

  /** Every output of the scheduled terminal draws on its screen what it would draw there alone,
      exactly when the shared cursor is its terminal's own or a scroll would not show. */
  lemma {:induction false} OutputIsExact(d: Desk)
    requires d.Valid()
    ensures (forall text | BACKSPACE !in text ::
               Write(d, text).screens[d.scheduled] == DrawAll(OwnScreen(d), text))
       <==> d.InSync() || LooksScrolled(d)
  {
    if d.InSync() || LooksScrolled(d) {
      forall text | BACKSPACE !in text
        ensures Write(d, text).screens[d.scheduled] == DrawAll(OwnScreen(d), text)
      {
        if d.InSync() {
          WriteInSync(d, text);
        } else {
          HiddenScroll(d, text);
        }
      }
    } else {
      GlyphIsExact(d, 'o');
      WriteOne(d, 'o');
      OneChar(OwnScreen(d), 'o');
      assert Write(d, ['o']).screens[d.scheduled] != DrawAll(OwnScreen(d), ['o']);
    }
  }

  lemma WriteOne(d: Desk, c: char)
    requires d.Valid()
    ensures Write(d, [c]) == WriteChar(d, c)
  {
    assert [c][..0] == [];
    assert Write(d, []) == d;
  }

  /** Which terminals are displayed and scheduled, and whether the shared cursor is known to be the
      scheduled terminal's own. */
  datatype Aim = Aim(displayed: int, scheduled: int, own: bool)

  /** The timer aims the cursor; a key, silent or not, or a clear takes it to the displayed terminal,
      and a change of display to the terminal scheduled next. */
  function AimAfter(a: Aim, step: Step): Aim {
    match step
    case TickStep => Aim(a.displayed, Next(a.scheduled), true)
    case KeyStep(_) => a.(own := a.displayed == a.scheduled)
    case SilentKeyStep => a.(own := a.displayed == a.scheduled)
    case WipeStep => a.(own := a.displayed == a.scheduled)
    case SwitchStep(n) => Aim(n, a.scheduled, n == a.displayed && n == a.scheduled)
    case WriteStep(_) => a
    case ReadStep => a
  }

  function AimAfterAll(a: Aim, run: seq<Step>): Aim
    decreases |run|
  {
    if run == [] then a else AimAfter(AimAfterAll(a, run[..|run| - 1]), run[|run| - 1])
  }

  /** Since the last tick before each output no key went down or up while another terminal was
      displayed, and the display did not change; screens, texts and cursors do not matter. */
  predicate Tidy(a: Aim, run: seq<Step>)
    decreases |run|
  {
    run == [] ||
    var before := run[..|run| - 1];
    Tidy(a, before) && (run[|run| - 1].WriteStep? ==> AimAfterAll(a, before).own)
  }

  function AimOf(d: Desk): Aim {
    Aim(d.displayed, d.scheduled, d.InSync())
  }

  /** Every output of a tidy run starts in sync. */
  lemma {:induction false} TidyStaysInSync(d: Desk, run: seq<Step>)
    requires d.Valid() && RunOk(run) && Tidy(AimOf(d), run)
    ensures WritesInSync(d, run)
    ensures var a, r := AimAfterAll(AimOf(d), run), Run(d, run);
            a.displayed == r.displayed && a.scheduled == r.scheduled && (a.own ==> r.InSync())
    decreases |run|
  {
    if run == [] {
    } else {
      var n := |run| - 1;
      TidyStaysInSync(d, run[..n]);
      match run[n] {
        case WriteStep(text) =>
          WriteInSync(Run(d, run[..n]), text);
          WriteKeepsLines(Run(d, run[..n]), text);
        case _ =>
      }
    }
  }

  /** In a tidy run a terminal that started cleared shows the end of the page of its own text. */
  lemma {:induction false} TidyTerminalShowsItsPage(d: Desk, run: seq<Step>, t: int)
    requires d.Valid() && RunOk(run) && Tidy(AimOf(d), run) && 0 <= t < TERMINALS
    requires d.screens[t] == Cleared() || OwnText(d, run, t).wiped
    requires OwnText(d, run, t).text != []
    ensures IsEndOf(Run(d, run).screens[t], Layout(EMPTY_PAGE, OwnText(d, run, t).text))
  {
    TidyStaysInSync(d, run);
    TerminalShowsItsPage(d, run, t);
  }

  /** Three cleared terminals with every cursor at home. */
  predicate Home(d: Desk) {
    d.Valid() && d.x == 0 && d.y == 0 && forall t :: 0 <= t < TERMINALS ==> d.screens[t] == Cleared()
  }

  function LineBreaks(n: nat): (text: seq<char>)
    ensures |text| == n && BACKSPACE !in text
  {
    seq(n, _ => '\n')
  }

  lemma {:induction false} BreaksGoDown(n: nat)
    requires n < ROWS
    ensures DrawAll(Cleared(), LineBreaks(n)).x == 0 && DrawAll(Cleared(), LineBreaks(n)).y == n
  {
    if n == 0 {
    } else {
      BreaksGoDown(n - 1);
      assert LineBreaks(n)[..n - 1] == LineBreaks(n - 1);
    }
  }

  /** A key typed or released. */
  predicate IsKey(step: Step) {
    step == KeyStep('k') || step == SilentKeyStep
  }

  /** A terminal prints some text and a key event follows. */
  function PrintThen(text: seq<char>, key: Step): (run: seq<Step>)
    requires BACKSPACE !in text && IsKey(key)
    ensures RunOk(run)
  {
    [WriteStep(text)] + [key]
  }

  lemma RunSnoc(d: Desk, run: seq<Step>, step: Step)
    requires d.Valid() && RunOk(run) && StepOk(step)
    ensures RunOk(run + [step]) && Run(d, run + [step]) == Do(Run(d, run), step)
    ensures WritesInSync(d, run + [step]) ==> (step.WriteStep? ==> Run(d, run).InSync())
  {
    assert (run + [step])[..|run|] == run;
  }

  lemma OwnTextSnoc(d: Desk, run: seq<Step>, text: seq<char>, t: int)
    requires d.Valid() && RunOk(run) && BACKSPACE !in text && t == Run(d, run).scheduled
    ensures var own := OwnText(d, run, t);
            RunOk(run + [WriteStep(text)]) && OwnText(d, run + [WriteStep(text)], t) == own.(text := own.text + text)
  {
    assert (run + [WriteStep(text)])[..|run|] == run;
  }

  lemma AfterPrint(d: Desk, text: seq<char>)
    requires d.Valid() && BACKSPACE !in text
    ensures RunOk([WriteStep(text)]) && Run(d, [WriteStep(text)]) == Write(d, text)
    ensures OwnText(d, [WriteStep(text)], d.scheduled) == Own(false, text)
  {
    assert [WriteStep(text)][..0] == [];
    assert Run(d, []) == d && OwnText(d, [], d.scheduled) == Own(false, []);
    assert [] + text == text;
  }

  lemma AfterPrintThen(d: Desk, text: seq<char>, key: Step)
    requires d.Valid() && BACKSPACE !in text && IsKey(key) && d.displayed != d.scheduled
    ensures Run(d, PrintThen(text, key)) == Do(Write(d, text), key)
    ensures OwnText(d, PrintThen(text, key), d.scheduled) == Own(false, text)
  {
    AfterPrint(d, text);
    RunSnoc(d, [WriteStep(text)], key);
    WriteKeepsLines(d, text);
    assert PrintThen(text, key)[..1] == [WriteStep(text)];
  }

  /** A key event on another terminal leaves the shared cursor there. */
  lemma KeyThenOutput(d: Desk, key: Step)
    requires d.Valid() && d.displayed != d.scheduled && IsKey(key)
    requires d.screens[d.displayed] == Cleared() && d.screens[d.scheduled].y > 0
    ensures !Do(d, key).InSync() && Write(Do(d, key), ['o']).screens[d.scheduled].y == 0
  {
    WriteOne(Do(d, key), 'o');
  }

  /** The scheduled terminal prints some lines, a key is typed or only released on another terminal,
      and the scheduled one prints again before the next tick: the last output lands in the first row,
      at the displayed terminal's cursor, although the scheduled terminal's own text has it further
      down. */
  lemma OutOfSyncOutput(d: Desk, n: nat, key: Step)
    requires Home(d) && d.displayed != d.scheduled && 0 < n < ROWS && IsKey(key)
    ensures var run := PrintThen(LineBreaks(n), key) + [WriteStep(['o'])];
            && RunOk(run) && !WritesInSync(d, run) && !Tidy(AimOf(d), run)
            && OwnText(d, run, d.scheduled) == Own(false, LineBreaks(n) + ['o'])
            && DrawAll(Cleared(), LineBreaks(n) + ['o']).y == n
            && Run(d, run).screens[d.scheduled].y == 0
  {
    var start := PrintThen(LineBreaks(n), key);
    var w := AfterLines(d, n);
    AfterPrintThen(d, LineBreaks(n), key);
    KeyThenOutput(w, key);
    UntidyEnd(d, start, ['o']);
    OwnTextSnoc(d, start, ['o'], d.scheduled);
  }

  /** Showing and wiping each terminal in turn. */
  const WIPE_EACH: seq<Step> :=
    [SwitchStep(0), WipeStep, SwitchStep(1), WipeStep, SwitchStep(2), WipeStep]

  /** Three cleared terminals are reached from any desk, with the same terminal scheduled. */
  lemma EveryDeskComesHome(d: Desk)
    requires d.Valid()
    ensures RunOk(WIPE_EACH) && Home(Run(d, WIPE_EACH))
    ensures Run(d, WIPE_EACH).scheduled == d.scheduled && Run(d, WIPE_EACH).displayed == 2
  {
    TwoSteps(d, [], 0);
    TwoSteps(d, WIPE_EACH[..2], 1);
    TwoSteps(d, WIPE_EACH[..4], 2);
    assert [] + [SwitchStep(0)] + [WipeStep] == WIPE_EACH[..2];
    assert WIPE_EACH[..2] + [SwitchStep(1)] + [WipeStep] == WIPE_EACH[..4];
    assert WIPE_EACH[..4] + [SwitchStep(2)] + [WipeStep] == WIPE_EACH;
  }

  lemma TwoSteps(d: Desk, run: seq<Step>, n: int)
    requires d.Valid() && RunOk(run) && 0 <= n < TERMINALS
    ensures RunOk(run + [SwitchStep(n)] + [WipeStep])
    ensures Run(d, run + [SwitchStep(n)] + [WipeStep]) == Wipe(Switch(Run(d, run), n))
  {
    RunSnoc(d, run, SwitchStep(n));
    RunSnoc(d, run + [SwitchStep(n)], WipeStep);
  }

  /** An output that starts out of sync ends a run that is not tidy. */
  lemma UntidyEnd(d: Desk, run: seq<Step>, text: seq<char>)
    requires d.Valid() && RunOk(run) && BACKSPACE !in text && !Run(d, run).InSync()
    ensures var more := run + [WriteStep(text)];
            && RunOk(more) && !WritesInSync(d, more) && !Tidy(AimOf(d), more)
            && Run(d, more) == Write(Run(d, run), text)
  {
    RunSnoc(d, run, WriteStep(text));
    if Tidy(AimOf(d), run + [WriteStep(text)]) {
      TidyStaysInSync(d, run + [WriteStep(text)]);
    }
  }

  /** The desk after the first output. */
  lemma AfterLines(d: Desk, n: nat) returns (w: Desk)
    requires Home(d) && d.displayed != d.scheduled && 0 < n < ROWS
    ensures w == Write(d, LineBreaks(n)) && w.displayed == d.displayed
    ensures w.screens[w.displayed] == Cleared() && w.screens[d.scheduled].y == n
    ensures DrawAll(Cleared(), LineBreaks(n) + ['o']).y == n
  {
    w := Write(d, LineBreaks(n));
    WriteInSync(d, LineBreaks(n));
    WriteKeepsLines(d, LineBreaks(n));
    BreaksGoDown(n);
    assert (LineBreaks(n) + ['o'])[..n] == LineBreaks(n);
  }

  /** How many ticks a run has. */
  function Ticks(run: seq<Step>): (n: nat)
    decreases |run|
  {
    if run == [] then 0
    else Ticks(run[..|run| - 1]) + if run[|run| - 1].TickStep? then 1 else 0
  }

  lemma StepTurns(d: Desk, step: Step)
    requires d.Valid() && StepOk(step)
    ensures Do(d, step).scheduled ==
            if !step.TickStep? then d.scheduled else if d.scheduled == 2 then 0 else d.scheduled + 1
  {
  }

  /** The terminals take turns: after any run the scheduled one is as many places round the ring 0, 1, 2
      as there were ticks. */
  lemma {:induction false} TurnsGoRound(d: Desk, run: seq<Step>)
    requires d.Valid() && RunOk(run)
    ensures Run(d, run).scheduled == Turned(d.scheduled, Ticks(run))
    decreases |run|
  {
    if run == [] {
    } else {
      var before := run[..|run| - 1];
      TurnsGoRound(d, before);
      StepTurns(Run(d, before), run[|run| - 1]);
    }
  }

  /** A step reaches no terminal but its own: output the scheduled one's screen, keys, wipes and reads the
      displayed one's. */
  lemma StepsAreLocal(d: Desk, step: Step, t: int)
    requires d.Valid() && StepOk(step) && 0 <= t < 3
    ensures var r := Do(d, step);
            && (r.screens[t] == d.screens[t]
                || (step.WriteStep? && t == d.scheduled) || ((step.KeyStep? || step.WipeStep?) && t == d.displayed))
            && (step.KeyStep? && t == d.displayed ==> r.lines[t] == d.lines[t] + [step.c])
            && (step.ReadStep? && t == d.displayed ==> r.lines[t] == [])
            && (!(step.KeyStep? || step.ReadStep?) || t != d.displayed ==> r.lines[t] == d.lines[t])
            && r.displayed == if step.SwitchStep? then step.n else d.displayed
  {
    if step.WriteStep? {
      WriteKeepsLines(d, step.text);
      if t != d.scheduled {
        WriteStaysInside(d, step.text, t);
      }
    }
  }

  lemma {:induction false} WriteStaysInside(d: Desk, text: seq<char>, t: int)
    requires d.Valid() && 0 <= t < TERMINALS && t != d.scheduled
    ensures Write(d, text).screens[t] == d.screens[t]
    decreases |text|
  {
    if text == [] {
    } else {
      WriteStaysInside(d, text[..|text| - 1], t);
    }
  }

  /** A switch shows the wanted terminal; the shared cursor is then that of the terminal whose turn comes
      next, and without a change of display that of the displayed terminal. */
  lemma SwitchMovesCursor(d: Desk, n: int)
    requires d.Valid() && 0 <= n < 3
    ensures var r := Do(d, SwitchStep(n));
            var cursor := d.screens[if n == d.displayed then n else (d.scheduled + 1) % 3];
            && r.displayed == n && r.x == cursor.x && r.y == cursor.y
            && r.screens == d.screens && r.lines == d.lines && r.scheduled == d.scheduled
  {
  }
}
