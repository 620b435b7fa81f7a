/** The text subsystem as the kernel keeps it: flat video memory with one backing page per terminal,
    the shared cursor and undo buffers of `putc`, and the key buffer. */
module TextConsole {
  import opened Screen
  import opened VideoMemory
  import opened Memory
  import opened Terminals
  import Desk
  import KeyLines
  import LineEditor

  const KEYB_BUFFER_SIZE := LineEditor.KEYB_BUFFER_SIZE
  const VIDEO := 0
  const TOO_MUCH := "too much to read!!\n"

  /** The cursor and the length of the saved key buffer that `terminal_list` keeps for a terminal. */
  datatype Terminal = Terminal(xCursor: int, yCursor: int, keybIndex: int)

  /** The backing page of terminal `tid` lies `tid + 1` pages above video memory. */
  function VideoPage(tid: nat): nat {
    PAGE_CELLS * (tid + 1)
  }

  class TextConsole {
    const mem: array<Cell>
    const displayBuf: array<char>
    const prevScreenX: array<int>
    const lineIsFull: array<int>
    const keyBuffer: array<char>
    const terminals: array<Terminal>
    const savedKeys: array<char>
    var videoMem: nat
    var screenX: int
    var screenY: int
    var displayBufIndex: int
    var keybPressed: bool
    var keybIndex: int
    var displayed: int
    var scheduled: int

    ghost predicate Valid()
      reads this, mem, displayBuf, prevScreenX, lineIsFull, keyBuffer, terminals, savedKeys
    {
      && mem.Length == PAGE_CELLS * (TERMINALS + 1)
      && displayBuf.Length == DISPLAY_LEN
      && displayBuf != keyBuffer && displayBuf != savedKeys && keyBuffer != savedKeys
      && prevScreenX.Length == ROWS && lineIsFull.Length == ROWS && prevScreenX != lineIsFull
      && keyBuffer.Length == KEYB_BUFFER_SIZE
      && terminals.Length == TERMINALS
      && savedKeys.Length == TERMINALS * KEYB_BUFFER_SIZE
      && 0 <= videoMem <= VideoPage(TERMINALS - 1)
      && 0 <= screenX < COLS && 0 <= screenY < ROWS
      && 0 <= displayBufIndex <= DISPLAY_LEN
      && 0 <= keybIndex <= KEYB_BUFFER_SIZE
      && 0 <= displayed < TERMINALS && 0 <= scheduled < TERMINALS
      && forall t :: 0 <= t < TERMINALS ==>
                       && 0 <= terminals[t].xCursor < COLS && 0 <= terminals[t].yCursor < ROWS
                       && 0 <= terminals[t].keybIndex <= KEYB_BUFFER_SIZE
    }

    ghost function CurrentScreen(): Screen
      requires Valid()
      reads this, mem, displayBuf, prevScreenX, lineIsFull, keyBuffer, terminals, savedKeys
    {
      Screen(RowsAt(mem[..], videoMem), screenX, screenY)
    }

    ghost function Model(): (con: Console)
      requires Valid()
      reads this, mem, displayBuf, prevScreenX, lineIsFull, keyBuffer, terminals, savedKeys
      ensures con.Valid()
    {
      Console(CurrentScreen(), displayBuf[..], displayBufIndex, prevScreenX[..], lineIsFull[..])
    }

    /** The console as `terminal_init` leaves it; video memory and the pages hold whatever they held. */
    constructor ()
      ensures AtRest() && CurrentScreen() == VirtualScreen(0) && displayed == 0 && scheduled == 0
      ensures forall t :: 0 <= t < TERMINALS ==> Line(t) == [] && terminals[t] == Terminal(0, 0, 0)
      ensures displayBufIndex == 0 && screenX == 0 && screenY == 0
      ensures displayBuf.Length == 2000 && keyBuffer.Length == 128
      ensures forall r :: 0 <= r < ROWS ==> lineIsFull[r] == 0 && prevScreenX[r] == 0
    {
      mem := new Cell[PAGE_CELLS * (TERMINALS + 1)];
      displayBuf := new char[DISPLAY_LEN](_ => '\0');
      prevScreenX := new int[ROWS](_ => 0);
      lineIsFull := new int[ROWS](_ => 0);
      keyBuffer := new char[KEYB_BUFFER_SIZE](_ => '\0');
      terminals := new Terminal[TERMINALS](_ => Terminal(0, 0, 0));
      savedKeys := new char[TERMINALS * KEYB_BUFFER_SIZE](_ => '\0');
      videoMem, screenX, screenY, displayBufIndex := VIDEO, 0, 0, 0;
      keybPressed, keybIndex, displayed, scheduled := false, 0, 0, 0;
      new;
      assert forall t :: 0 <= t < TERMINALS ==> SavedLine(t) == [];
    }

    /** Writes a glyph with its attribute at the cursor. */
    method Store(c: char)
      requires Valid()
      modifies mem
      ensures Valid() && SameOutside(old(mem[..]), mem[..], videoMem)
      ensures CurrentScreen() == old(CurrentScreen()).(rows := Plot(old(CurrentScreen()).rows, screenX, screenY, c))
    {
      StorePlots(mem[..], videoMem, screenX, screenY, c);
      mem[videoMem + COLS * screenY + screenX] := Ink(c);
      assert mem[..] == old(mem[..])[videoMem + COLS * screenY + screenX := Ink(c)];
    }

    /** Blanks the bottom row cell by cell. */
    method BlankLastRow()
      requires Valid()
      modifies mem
      ensures Valid()
      ensures var last := videoMem + SCREEN_CELLS - COLS;
              mem[..] == old(mem[..])[..last] + Blanks(COLS) + old(mem[..])[last + COLS..]
    {
      var last := videoMem + SCREEN_CELLS - COLS;
      var i := 0;
      while i < COLS
        invariant 0 <= i <= COLS
        invariant forall k :: 0 <= k < mem.Length ==>
                                mem[k] == if last <= k < last + i then Ink(' ') else old(mem[k])
      {
        mem[last + i] := Ink(' ');
        i := i + 1;
      }
      assert mem[..] == old(mem[..])[..last] + Blanks(COLS) + old(mem[..])[last + COLS..];
    }

    /** Moves the per-row undo records up with the rows. */
    method ShiftMarks(filled: bool)
      requires Valid()
      modifies prevScreenX, lineIsFull
      ensures Valid()
      ensures lineIsFull[..] ==
              if filled then ShiftUp(old(lineIsFull[..]))[ROWS - 2 := 1] else ShiftUp(old(lineIsFull[..]))
      ensures prevScreenX[..] == ShiftUp(old(prevScreenX[..]))
    {
      var j := 0;
      while j < ROWS - 1
        invariant 0 <= j <= ROWS - 1
        invariant forall k :: 0 <= k < ROWS ==>
                                && lineIsFull[k] == (if k < j then old(lineIsFull[k + 1]) else old(lineIsFull[k]))
                                && prevScreenX[k] == (if k < j then old(prevScreenX[k + 1]) else old(prevScreenX[k]))
      {
        lineIsFull[j] := lineIsFull[j + 1];
        prevScreenX[j] := prevScreenX[j + 1];
        j := j + 1;
      }
      assert lineIsFull[..] == ShiftUp(old(lineIsFull[..]));
      assert prevScreenX[..] == ShiftUp(old(prevScreenX[..]));
      if filled {
        lineIsFull[ROWS - 2] := 1;
        assert lineIsFull[..] == ShiftUp(old(lineIsFull[..]))[ROWS - 2 := 1];
      }
    }

    /** Scrolls the screen by one row; a row that scrolled because it was filled is marked so. */
    method Scroll(filled: bool)
      requires Valid()
      modifies mem, prevScreenX, lineIsFull
      ensures Valid() && SameOutside(old(mem[..]), mem[..], videoMem)
      ensures RowsAt(mem[..], videoMem) == old(RowsAt(mem[..], videoMem))[1..] + [Blanks(COLS)]
      ensures prevScreenX[..] == ShiftUp(old(prevScreenX[..]))
      ensures lineIsFull[..] ==
              if filled then ShiftUp(old(lineIsFull[..]))[ROWS - 2 := 1] else ShiftUp(old(lineIsFull[..]))
    {
      ghost var before := mem[..];
      Memmove(mem, videoMem, videoMem + COLS, SCREEN_CELLS - COLS);
      ghost var moved := mem[..];
      ShiftMarks(filled);
      BlankLastRow();
      ScrolledMemory(before, moved, mem[..], videoMem);
    }

    method ForgetLast()
      requires Valid() && displayBufIndex > 0
      modifies this`displayBufIndex, displayBuf
      ensures Valid() && displayBufIndex == old(displayBufIndex) - 1
      ensures displayBuf[..] == old(displayBuf[..])[displayBufIndex := '\0']
    {
      displayBufIndex := displayBufIndex - 1;
      displayBuf[displayBufIndex] := '\0';
      assert displayBuf[..] == old(displayBuf[..])[displayBufIndex := '\0'];
    }

    method RememberChar(c: char)
      requires Valid() && displayBufIndex < DISPLAY_LEN
      modifies this`displayBufIndex, displayBuf
      ensures Valid() && displayBufIndex == old(displayBufIndex) + 1
      ensures displayBuf[..] == old(displayBuf[..])[old(displayBufIndex) := c]
    {
      displayBuf[displayBufIndex] := c;
      assert displayBuf[..] == old(displayBuf[..])[displayBufIndex := c];
      displayBufIndex := displayBufIndex + 1;
    }

    /** Where a backspace moves the cursor; the undo buffer loses its last character. */
    method StepBack()
      requires Valid() && Model().BackspaceInRange()
      modifies this`screenX, this`screenY, this`displayBufIndex, displayBuf, lineIsFull
      ensures Valid()
      ensures Model() == Forget(Retreat(old(Model())))
    {
      if displayBuf[displayBufIndex - 1] == '\t' {
        ForgetLast();
        screenX := screenX - SPACES_NUM;
      } else if screenX == 0 && screenY != 0 {
        ForgetLast();
        if lineIsFull[screenY - 1] == 1 {
          screenX := COLS - 1;
          screenY := screenY - 1;
          lineIsFull[screenY] := 0;
          assert lineIsFull[..] == old(lineIsFull[..])[screenY := 0];
        } else {
          screenY := screenY - 1;
          screenX := prevScreenX[screenY];
        }
      } else {
        ForgetLast();
        if screenX != 0 {
          screenX := screenX - 1;
        }
      }
    }

    /** The backspace branch of `putc`. */
    method PutBackspace()
      requires Valid() && Model().BackspaceInRange()
      modifies this`screenX, this`screenY, this`displayBufIndex, mem, displayBuf, lineIsFull
      ensures Valid() && SameOutside(old(mem[..]), mem[..], videoMem)
      ensures Model() == TakeBack(old(Model()))
    {
      Store(' ');
      StepBack();
    }

    /** Ends the cursor row, scrolling from the bottom one. */
    method EndRow(filled: bool)
      requires Valid()
      modifies this`screenX, this`screenY, mem, prevScreenX, lineIsFull
      ensures Valid() && SameOutside(old(mem[..]), mem[..], videoMem)
      ensures Model() ==
              NoteRowEnd(old(Model()), filled).(screen := BreakRow(old(CurrentScreen()).rows, old(screenY)))
    {
      if !filled {
        prevScreenX[screenY] := screenX;
        assert prevScreenX[..] == old(prevScreenX[..])[screenY := screenX];
      }
      screenX := 0;
      if screenY == ROWS - 1 {
        Scroll(filled);
      } else {
        if filled {
          lineIsFull[screenY] := 1;
          assert lineIsFull[..] == old(lineIsFull[..])[screenY := 1];
        }
        screenY := screenY + 1;
      }
    }

    /** The newline branch of `putc`. */
    method PutBreak(c: char)
      requires Valid() && displayBufIndex < DISPLAY_LEN && IsBreak(c)
      modifies this`screenX, this`screenY, this`displayBufIndex, mem, displayBuf, prevScreenX, lineIsFull
      ensures Valid() && SameOutside(old(mem[..]), mem[..], videoMem)
      ensures Model() == Note(old(Model()), c).(screen := Advance(old(CurrentScreen()), c))
    {
      Store(' ');
      RememberChar(c);
      EndRow(false);
    }

    /** One more of the spaces drawn from column `x` on. */
    method DrawSpace(ghost rows: seq<seq<Cell>>, ghost x: int, ghost i: nat)
      requires Valid() && screenX + 1 < COLS && 0 <= x && screenX == x + i && WellShaped(rows)
      requires RowsAt(mem[..], videoMem) == Spaced(rows, x, screenY, i)
      modifies this`screenX, mem
      ensures Valid() && SameOutside(old(mem[..]), mem[..], videoMem) && screenX == old(screenX) + 1
      ensures RowsAt(mem[..], videoMem) == Spaced(rows, x, screenY, i + 1)
    {
      SpacedStep(rows, x, screenY, i);
      Store(' ');
      screenX := screenX + 1;
    }

    /** Four spaces from the cursor on. */
    method DrawSpaces()
      requires Valid() && screenX + SPACES_NUM < COLS
      modifies this`screenX, mem
      ensures Valid() && SameOutside(old(mem[..]), mem[..], videoMem)
      ensures screenX == old(screenX) + SPACES_NUM
      ensures RowsAt(mem[..], videoMem) == PlotSpaces(old(RowsAt(mem[..], videoMem)), old(screenX), screenY)
    {
      ghost var x := screenX;
      ghost var rows := RowsAt(mem[..], videoMem);
      SpacedStep(rows, x, screenY, 0);
      var i := 0;
      while i < SPACES_NUM
        invariant 0 <= i <= SPACES_NUM && screenX == x + i
        invariant Valid() && SameOutside(old(mem[..]), mem[..], videoMem)
        invariant RowsAt(mem[..], videoMem) == Spaced(rows, x, screenY, i)
      {
        DrawSpace(rows, x, i);
        i := i + 1;
      }
    }

    /** The Tab branch of `putc` when there is room. */
    method PutTab(c: char)
      requires Valid() && displayBufIndex < DISPLAY_LEN && c == '\t' && !TabDropped(c, screenX)
      modifies this`screenX, this`displayBufIndex, mem, displayBuf
      ensures Valid() && SameOutside(old(mem[..]), mem[..], videoMem)
      ensures Model() == Note(old(Model()), c).(screen := Advance(old(CurrentScreen()), c))
    {
      RememberChar(c);
      DrawSpaces();
    }

    /** The branch of `putc` that draws a glyph. */
    method PutGlyph(c: char)
      requires Valid() && displayBufIndex < DISPLAY_LEN && c != BACKSPACE && !IsBreak(c) && c != '\t'
      modifies this`screenX, this`screenY, this`displayBufIndex, mem, displayBuf, prevScreenX, lineIsFull
      ensures Valid() && SameOutside(old(mem[..]), mem[..], videoMem)
      ensures Model() == Note(old(Model()), c).(screen := Advance(old(CurrentScreen()), c))
    {
      Store(c);
      RememberChar(c);
      if screenX + 1 < COLS {
        screenX := screenX + 1;
      } else {
        EndRow(true);
      }
    }

    /** Wipes a display buffer that has filled up. */
    method RecycleDisplay()
      requires Valid()
      modifies this`displayBufIndex, displayBuf
      ensures Valid() && Model() == Recycle(old(Model()))
    {
      if displayBufIndex == DISPLAY_LEN {
        displayBufIndex := 0;
        var i := 0;
        while i < DISPLAY_LEN
          invariant 0 <= i <= DISPLAY_LEN && displayBufIndex == 0
          invariant forall k :: 0 <= k < i ==> displayBuf[k] == '\0'
        {
          displayBuf[i] := '\0';
          i := i + 1;
        }
        assert displayBuf[..] == seq(DISPLAY_LEN, _ => '\0');
      }
    }

    /** The terminal `putc` charges its cursor to. */
    function Target(): int
      reads this
    {
      if keybPressed then displayed else scheduled
    }

    /** Everything `putc` does before it draws the cursor mark. */
    method PutBody(c: char)
      requires Valid() && displayBufIndex < DISPLAY_LEN && !TabDropped(c, screenX)
      requires c == BACKSPACE ==> Model().BackspaceInRange()
      modifies this`screenX, this`screenY, this`displayBufIndex, mem, displayBuf, prevScreenX, lineIsFull
      ensures Valid() && SameOutside(old(mem[..]), mem[..], videoMem)
      ensures Model() ==
              if c == BACKSPACE then TakeBack(old(Model()))
              else Note(old(Model()), c).(screen := Advance(old(CurrentScreen()), c))
    {
      if c == BACKSPACE {
        PutBackspace();
      } else if IsBreak(c) {
        PutBreak(c);
      } else if c == '\t' {
        PutTab(c);
      } else {
        PutGlyph(c);
      }
    }

    /** Draws the cursor mark and records the cursor for a terminal. */
    method DrawMark(tid: int)
      requires Valid() && 0 <= tid < TERMINALS
      modifies mem, terminals
      ensures Valid() && SameOutside(old(mem[..]), mem[..], videoMem)
      ensures Model() == old(Model()).(screen := ShowCursor(old(CurrentScreen())))
      ensures terminals[..] ==
              old(terminals[..])[tid := old(terminals[tid]).(xCursor := screenX, yCursor := screenY)]
    {
      Store('_');
      terminals[tid] := terminals[tid].(xCursor := screenX, yCursor := screenY);
      assert terminals[..] == old(terminals[..])[tid := terminals[tid]];
    }

    /** What `putc` does with a character that is not a dropped Tab. */
    method PutAndMark(tid: int, c: char)
      requires Valid() && displayBufIndex < DISPLAY_LEN && !TabDropped(c, screenX) && 0 <= tid < TERMINALS
      requires c == BACKSPACE ==> Model().BackspaceInRange()
      modifies this`screenX, this`screenY, this`displayBufIndex, mem, displayBuf, prevScreenX, lineIsFull, terminals
      ensures Valid() && SameOutside(old(mem[..]), mem[..], videoMem)
      ensures Model() == Put(old(Model()), c)
      ensures terminals[..] ==
              old(terminals[..])[tid := old(terminals[tid]).(xCursor := screenX, yCursor := screenY)]
    {
      PutBody(c);
      DrawMark(tid);
    }

    /** `putc`: echoes one character on the screen `videoMem` points at and records the cursor. */
    method Putc(c: char)
      requires Valid() && (c == BACKSPACE ==> Model().BackspaceInRange())
      modifies this`screenX, this`screenY, this`displayBufIndex, this`keybPressed,
               mem, displayBuf, prevScreenX, lineIsFull, terminals
      ensures Valid() && !keybPressed && SameOutside(old(mem[..]), mem[..], videoMem)
      ensures Model() == Put(old(Model()), c)
      ensures var t := old(Target());
              terminals[..] ==
              if TabDropped(c, old(screenX)) then old(terminals[..])
              else old(terminals[..])[t := old(terminals[t]).(xCursor := screenX, yCursor := screenY)]
    {
      var tid := Target();
      keybPressed := false;
      RecycleDisplay();
      if c == '\t' && screenX >= COLS - SPACES_NUM - 1 {
        return;
      }
      PutAndMark(tid, c);
    }

    /** Where the screen of a terminal lives: video memory if it is displayed, else its page. */
    function ScreenBase(t: int): nat
      requires 0 <= t < TERMINALS
      reads this
    {
      if t == displayed then VIDEO else VideoPage(t)
    }

    ghost function VirtualScreen(t: int): (s: Screen)
      requires Valid() && 0 <= t < TERMINALS
      reads this, mem, displayBuf, prevScreenX, lineIsFull, keyBuffer, terminals, savedKeys
      ensures s.Valid()
    {
      Screen(RowsAt(mem[..], ScreenBase(t)), terminals[t].xCursor, terminals[t].yCursor)
    }

    ghost function SavedLine(t: int): seq<char>
      requires Valid() && 0 <= t < TERMINALS
      reads this, mem, displayBuf, prevScreenX, lineIsFull, keyBuffer, terminals, savedKeys
    {
      savedKeys[KEYB_BUFFER_SIZE * t..KEYB_BUFFER_SIZE * t + terminals[t].keybIndex]
    }

    /** A terminal's line if terminal `shown` were the displayed one: the key buffer holds the displayed
        terminal's, the others are saved. */
    ghost function LineIf(t: int, shown: int): seq<char>
      requires Valid() && 0 <= t < TERMINALS
      reads this, mem, displayBuf, prevScreenX, lineIsFull, keyBuffer, terminals, savedKeys
    {
      if t == shown then keyBuffer[..keybIndex] else SavedLine(t)
    }

    /** The line being typed on a terminal. */
    ghost function Line(t: int): seq<char>
      requires Valid() && 0 <= t < TERMINALS
      reads this, mem, displayBuf, prevScreenX, lineIsFull, keyBuffer, terminals, savedKeys
    {
      LineIf(t, displayed)
    }

    ghost function Table(): (d: Desk.Desk)
      requires Valid()
      reads this, mem, displayBuf, prevScreenX, lineIsFull, keyBuffer, terminals, savedKeys
      ensures d.Valid()
    {
      Desk.Desk([VirtualScreen(0), VirtualScreen(1), VirtualScreen(2)], [Line(0), Line(1), Line(2)],
                displayed, scheduled, screenX, screenY)
    }

    /** The displayed terminal with its line, as the line editor sees it. */
    ghost function DisplayedEditor(): (e: LineEditor.Editor)
      requires Valid()
      reads this, mem, displayBuf, prevScreenX, lineIsFull, keyBuffer, terminals, savedKeys
      ensures e.con.Valid()
    {
      LineEditor.Editor(Model().(screen := VirtualScreen(displayed)), Line(displayed))
    }

    /** Between whole steps `putc` is aimed at the scheduled terminal's screen. */
    ghost predicate AtRest()
      reads this, mem, displayBuf, prevScreenX, lineIsFull, keyBuffer, terminals, savedKeys
    {
      Valid() && videoMem == ScreenBase(scheduled) && !keybPressed
    }

    /** One `putc` aimed at the screen of terminal `t` and charged to it. */
    method PutcFor(t: int, c: char)
      requires Valid() && (c == BACKSPACE ==> Model().BackspaceInRange())
      requires 0 <= t < TERMINALS && videoMem == ScreenBase(t) && Target() == t
      modifies this`screenX, this`screenY, this`displayBufIndex, this`keybPressed,
               mem, displayBuf, prevScreenX, lineIsFull, terminals
      ensures Valid() && !keybPressed && videoMem == ScreenBase(t)
      ensures Model() == Put(old(Model()), c)
      ensures VirtualScreen(t) ==
              if TabDropped(c, old(screenX)) then old(VirtualScreen(t)) else CurrentScreen()
      ensures forall u :: 0 <= u < TERMINALS && u != t ==> VirtualScreen(u) == old(VirtualScreen(u))
      ensures forall u :: 0 <= u < TERMINALS ==> Line(u) == old(Line(u))
    {
      ghost var before := mem[..];
      Putc(c);
      forall u | 0 <= u < TERMINALS && u != t
        ensures VirtualScreen(u) == old(VirtualScreen(u))
      {
        OtherScreen(before, mem[..], videoMem, ScreenBase(u));
      }
    }

    /** `putc` called for a process of the scheduled terminal. */
    method OutputChar(c: char)
      requires AtRest() && (c == BACKSPACE ==> Model().BackspaceInRange())
      modifies this`screenX, this`screenY, this`displayBufIndex, this`keybPressed,
               mem, displayBuf, prevScreenX, lineIsFull, terminals
      ensures AtRest()
      ensures Model() == Put(old(Model()), c) && Desk.Around(Table()) == Desk.Around(old(Table()))
      ensures c != BACKSPACE ==> Table() == Desk.WriteChar(old(Table()), c)
    {
      ghost var desk := Table();
      PutcFor(scheduled, c);
      Desk.SameAroundIs(desk, Table());
      if c != BACKSPACE {
        Desk.WriteCharIs(desk, Table(), c);
      }
    }

    /** The console once `n` characters of the text have been written from console `con` on desk `desk`. */
    ghost predicate Written(con: Console, desk: Desk.Desk, text: seq<char>, n: int)
      reads this, mem, displayBuf, prevScreenX, lineIsFull, keyBuffer, terminals, savedKeys
    {
      && AtRest() && 0 <= n <= |text| && con.Valid() && desk.Valid()
      && PutsInRange(con, text) && PutsInRange(con, text[..n])
      && Model() == PutAll(con, text[..n])
      && Desk.Around(Table()) == Desk.Around(desk)
      && (BACKSPACE !in text ==> Table() == Desk.Write(desk, text[..n]))
    }

    /** One turn of the loop of `terminal_write`. */
    method WriteNext(text: seq<char>, n: int, ghost con: Console, ghost desk: Desk.Desk)
      requires Written(con, desk, text, n) && n < |text|
      modifies this`screenX, this`screenY, this`displayBufIndex, this`keybPressed,
               mem, displayBuf, prevScreenX, lineIsFull, terminals
      ensures Written(con, desk, text, n + 1)
    {
      PutAllStep(con, text, n);
      Desk.WriteStepsOn(desk, text, n);
      OutputChar(text[n]);
    }

    /** `terminal_write`: the whole buffer goes to the screen of the scheduled terminal. */
    method TerminalWrite(text: seq<char>) returns (n: int)
      requires AtRest() && PutsInRange(Model(), text)
      modifies this`screenX, this`screenY, this`displayBufIndex, this`keybPressed,
               mem, displayBuf, prevScreenX, lineIsFull, terminals
      ensures AtRest() && n == |text|
      ensures Model() == PutAll(old(Model()), text) && Desk.Around(Table()) == Desk.Around(old(Table()))
      ensures BACKSPACE !in text ==> Table() == Desk.Write(old(Table()), text)
    {
      ghost var con, desk := Model(), Table();
      n := 0;
      while n < |text|
        invariant Written(con, desk, text, n)
      {
        WriteNext(text, n, con, desk);
        n := n + 1;
      }
      assert text[..n] == text;
    }

    /** What the keyboard handler does first: echo goes to video memory at the displayed cursor. */
    method AimAtDisplayed()
      requires Valid()
      modifies this`videoMem, this`screenX, this`screenY
      ensures Valid() && videoMem == VIDEO
      ensures forall t :: 0 <= t < TERMINALS ==> VirtualScreen(t) == old(VirtualScreen(t)) && Line(t) == old(Line(t))
      ensures CurrentScreen() == VirtualScreen(displayed) && Model() == DisplayedEditor().con
      ensures DisplayedEditor() == old(DisplayedEditor())
      ensures Table() == Desk.LoadDisplayed(old(Table()))
    {
      videoMem := VIDEO;
      screenX, screenY := terminals[displayed].xCursor, terminals[displayed].yCursor;
    }

    /** What the keyboard handler does last: `putc` is aimed at the scheduled terminal again. */
    method AimAtScheduled()
      requires Valid()
      modifies this`videoMem
      ensures Valid() && videoMem == ScreenBase(scheduled) && (!keybPressed ==> AtRest())
      ensures forall t :: 0 <= t < TERMINALS ==> VirtualScreen(t) == old(VirtualScreen(t)) && Line(t) == old(Line(t))
      ensures Table() == old(Table()) && DisplayedEditor() == old(DisplayedEditor())
    {
      if scheduled != displayed {
        videoMem := VideoPage(scheduled);
      } else {
        videoMem := VIDEO;
      }
    }

    /** `putc` is aimed at the displayed terminal and its cursor. */
    ghost predicate Aimed()
      reads this, mem, displayBuf, prevScreenX, lineIsFull, keyBuffer, terminals, savedKeys
    {
      Valid() && videoMem == VIDEO && CurrentScreen() == VirtualScreen(displayed)
    }

    /** Takes the last key back and erases its echo. */
    method EraseKey()
      requires Aimed() && keybIndex != 0 && Model().BackspaceInRange()
      modifies this`screenX, this`screenY, this`displayBufIndex, this`keybPressed,
               this`keybIndex, mem, displayBuf, prevScreenX, lineIsFull, terminals
      ensures Aimed() && !keybPressed
      ensures DisplayedEditor() == LineEditor.Press(old(DisplayedEditor()), BACKSPACE)
      ensures forall t :: 0 <= t < TERMINALS && t != displayed ==>
                            VirtualScreen(t) == old(VirtualScreen(t)) && Line(t) == old(Line(t))
    {
      keybIndex := keybIndex - 1;
      keybPressed := true;
      assert keyBuffer[..keybIndex] == old(keyBuffer[..keybIndex])[..keybIndex];
      PutcFor(displayed, BACKSPACE);
    }

    /** Appends a key to the line of the displayed terminal. */
    method StoreKey(c: char)
      requires Aimed() && keybIndex < KEYB_BUFFER_SIZE
      modifies this`keybIndex, this`keybPressed, keyBuffer
      ensures Aimed() && keybPressed
      ensures Model() == old(Model())
      ensures Line(displayed) == old(Line(displayed)) + [c]
      ensures forall t :: 0 <= t < TERMINALS ==> VirtualScreen(t) == old(VirtualScreen(t))
      ensures forall t :: 0 <= t < TERMINALS && t != displayed ==> Line(t) == old(Line(t))
    {
      keybPressed := true;
      keyBuffer[keybIndex] := c;
      keybIndex := keybIndex + 1;
      assert keyBuffer[..keybIndex] == old(keyBuffer[..keybIndex]) + [c];
    }

    /** Stores a key and echoes it. */
    method EchoKey(c: char)
      requires Aimed() && keybIndex < KEYB_BUFFER_SIZE && c != BACKSPACE
      modifies this`screenX, this`screenY, this`displayBufIndex, this`keybPressed,
               this`keybIndex, mem, displayBuf, prevScreenX, lineIsFull, terminals, keyBuffer
      ensures Aimed() && !keybPressed
      ensures DisplayedEditor() == LineEditor.Press(old(DisplayedEditor()), c)
      ensures forall t :: 0 <= t < TERMINALS && t != displayed ==>
                            VirtualScreen(t) == old(VirtualScreen(t)) && Line(t) == old(Line(t))
    {
      StoreKey(c);
      PutcFor(displayed, c);
    }

    /** The character part of the keyboard handler; a backspace with no key held is ignored. */
    method HandleKey(c: char)
      requires Aimed() && !keybPressed && DisplayedEditor().Accepts(c)
      requires c != BACKSPACE ==> keybIndex < KEYB_BUFFER_SIZE
      modifies this`screenX, this`screenY, this`displayBufIndex, this`keybPressed,
               this`keybIndex, mem, displayBuf, prevScreenX, lineIsFull, terminals, keyBuffer
      ensures Aimed() && !keybPressed
      ensures DisplayedEditor() == LineEditor.Press(old(DisplayedEditor()), c)
      ensures forall t :: 0 <= t < TERMINALS && t != displayed ==>
                            VirtualScreen(t) == old(VirtualScreen(t)) && Line(t) == old(Line(t))
      ensures c == BACKSPACE && old(keybIndex) == 0 ==> Table() == old(Table())
    {
      if c == BACKSPACE {
        if keybIndex != 0 {
          EraseKey();
        }
      } else {
        EchoKey(c);
      }
    }

    /** Handling a key moves the lines of the desk on. */
    method EditLine(c: char)
      requires Aimed() && !keybPressed && DisplayedEditor().Accepts(c)
      requires c != BACKSPACE ==> keybIndex < KEYB_BUFFER_SIZE
      modifies this`screenX, this`screenY, this`displayBufIndex, this`keybPressed,
               this`keybIndex, mem, displayBuf, prevScreenX, lineIsFull, terminals, keyBuffer
      ensures Aimed() && !keybPressed
      ensures DisplayedEditor() == LineEditor.Press(old(DisplayedEditor()), c)
      ensures forall t :: 0 <= t < TERMINALS && t != displayed ==>
                            VirtualScreen(t) == old(VirtualScreen(t)) && Line(t) == old(Line(t))
      ensures Desk.BoardOf(Table()) == KeyLines.After(Desk.BoardOf(old(Table())), KeyLines.Key(c))
      ensures c == BACKSPACE && old(keybIndex) == 0 ==> Table() == old(Table())
    {
      ghost var board := Desk.BoardOf(Table());
      HandleKey(c);
      KeyLines.AfterKeyIs(board, Desk.BoardOf(Table()), c);
    }

    /** Handling a key moves the lines of the desk on, and a character key is echoed. */
    method TypeKey(c: char)
      requires Aimed() && !keybPressed && DisplayedEditor().Accepts(c)
      requires c != BACKSPACE ==> keybIndex < KEYB_BUFFER_SIZE
      modifies this`screenX, this`screenY, this`displayBufIndex, this`keybPressed,
               this`keybIndex, mem, displayBuf, prevScreenX, lineIsFull, terminals, keyBuffer
      ensures Valid() && !keybPressed
      ensures DisplayedEditor() == LineEditor.Press(old(DisplayedEditor()), c)
      ensures forall t :: 0 <= t < TERMINALS && t != displayed ==>
                            VirtualScreen(t) == old(VirtualScreen(t)) && Line(t) == old(Line(t))
      ensures Desk.BoardOf(Table()) == KeyLines.After(Desk.BoardOf(old(Table())), KeyLines.Key(c))
      ensures c != BACKSPACE ==> Table() == Desk.Echo(old(Table()), c)
      ensures c == BACKSPACE && old(keybIndex) == 0 ==> Table() == old(Table())
    {
      ghost var desk := Table();
      EditLine(c);
      if c != BACKSPACE {
        Desk.EchoIs(desk, Table(), c);
      }
    }

    /** The keyboard handler on a key that has a character. */
    method KeyPress(c: char)
      requires AtRest() && DisplayedEditor().Accepts(c)
      requires c != BACKSPACE ==> keybIndex < KEYB_BUFFER_SIZE
      modifies this`videoMem, this`screenX, this`screenY, this`displayBufIndex, this`keybPressed,
               this`keybIndex, mem, displayBuf, prevScreenX, lineIsFull, terminals, keyBuffer
      ensures AtRest()
      ensures DisplayedEditor() == LineEditor.Press(old(DisplayedEditor()), c)
      ensures forall t :: 0 <= t < TERMINALS && t != displayed ==>
                            VirtualScreen(t) == old(VirtualScreen(t)) && Line(t) == old(Line(t))
      ensures Desk.BoardOf(Table()) == KeyLines.After(Desk.BoardOf(old(Table())), KeyLines.Key(c))
      ensures c != BACKSPACE ==> Table() == Desk.Echo(old(Table()), c)
      ensures c == BACKSPACE && old(keybIndex) == 0 ==> Table() == Desk.LoadDisplayed(old(Table()))
    {
      AimAtDisplayed();
      TypeKey(c);
      AimAtScheduled();
    }

    /** The keyboard handler on a code without a character that is not one of the modifier keys: the
        release of a key, or a function key alone. */
    method SilentKey()
      requires AtRest()
      modifies this`videoMem, this`screenX, this`screenY
      ensures AtRest()
      ensures DisplayedEditor() == old(DisplayedEditor())
      ensures Table() == Desk.LoadDisplayed(old(Table()))
    {
      AimAtDisplayed();
      AimAtScheduled();
    }

    /** The keyboard handler on a modifier key. */
    method ModifierKey()
      requires AtRest()
      modifies this`videoMem
      ensures AtRest() && Table() == old(Table()) && DisplayedEditor() == old(DisplayedEditor())
    {
      AimAtScheduled();
    }

    /** Loads the cursor of the terminal scheduled next and aims `putc` at its screen. */
    method MemorySwitch()
      requires Valid()
      modifies this`videoMem, this`screenX, this`screenY
      ensures Valid() && videoMem == ScreenBase(Next(scheduled))
      ensures forall t :: 0 <= t < TERMINALS ==> VirtualScreen(t) == old(VirtualScreen(t)) && Line(t) == old(Line(t))
      ensures screenX == VirtualScreen(Next(scheduled)).x && screenY == VirtualScreen(Next(scheduled)).y
    {
      var next := Next(scheduled);
      screenX, screenY := terminals[next].xCursor, terminals[next].yCursor;
      if next != displayed {
        videoMem := VideoPage(next);
      } else {
        videoMem := VIDEO;
      }
    }

    method Schedule(next: int)
      requires Valid() && 0 <= next < TERMINALS
      modifies this`scheduled
      ensures Valid() && Table() == old(Table()).(scheduled := next)
    {
      scheduled := next;
    }

    /** The desk once the memory is switched: only the shared cursor has moved. */
    method LoadNext()
      requires AtRest()
      modifies this`videoMem, this`screenX, this`screenY
      ensures Valid() && videoMem == ScreenBase(Next(scheduled)) && !keybPressed
      ensures var next := old(Table()).screens[Next(scheduled)];
              Table() == old(Table()).(x := next.x, y := next.y)
    {
      ghost var desk := Table();
      MemorySwitch();
      assert Table().screens == desk.screens && Table().lines == desk.lines;
    }

    /** The console's part of the timer interrupt: the next terminal is scheduled. */
    method TimerTick()
      requires AtRest()
      modifies this`videoMem, this`screenX, this`screenY, this`scheduled
      ensures AtRest()
      ensures Table() == Desk.Tick(old(Table()))
    {
      LoadNext();
      Schedule(Next(scheduled));
    }

    /** Swaps the two screens in memory: the displayed one goes to its page, the other comes to video memory. */
    method SwapScreens(n: int)
      requires Valid() && 0 <= n < TERMINALS && n != displayed
      modifies mem
      ensures Valid()
      ensures RowsAt(mem[..], VideoPage(displayed)) == old(RowsAt(mem[..], VIDEO))
      ensures RowsAt(mem[..], VIDEO) == old(RowsAt(mem[..], VideoPage(n)))
      ensures forall t: nat :: t < TERMINALS && t != displayed ==>
                                 RowsAt(mem[..], VideoPage(t)) == old(RowsAt(mem[..], VideoPage(t)))
    {
      ghost var m0 := mem[..];
      Memcpy(mem, VideoPage(displayed), VIDEO, PAGE_CELLS);
      ghost var m1 := mem[..];
      Memcpy(mem, VIDEO, VideoPage(n), PAGE_CELLS);
      MovedScreen(m0, VideoPage(displayed), VIDEO);
      MovedScreen(m1, VIDEO, VideoPage(n));
      forall t: nat | t < TERMINALS
        ensures RowsAt(mem[..], VideoPage(t)) == RowsAt(m1, VideoPage(t))
        ensures t != displayed ==> RowsAt(m1, VideoPage(t)) == RowsAt(m0, VideoPage(t))
      {
        MovedElsewhere(m1, VIDEO, VideoPage(n), VideoPage(t));
        if t != displayed {
          MovedElsewhere(m0, VideoPage(displayed), VIDEO, VideoPage(t));
        }
      }
    }

    /** Saves the key buffer of the displayed terminal in its own array. */
    method SaveKeys()
      requires Valid()
      modifies savedKeys, terminals
      ensures Valid()
      ensures var lo := KEYB_BUFFER_SIZE * displayed;
              savedKeys[..] == old(savedKeys[..])[..lo] + keyBuffer[..keybIndex] + old(savedKeys[..])[lo + keybIndex..]
      ensures terminals[..] == old(terminals[..])[displayed := old(terminals[displayed]).(keybIndex := keybIndex)]
    {
      var lo := KEYB_BUFFER_SIZE * displayed;
      terminals[displayed] := terminals[displayed].(keybIndex := keybIndex);
      var i := 0;
      while i < keybIndex
        invariant 0 <= i <= keybIndex
        invariant forall k :: 0 <= k < savedKeys.Length ==>
                                savedKeys[k] == if lo <= k < lo + i then keyBuffer[k - lo] else old(savedKeys[k])
        modifies savedKeys
      {
        savedKeys[lo + i] := keyBuffer[i];
        i := i + 1;
      }
      assert savedKeys[..] ==
             old(savedKeys[..])[..lo] + keyBuffer[..keybIndex] + old(savedKeys[..])[lo + keybIndex..];
      assert terminals[..] == old(terminals[..])[displayed := terminals[displayed]];
    }

    /** Zeroes the keys held. */
    method CleanKeybBuffer()
      requires Valid()
      modifies this`keybIndex, keyBuffer
      ensures Valid() && keybIndex == 0
      ensures forall k :: 0 <= k < KEYB_BUFFER_SIZE ==>
                            keyBuffer[k] == if k < old(keybIndex) then '\0' else old(keyBuffer[k])
    {
      var i := 0;
      while i < keybIndex
        invariant 0 <= i <= keybIndex == old(keybIndex)
        invariant forall k :: 0 <= k < KEYB_BUFFER_SIZE ==>
                                keyBuffer[k] == if k < i then '\0' else old(keyBuffer[k])
      {
        keyBuffer[i] := '\0';
        i := i + 1;
      }
      keybIndex := 0;
    }

    /** Loads a saved line into the key buffer. */
    method UpdateKeybBuf(from: int, newIndex: int)
      requires Valid() && 0 <= newIndex <= KEYB_BUFFER_SIZE && 0 <= from && from + newIndex <= savedKeys.Length
      modifies this`keybIndex, keyBuffer
      ensures Valid() && keybIndex == newIndex
      ensures keyBuffer[..keybIndex] == savedKeys[from..from + newIndex]
    {
      keybIndex := newIndex;
      if newIndex == 0 {
        CleanKeybBuffer();
        return;
      }
      var i := 0;
      while i < newIndex
        invariant 0 <= i <= newIndex && keybIndex == newIndex
        invariant keyBuffer[..i] == savedKeys[from..from + i]
      {
        keyBuffer[i] := savedKeys[from + i];
        i := i + 1;
      }
    }

    /** A terminal's screen if terminal `shown` were the displayed one. */
    ghost function ScreenIf(t: int, shown: int): Screen
      requires Valid() && 0 <= t < TERMINALS
      reads this, mem, displayBuf, prevScreenX, lineIsFull, keyBuffer, terminals, savedKeys
    {
      Screen(RowsAt(mem[..], if t == shown then VIDEO else VideoPage(t)), terminals[t].xCursor, terminals[t].yCursor)
    }

    /** Puts the line of the displayed terminal away and brings in that of terminal `n`. */
    method SwapKeys(n: int)
      requires Valid() && 0 <= n < TERMINALS && n != displayed
      modifies this`keybIndex, keyBuffer, savedKeys, terminals
      ensures Valid()
      ensures forall t :: 0 <= t < TERMINALS ==> ScreenIf(t, n) == old(ScreenIf(t, n))
      ensures forall t :: 0 <= t < TERMINALS ==> LineIf(t, n) == old(Line(t))
    {
      SaveKeys();
      UpdateKeybBuf(KEYB_BUFFER_SIZE * n, terminals[n].keybIndex);
      forall t | 0 <= t < TERMINALS
        ensures SavedLine(t) == old(Line(t))
      {
        SavedSlice(old(savedKeys[..]), savedKeys[..], old(keyBuffer[..keybIndex]),
                   displayed, t, terminals[t].keybIndex);
      }
    }

    /** The screens as they will be once terminal `n` is displayed. */
    method ExchangeScreens(n: int)
      requires Aimed() && 0 <= n < TERMINALS && n != displayed
      modifies mem, terminals, this`screenX, this`screenY, this`videoMem
      ensures Valid()
      ensures forall t :: 0 <= t < TERMINALS ==> ScreenIf(t, n) == old(VirtualScreen(t))
      ensures forall t :: 0 <= t < TERMINALS ==> Line(t) == old(Line(t))
    {
      SwapScreens(n);
      terminals[displayed] := terminals[displayed].(xCursor := screenX, yCursor := screenY);
      videoMem := VIDEO;
      screenX, screenY := terminals[n].xCursor, terminals[n].yCursor;
    }

    method Show(n: int)
      requires Valid() && 0 <= n < TERMINALS
      modifies this`videoMem, this`screenX, this`screenY, this`displayed
      ensures Valid() && displayed == n
      ensures forall t :: 0 <= t < TERMINALS ==>
                            VirtualScreen(t) == old(ScreenIf(t, n)) && Line(t) == old(LineIf(t, n))
      ensures var next := VirtualScreen(Next(scheduled)); screenX == next.x && screenY == next.y
    {
      displayed := n;
      MemorySwitch();
    }

    /** `terminal_switch`: another terminal takes over the display, with its screen and its line. */
    method TerminalSwitch(n: int)
      requires Aimed() && 0 <= n < TERMINALS
      modifies this`videoMem, this`screenX, this`screenY, this`displayed, this`keybIndex,
               mem, terminals, keyBuffer, savedKeys
      ensures Valid() && displayed == n
      ensures forall t :: 0 <= t < TERMINALS ==>
                            VirtualScreen(t) == old(VirtualScreen(t)) && Line(t) == old(Line(t))
      ensures var cursor := VirtualScreen(if n == old(displayed) then n else Next(scheduled));
              screenX == cursor.x && screenY == cursor.y
    {
      if displayed == n {
        return;
      }
      ExchangeScreens(n);
      SwapKeys(n);
      Show(n);
    }

    method SwitchDisplay(n: int)
      requires Aimed() && 0 <= n < TERMINALS
      modifies this`videoMem, this`screenX, this`screenY, this`displayed, this`keybIndex,
               mem, terminals, keyBuffer, savedKeys
      ensures Valid() && Table() == Desk.Switch(old(Table()), n)
    {
      TerminalSwitch(n);
      assert Table().screens == old(Table()).screens && Table().lines == old(Table()).lines;
    }

    /** Alt with a function key. */
    method SwitchKey(n: int)
      requires AtRest() && 0 <= n < TERMINALS
      modifies this`videoMem, this`screenX, this`screenY, this`displayed, this`keybIndex,
               mem, terminals, keyBuffer, savedKeys
      ensures AtRest()
      ensures Table() == Desk.Switch(old(Table()), n)
    {
      AimAtDisplayed();
      SwitchDisplay(n);
      assert !keybPressed;
      AimAtScheduled();
    }

    /** `clear`: blanks the screen `putc` is aimed at and sends the displayed cursor home. */
    method Clear()
      requires Aimed()
      modifies this`screenX, this`screenY, mem, terminals
      ensures Aimed()
      ensures VirtualScreen(displayed) == Cleared()
      ensures forall t :: 0 <= t < TERMINALS && t != displayed ==> VirtualScreen(t) == old(VirtualScreen(t))
      ensures forall t :: 0 <= t < TERMINALS ==> Line(t) == old(Line(t))
    {
      ghost var before := mem[..];
      var i := 0;
      while i < SCREEN_CELLS
        invariant 0 <= i <= SCREEN_CELLS
        invariant forall k :: 0 <= k < mem.Length ==>
                                mem[k] == if videoMem <= k < videoMem + i then Ink(' ') else old(mem[k])
        modifies mem
      {
        mem[videoMem + i] := Ink(' ');
        i := i + 1;
      }
      screenX, screenY := 0, 0;
      terminals[displayed] := terminals[displayed].(xCursor := 0, yCursor := 0);
      forall r | 0 <= r < ROWS
        ensures RowsAt(mem[..], videoMem)[r] == Cleared().rows[r]
      {
        assert RowsAt(mem[..], videoMem)[r] == Blanks(COLS);
      }
      assert SameOutside(before, mem[..], videoMem);
      forall t | 0 <= t < TERMINALS && t != displayed
        ensures VirtualScreen(t) == old(VirtualScreen(t))
      {
        OtherScreen(before, mem[..], videoMem, ScreenBase(t));
      }
    }

    method ClearDisplay()
      requires Aimed()
      modifies this`screenX, this`screenY, mem, terminals
      ensures Valid() && Table() == Desk.Wipe(old(Table()))
    {
      Clear();
      assert Table().lines == old(Table()).lines;
      assert Table().screens == old(Table()).screens[displayed := Cleared()];
    }

    /** Ctrl with L. */
    method ClearKey()
      requires AtRest()
      modifies this`videoMem, this`screenX, this`screenY, mem, terminals
      ensures AtRest()
      ensures Table() == Desk.Wipe(old(Table()))
    {
      AimAtDisplayed();
      ClearDisplay();
      AimAtScheduled();
    }

    /** The line is done with. */
    method DropLine()
      requires AtRest()
      modifies this`keybIndex, keyBuffer
      ensures AtRest() && keybIndex == 0
      ensures Table() == Desk.TakeLine(old(Table()))
    {
      CleanKeybBuffer();
      assert Table().screens == old(Table()).screens;
      assert Table().lines == old(Table()).lines[displayed := []];
    }

    /** `terminal_read` once its wait for a displayed terminal with a finished line is over. */
    method TerminalRead(buf: array<char>) returns (n: int)
      requires AtRest() && buf.Length > KEYB_BUFFER_SIZE
      requires buf != displayBuf && buf != keyBuffer && buf != savedKeys
      requires scheduled == displayed
      modifies this`screenX, this`screenY, this`displayBufIndex, this`keybPressed, this`keybIndex,
               mem, displayBuf, prevScreenX, lineIsFull, terminals, keyBuffer, buf
      ensures AtRest()
      ensures old(keybIndex) < 128 ==>
                && n == old(keybIndex) && buf[..n] == old(Line(displayed)) && buf[n] == '\0'
                && Table() == Desk.TakeLine(old(Table()))
      ensures old(keybIndex) == 128 ==>
                && n == 0 && buf[..] == old(buf[..])
                && Table() == Desk.TakeLine(Desk.Write(old(Table()), TOO_MUCH))
    {
      if keybIndex >= KEYB_BUFFER_SIZE {
        ForwardInRange(Model(), TOO_MUCH);
        var printed := TerminalWrite(TOO_MUCH);
        DropLine();
        return 0;
      }
      n := CopyLine(buf);
      DropLine();
    }

    /** Copies the line of the displayed terminal out as a string. */
    method CopyLine(buf: array<char>) returns (n: int)
      requires AtRest() && buf.Length > KEYB_BUFFER_SIZE && keybIndex < KEYB_BUFFER_SIZE
      requires buf != displayBuf && buf != keyBuffer && buf != savedKeys
      modifies buf
      ensures AtRest() && Table() == old(Table())
      ensures n == keybIndex && buf[..n] == Line(displayed) && buf[n] == '\0'
    {
      n := 0;
      while n < keybIndex
        invariant 0 <= n <= keybIndex
        invariant buf[..n] == keyBuffer[..n]
      {
        buf[n] := keyBuffer[n];
        n := n + 1;
      }
      buf[keybIndex] := '\0';
    }
  }

  /** Saving a line at one terminal's place leaves the other places alone. */
  lemma SavedSlice(before: seq<char>, after: seq<char>, line: seq<char>, at: int, t: int, n: int)
    requires |before| == |after| == TERMINALS * KEYB_BUFFER_SIZE
    requires 0 <= at < TERMINALS && 0 <= t < TERMINALS && |line| <= KEYB_BUFFER_SIZE
    requires var lo := KEYB_BUFFER_SIZE * at; after == before[..lo] + line + before[lo + |line|..]
    requires 0 <= n <= KEYB_BUFFER_SIZE && (t == at ==> n == |line|)
    ensures var lo := KEYB_BUFFER_SIZE * t;
            after[lo..lo + n] == if t == at then line else before[lo..lo + n]
  {
  }

  lemma ScrolledMemory(before: seq<Cell>, moved: seq<Cell>, after: seq<Cell>, base: nat)
    requires base + SCREEN_CELLS <= |before|
    requires moved == Moved(before, base, base + COLS, SCREEN_CELLS - COLS)
    requires var last := base + SCREEN_CELLS - COLS;
             after == moved[..last] + Blanks(COLS) + moved[last + COLS..]
    ensures SameOutside(before, after, base)
    ensures RowsAt(after, base) == RowsAt(before, base)[1..] + [Blanks(COLS)]
  {
    var last := base + SCREEN_CELLS - COLS;
    forall k | 0 <= k < |before|
      ensures after[k] ==
              if base <= k < last then before[k + COLS]
              else if last <= k < last + COLS then Ink(' ')
              else before[k]
    {
      MovedAt(before, base, base + COLS, SCREEN_CELLS - COLS, k);
    }
    MoveScrolls(before, after, base);
  }
}
