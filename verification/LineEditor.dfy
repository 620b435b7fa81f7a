/** Typing with backspaces on one terminal: the key buffer is a stack of characters, and the screen
    shows the endless page of the characters that survived. */
module LineEditor {
  import opened Screen
  import opened Page

  /** The console with the keys held in `key_buffer[..keyb_index]`. */
  datatype Editor = Editor(con: Console, keys: seq<char>) {
    predicate Accepts(c: char) {
      con.Valid() && (c == BACKSPACE && keys != [] ==> con.BackspaceInRange())
    }
  }

  /** A key joins the keys held; a backspace takes the last one away, if there is one. */
  function Edited(keys: seq<char>, c: char): seq<char> {
    if c != BACKSPACE then keys + [c]
    else if keys == [] then []
    else keys[..|keys| - 1]
  }

  /** The character part of the keyboard handler. */
  function Press(e: Editor, c: char): (r: Editor)
    requires e.Accepts(c)
    ensures r.con.Valid()
  {
    if c == BACKSPACE && e.keys == [] then e
    else Editor(Put(e.con, c), Edited(e.keys, c))
  }

  /** Each backspace cancels the character before it; with nothing left it is ignored. */
  function Survivors(stream: seq<char>): seq<char>
    decreases |stream|
  {
    if stream == [] then []
    else Edited(Survivors(stream[..|stream| - 1]), stream[|stream| - 1])
  }

  /** The rows from `first` on that the window shows carry their undo records, and no row at or
      below the cursor is marked full. */
  predicate Marked(full: seq<int>, prevX: seq<int>, p: Page, first: int, top: int) {
    && |full| == ROWS && |prevX| == ROWS && 0 <= top
    && (forall r :: 0 <= r < ROWS ==> 0 <= prevX[r] < COLS)
    && (forall r :: first <= r < |p.above| && top <= r < top + ROWS ==>
                      match p.above[r].end
                      case Filled => full[r - top] == 1
                      case Broken(col) => full[r - top] != 1 && prevX[r - top] == col)
    && (forall r :: 0 <= r < ROWS && |p.above| <= top + r ==> full[r] != 1)
  }

  predicate NoTabDropped(start: Page, text: seq<char>)
    requires start.Valid()
  {
    forall n :: 0 <= n < |text| ==> !TabDropped(text[n], |Layout(start, text[..n]).line|)
  }

  /** The keys held are the text typed since the display buffer stood at `base`. */
  predicate Held(e: Editor, base: int) {
    && BACKSPACE !in e.keys
    && |e.con.display| == DISPLAY_LEN && 0 <= base && e.con.index == base + |e.keys| < DISPLAY_LEN
    && e.con.display[base..e.con.index] == e.keys
  }

  /** The editing invariant: `base` is where the display buffer stood when the line began on page
      `start`, and `top` is the first page row still on the screen. */
  predicate Editing(e: Editor, start: Page, base: int, top: int) {
    && e.con.Valid() && start.Valid()
    && Held(e, base) && NoTabDropped(start, e.keys)
    && Shows(e.con.screen, Layout(start, e.keys), top)
    && Marked(e.con.full, e.con.prevX, Layout(start, e.keys), |start.above|, top)
  }

  /** A console that is blank behind its cursor, has no full-line mark from its row on, and has
      recorded columns only. */
  predicate Blank(con: Console) {
    && con.Valid()
    && var s := con.screen;
    && (forall k :: s.x < k < COLS ==> s.rows[s.y][k] == Ink(' '))
    && (forall r :: s.y < r < ROWS ==> s.rows[r] == Blanks(COLS))
    && (forall r :: s.y <= r < ROWS ==> con.full[r] != 1)
    && ColumnsKept(con)
  }

  predicate ColumnsKept(con: Console) {
    |con.prevX| == ROWS && forall r :: 0 <= r < ROWS ==> 0 <= con.prevX[r] < COLS
  }

  predicate MarkShown(s: Screen) {
    s.Valid() && s.rows[s.y][s.x] == Ink('_')
  }

  /** A console ready for a line: blank behind the cursor mark, with room in its display buffer. */
  predicate Ready(con: Console) {
    Blank(con) && MarkShown(con.screen) && con.index < DISPLAY_LEN
  }

  lemma PutKeepsColumns(con: Console, c: char)
    requires con.Valid() && (c == BACKSPACE ==> con.BackspaceInRange())
    requires ColumnsKept(con)
    ensures ColumnsKept(Put(con, c))
  {
  }

  /** Whatever is put, backspaces included, `putc` only ever records columns of the screen. */
  lemma {:induction false} PutAllKeepsColumns(con: Console, text: seq<char>)
    requires con.Valid() && PutsInRange(con, text) && ColumnsKept(con)
    ensures ColumnsKept(PutAll(con, text))
    decreases |text|
  {
    if text == [] {
    } else {
      PutAllKeepsColumns(con, text[..|text| - 1]);
      PutKeepsColumns(PutAll(con, text[..|text| - 1]), text[|text| - 1]);
    }
  }

  /** The page whose last rows a screen shows down to its cursor. */
  function StartPage(s: Screen): (p: Page)
    requires s.Valid()
    ensures p.Valid() && |p.above| == s.y
  {
    Page(seq(s.y, r requires 0 <= r < s.y => Line(s.rows[r], Filled)), s.rows[s.y][..s.x])
  }

  lemma BlankIsPage(con: Console)
    requires Blank(con)
    ensures Framed(con.screen, StartPage(con.screen), 0)
    ensures Marked(con.full, con.prevX, StartPage(con.screen), con.screen.y, 0)
  {
    var s := con.screen;
    assert s.rows[s.y][s.x + 1..] == Blanks(COLS - s.x - 1);
  }

  /** A line may begin on whatever a ready console shows. */
  lemma EveryReadyConsoleStarts(con: Console)
    requires Ready(con)
    ensures Editing(Editor(con, []), StartPage(con.screen), con.index, 0)
  {
    BlankIsPage(con);
  }

  lemma {:induction false} LayoutGrows(start: Page, text: seq<char>)
    requires start.Valid()
    ensures start.above <= Layout(start, text).above
    decreases |text|
  {
    if text == [] {
    } else {
      LayoutGrows(start, text[..|text| - 1]);
    }
  }

  /** Ending the cursor row records how it ended, also when the records move up with a scroll. */
  lemma NoteRowEndMarks(con: Console, p: Page, first: int, top: int, last: Line)
    requires con.Valid() && p.Valid() && 0 <= top && first <= |p.above|
    requires con.screen.x == |p.line| && con.screen.y == |p.above| - top
    requires Marked(con.full, con.prevX, p, first, top)
    requires last.end == Filled || last.end == Broken(con.screen.x)
    ensures var q := Page(p.above + [last], []);
            var r := NoteRowEnd(con, last.end.Filled?);
            Marked(r.full, r.prevX, q, first, Follow(top, q))
  {
    if last.end.Filled? {
      NoteFilledMarks(con, p, first, top, last);
    } else {
      NoteBrokenMarks(con, p, first, top, last);
    }
  }

  lemma NoteFilledMarks(con: Console, p: Page, first: int, top: int, last: Line)
    requires con.Valid() && p.Valid() && 0 <= top && first <= |p.above|
    requires con.screen.y == |p.above| - top
    requires Marked(con.full, con.prevX, p, first, top) && last.end == Filled
    ensures var q := Page(p.above + [last], []);
            Marked(NoteRowEnd(con, true).full, NoteRowEnd(con, true).prevX, q, first, Follow(top, q))
  {
  }

  lemma NoteBrokenMarks(con: Console, p: Page, first: int, top: int, last: Line)
    requires con.Valid() && p.Valid() && 0 <= top && first <= |p.above|
    requires con.screen.y == |p.above| - top
    requires Marked(con.full, con.prevX, p, first, top) && last.end == Broken(con.screen.x)
    ensures var q := Page(p.above + [last], []);
            Marked(NoteRowEnd(con, false).full, NoteRowEnd(con, false).prevX, q, first, Follow(top, q))
  {
  }

  /** Typing keeps the undo records in step with the page. */
  lemma NoteMarks(con: Console, p: Page, first: int, top: int, c: char)
    requires con.Valid() && con.index < DISPLAY_LEN && p.Valid() && 0 <= top
    requires con.screen.x == |p.line| && con.screen.y == |p.above| - top
    requires first <= |p.above| && Marked(con.full, con.prevX, p, first, top)
    requires c != BACKSPACE && !TabDropped(c, |p.line|)
    ensures Marked(Note(con, c).full, Note(con, c).prevX, Type(p, c), first, Follow(top, Type(p, c)))
  {
    var more := Remember(con, c);
    if IsBreak(c) {
      NoteRowEndMarks(more, p, first, top, Line(Pad(p.line), Broken(|p.line|)));
    } else if c != '\t' && con.screen.x + 1 == COLS {
      NoteRowEndMarks(more, p, first, top, Line(p.line + [Ink(c)], Filled));
    }
  }

  /** One character of output keeps the records in step, also when the display buffer is wiped first. */
  lemma PutMarks(con: Console, p: Page, first: int, top: int, c: char)
    requires con.Valid() && Framed(con.screen, p, top) && c != BACKSPACE
    requires first <= |p.above| && Marked(con.full, con.prevX, p, first, top)
    ensures Marked(Put(con, c).full, Put(con, c).prevX, Type(p, c), first, Follow(top, Type(p, c)))
  {
    if TabDropped(c, con.screen.x) {
    } else {
      NoteMarks(Recycle(con), p, first, top, c);
    }
  }

  /** Backspace-free output keeps screen and records in step with the page. */
  lemma {:induction false} TextFollows(con: Console, p: Page, first: int, top: int, text: seq<char>)
    requires con.Valid() && Framed(con.screen, p, top) && BACKSPACE !in text
    requires first <= |p.above| && Marked(con.full, con.prevX, p, first, top)
    ensures PutsInRange(con, text) && PutAll(con, text).screen == DrawAll(con.screen, text)
    ensures Marked(PutAll(con, text).full, PutAll(con, text).prevX, Layout(p, text), first, TopAfter(p, top, text))
    decreases |text|
  {
    if text == [] {
    } else {
      var before := text[..|text| - 1];
      TextFollows(con, p, first, top, before);
      DrawAllFollowsPage(con.screen, p, top, before);
      LayoutGrows(p, before);
      PutMarks(PutAll(con, before), Layout(p, before), first, TopAfter(p, top, before), text[|text| - 1]);
    }
  }

  lemma PageIsBlank(con: Console, p: Page, first: int, top: int)
    requires con.Valid() && Framed(con.screen, p, top) && Marked(con.full, con.prevX, p, first, top)
    ensures Blank(con)
  {
    var s := con.screen;
    forall k | s.x < k < COLS
      ensures s.rows[s.y][k] == Ink(' ')
    {
      assert s.rows[s.y][k] == s.rows[s.y][s.x + 1..][k - (s.x + 1)];
    }
  }

  /** How many characters of a text are recorded in the display buffer: all but dropped Tabs. */
  function Recorded(s: Screen, text: seq<char>): (n: nat)
    requires s.Valid()
    decreases |text|
  {
    if text == [] then 0
    else Recorded(s, text[..|text| - 1]) + if EndsDropped(s, text) then 0 else 1
  }

  /** The last character of a text is a Tab that is dropped where it is drawn. */
  predicate EndsDropped(s: Screen, text: seq<char>)
    requires s.Valid()
  {
    text != [] && TabDropped(text[|text| - 1], DrawAll(s, text[..|text| - 1]).x)
  }

  /** The index of a display buffer of 2000 places that is wiped when a character finds it full; a
      dropped Tab wipes it too. */
  function IndexAfter(total: nat, dropped: bool): (index: int)
    ensures 0 <= index <= DISPLAY_LEN
    ensures index == DISPLAY_LEN <==> total > 0 && total % DISPLAY_LEN == 0 && !dropped
  {
    if total == 0 then 0
    else if dropped then total % DISPLAY_LEN
    else (total - 1) % DISPLAY_LEN + 1
  }

  /** One more character, recorded or dropped. */
  lemma IndexStep(total: nat, dropped: bool, drops: bool)
    ensures var index := IndexAfter(total, dropped);
            var ready := if index == DISPLAY_LEN then 0 else index;
            && (drops ==> IndexAfter(total, true) == ready)
            && (!drops ==> IndexAfter(total + 1, false) == ready + 1)
  {
    if total > 0 {
      NextRemainder(total - 1);
    }
  }

  lemma NextRemainder(n: nat)
    ensures (n + 1) % DISPLAY_LEN == if n % DISPLAY_LEN == DISPLAY_LEN - 1 then 0 else n % DISPLAY_LEN + 1
  {
  }

  lemma PutIndex(con: Console, c: char, total: nat, dropped: bool)
    requires con.Valid() && c != BACKSPACE && con.index == IndexAfter(total, dropped)
    ensures var drops := TabDropped(c, con.screen.x);
            Put(con, c).index == IndexAfter(total + if drops then 0 else 1, drops)
  {
    IndexStep(total, dropped, TabDropped(c, con.screen.x));
  }

  /** Backspace-free text draws itself. */
  lemma {:induction false} PutAllDraws(con: Console, text: seq<char>)
    requires con.Valid() && BACKSPACE !in text
    ensures PutsInRange(con, text) && PutAll(con, text).screen == DrawAll(con.screen, text)
    decreases |text|
  {
    if text == [] {
    } else {
      PutAllDraws(con, text[..|text| - 1]);
    }
  }

  /** Where output leaves the index of the display buffer. */
  lemma {:induction false} IndexCounts(con: Console, text: seq<char>)
    requires con.Valid() && BACKSPACE !in text && PutsInRange(con, text)
    ensures PutAll(con, text).index ==
            IndexAfter(con.index + Recorded(con.screen, text), EndsDropped(con.screen, text))
    decreases |text|
  {
    if text == [] {
    } else {
      var before, s := text[..|text| - 1], con.screen;
      IndexCounts(con, before);
      PutAllDraws(con, before);
      PutIndex(PutAll(con, before), text[|text| - 1], con.index + Recorded(s, before), EndsDropped(s, before));
    }
  }

  /** The display buffer has just been filled to its last place. */
  predicate FillsDisplay(con: Console, text: seq<char>)
    requires con.Valid()
  {
    var total := con.index + Recorded(con.screen, text);
    total > 0 && total % DISPLAY_LEN == 0 && !EndsDropped(con.screen, text)
  }

  lemma OutputLeavesBlank(con: Console, text: seq<char>)
    requires Blank(con) && BACKSPACE !in text
    requires MarkShown(con.screen) || (con.screen == Cleared() && text != [])
    ensures PutsInRange(con, text) && Blank(PutAll(con, text)) && MarkShown(PutAll(con, text).screen)
  {
    var p := StartPage(con.screen);
    BlankIsPage(con);
    TextFollows(con, p, con.screen.y, 0, text);
    DrawAllFollowsPage(con.screen, p, 0, text);
    PageIsBlank(PutAll(con, text), Layout(p, text), con.screen.y, TopAfter(p, 0, text));
    if con.screen == Cleared() && text != [] {
      DrawAllShows(text);
    }
  }

  /** Output leaves a console ready for a line exactly when it does not just fill the display buffer:
      on a console that shows the mark, or on a cleared one if there was any output. */
  lemma OutputLeavesReady(con: Console, text: seq<char>)
    requires Blank(con) && BACKSPACE !in text
    requires MarkShown(con.screen) || (con.screen == Cleared() && text != [])
    ensures PutsInRange(con, text)
    ensures Ready(PutAll(con, text)) <==> !FillsDisplay(con, text)
  {
    OutputLeavesBlank(con, text);
    IndexCounts(con, text);
  }

  /** The console as `terminal_init` and `clear` leave it. */
  function Booted(): (con: Console)
    ensures con.Valid()
  {
    Console(Cleared(), seq(DISPLAY_LEN, _ => '\0'), 0, seq(ROWS, _ => 0), seq(ROWS, _ => 0))
  }

  /** After booting, output leaves the console ready for a line exactly when the number of characters
      it recorded is not a multiple of 2000, or it ends with a dropped Tab. */
  lemma BootedOutputLeavesReady(text: seq<char>)
    requires text != [] && BACKSPACE !in text
    ensures PutsInRange(Booted(), text)
    ensures Ready(PutAll(Booted(), text)) <==>
            Recorded(Cleared(), text) % 2000 != 0 || EndsDropped(Cleared(), text)
  {
    OutputLeavesReady(Booted(), text);
    FirstIsRecorded(text);
  }

  /** On a cleared screen the first character is never a dropped Tab. */
  lemma {:induction false} FirstIsRecorded(text: seq<char>)
    requires text != []
    ensures Recorded(Cleared(), text) > 0
    decreases |text|
  {
    if |text| == 1 {
      assert text[..0] == [];
    } else {
      FirstIsRecorded(text[..|text| - 1]);
    }
  }

  lemma NoTabDroppedPlus(start: Page, text: seq<char>, c: char)
    requires start.Valid() && NoTabDropped(start, text)
    requires !TabDropped(c, |Layout(start, text).line|)
    ensures NoTabDropped(start, text + [c])
  {
    var more := text + [c];
    forall n | 0 <= n < |more|
      ensures !TabDropped(more[n], |Layout(start, more[..n]).line|)
    {
      assert more[..n] == text[..n];
      assert n == |text| ==> text[..n] == text;
    }
  }

  lemma NoTabDroppedPrefix(start: Page, text: seq<char>, n: nat)
    requires start.Valid() && NoTabDropped(start, text) && n <= |text|
    ensures NoTabDropped(start, text[..n])
  {
    assert forall m :: 0 <= m <= n ==> text[..n][..m] == text[..m];
  }

  lemma LayoutPlus(start: Page, text: seq<char>, c: char)
    requires start.Valid()
    ensures Layout(start, text + [c]) == Type(Layout(start, text), c)
  {
    assert (text + [c])[..|text|] == text;
  }

  /** A typed character joins the keys and the display buffer. */
  lemma HeldPlus(e: Editor, con: Console, base: int, c: char)
    requires Held(e, base) && c != BACKSPACE && e.con.index + 1 < DISPLAY_LEN
    requires con.index == e.con.index + 1 && con.display == e.con.display[e.con.index := c]
    ensures Held(Editor(con, e.keys + [c]), base)
  {
    SlicePlus(e.con.display, base, e.con.index, c);
  }

  lemma SlicePlus(display: seq<char>, base: nat, index: nat, c: char)
    requires base <= index < |display|
    ensures display[index := c][base..index + 1] == display[base..index] + [c]
  {
  }

  /** A typed character extends the line and the page together. */
  lemma PressKeeps(e: Editor, start: Page, base: int, top: int, c: char)
    requires Editing(e, start, base, top) && c != BACKSPACE
    requires !TabDropped(c, e.con.screen.x) && e.con.index + 1 < DISPLAY_LEN
    ensures Editing(Press(e, c), start, base, Follow(top, Layout(start, e.keys + [c])))
  {
    var p := Layout(start, e.keys);
    LayoutPlus(start, e.keys, c);
    DrawFollowsPage(e.con.screen, p, top, c);
    LayoutGrows(start, e.keys);
    NoteMarks(e.con, p, |start.above|, top, c);
    assert Press(e, c).con == Note(e.con, c).(screen := Draw(e.con.screen, c));
    NoTabDroppedPlus(start, e.keys, c);
    HeldPlus(e, Press(e, c).con, base, c);
  }

  /** A backspace over `c` puts the cursor where `c` was typed. */
  lemma ErasePlace(con: Console, p: Page, first: int, top: int, c: char)
    requires con.BackspaceInRange() && p.Valid() && c != BACKSPACE && !TabDropped(c, |p.line|)
    requires Shows(con.screen, Type(p, c), top) && top <= |p.above|
    requires con.display[con.index - 1] == c
    requires Marked(con.full, con.prevX, Type(p, c), first, top) && first <= |p.above|
    ensures Erase(con).screen.x == |p.line| && Erase(con).screen.y == |p.above| - top
  {
  }

  /** The screen after a backspace over the last character `c`. */
  lemma EraseShows(con: Console, p: Page, first: int, top: int, c: char)
    requires con.BackspaceInRange() && p.Valid() && c != BACKSPACE && !TabDropped(c, |p.line|)
    requires Shows(con.screen, Type(p, c), top) && top <= |p.above|
    requires con.display[con.index - 1] == c
    requires Marked(con.full, con.prevX, Type(p, c), first, top) && first <= |p.above|
    ensures Shows(Erase(con).screen, p, top)
  {
    var s := con.screen;
    var wiped := Plot(s.rows, s.x, s.y, ' ');
    var s' := Erase(con).screen;
    RowAfterPlot(s, Type(p, c), top, ' ');
    assert wiped[s.y] == Pad(Type(p, c).line);
    ErasePlace(con, p, first, top, c);
    assert s'.y != s.y ==> wiped[s'.y] == Type(p, c).above[|p.above|].cells;
    var row := wiped[s'.y];
    assert row[..s'.x] == p.line;
    assert row[s'.x + 1..] == Blanks(COLS - s'.x - 1);
    assert s'.rows[s'.y] == row[s'.x := Ink('_')];
  }

  lemma EraseMarks(con: Console, p: Page, first: int, top: int, c: char)
    requires con.BackspaceInRange() && p.Valid() && c != BACKSPACE && !TabDropped(c, |p.line|)
    requires 0 <= top <= |p.above| && first <= |p.above|
    requires con.screen.x == |Type(p, c).line| && con.screen.y == |Type(p, c).above| - top
    requires con.display[con.index - 1] == c
    requires Marked(con.full, con.prevX, Type(p, c), first, top)
    ensures Marked(Erase(con).full, Erase(con).prevX, p, first, top)
    ensures Erase(con).prevX == con.prevX
  {
    var q := Type(p, c);
    assert forall r :: 0 <= r < |p.above| ==> q.above[r] == p.above[r];
  }

  /** The backspace finds the last typed character on top of the display buffer. */
  lemma BackspaceAccepted(e: Editor, start: Page, base: int, top: int)
    requires Editing(e, start, base, top) && e.keys != []
    ensures e.con.BackspaceInRange()
    ensures e.con.display[e.con.index - 1] == e.keys[|e.keys| - 1]
  {
    var n := |e.keys| - 1;
    assert e.con.display[e.con.index - 1] == e.con.display[base..e.con.index][n];
    assert !TabDropped(e.keys[n], |Layout(start, e.keys[..n]).line|);
  }

  /** Taking the last key back. */
  lemma HeldWithoutLast(e: Editor, con: Console, base: int)
    requires Held(e, base) && e.keys != []
    requires con.index == e.con.index - 1 && |con.display| == DISPLAY_LEN
    requires con.display[base..con.index] == e.keys[..|e.keys| - 1]
    ensures Held(Editor(con, e.keys[..|e.keys| - 1]), base)
  {
  }

  /** A backspace takes back exactly the last character while the row the line began on is visible. */
  lemma BackspaceKeeps(e: Editor, start: Page, base: int, top: int)
    requires Editing(e, start, base, top) && e.keys != []
    requires top <= |start.above|
    ensures e.Accepts(BACKSPACE)
    ensures Editing(Press(e, BACKSPACE), start, base, top)
  {
    var n := |e.keys| - 1;
    var p := Layout(start, e.keys[..n]);
    BackspaceAccepted(e, start, base, top);
    LayoutGrows(start, e.keys[..n]);
    assert Layout(start, e.keys) == Type(p, e.keys[n]);
    EraseShows(e.con, p, |start.above|, top, e.keys[n]);
    EraseMarks(e.con, p, |start.above|, top, e.keys[n]);
    EraseDisplay(e.con, base, e.keys);
    HeldWithoutLast(e, Erase(e.con), base);
    NoTabDroppedPrefix(start, e.keys, n);
  }

  lemma EraseDisplay(con: Console, base: int, keys: seq<char>)
    requires con.BackspaceInRange() && keys != []
    requires 0 <= base && con.index == base + |keys| && con.display[base..con.index] == keys
    ensures Erase(con).index == con.index - 1
    ensures Erase(con).display[base..con.index - 1] == keys[..|keys| - 1]
  {
    var n := |keys| - 1;
    assert Erase(con).display == con.display[con.index - 1 := '\0'];
    assert Erase(con).display[base..con.index - 1] == con.display[base..con.index][..n];
  }

  function PressAll(e: Editor, stream: seq<char>): Editor
    requires Accepted(e, stream)
    decreases |stream|, 1
  {
    if stream == [] then e
    else Press(PressAll(e, stream[..|stream| - 1]), stream[|stream| - 1])
  }

  /** No key of the stream makes `putc` leave its arrays. */
  predicate Accepted(e: Editor, stream: seq<char>)
    decreases |stream|, 0
  {
    stream == [] ||
    (Accepted(e, stream[..|stream| - 1]) &&
     PressAll(e, stream[..|stream| - 1]).Accepts(stream[|stream| - 1]))
  }

  /** How many rows the window has moved down when the stream has been typed from page `start`. */
  function RowsScrolled(start: Page, stream: seq<char>): (r: int)
    requires start.Valid()
    ensures 0 <= r
    decreases |stream|
  {
    if stream == [] then 0
    else Follow(RowsScrolled(start, stream[..|stream| - 1]), Layout(start, Survivors(stream)))
  }

  /** What the editing theorem asks of the keys: at every point the held characters fit both buffers
      and no Tab is typed at column 75 or later. */
  predicate Typable(start: Page, base: int, stream: seq<char>)
    requires start.Valid()
    decreases |stream|
  {
    stream == [] ||
    var before := stream[..|stream| - 1];
    && Typable(start, base, before)
    && |Survivors(stream)| < KEYB_BUFFER_SIZE && base + |Survivors(stream)| < DISPLAY_LEN
    && !TabDropped(stream[|stream| - 1], |Layout(start, Survivors(before)).line|)
  }

  const KEYB_BUFFER_SIZE := 128

  /** Line editing is exact: the key buffer is the stream with each backspace cancelling the character
      before it, and the screen shows the page of just those characters, as long as the row the line
      began on has not scrolled away. */
  lemma {:induction false} EditingIsExact(e: Editor, start: Page, base: int, stream: seq<char>)
    requires e.keys == [] && Editing(e, start, base, 0)
    requires Typable(start, base, stream)
    requires RowsScrolled(start, stream) <= |start.above|
    ensures Accepted(e, stream)
    ensures PressAll(e, stream).keys == Survivors(stream)
    ensures Editing(PressAll(e, stream), start, base, RowsScrolled(start, stream))
    decreases |stream|
  {
    if stream == [] {
    } else {
      var n := |stream| - 1;
      var c := stream[n];
      EditingIsExact(e, start, base, stream[..n]);
      var mid := PressAll(e, stream[..n]);
      var top := RowsScrolled(start, stream[..n]);
      if c != BACKSPACE {
        PressKeeps(mid, start, base, top, c);
      } else if mid.keys != [] {
        BackspaceKeeps(mid, start, base, top);
      }
    }
  }

  /** A screen with its text `up` rows higher and blank rows below. */
  function Raised(s: Screen, up: nat): (r: Screen)
    requires s.Valid() && up <= s.y
    ensures r.Valid()
  {
    Screen(s.rows[up..] + seq(up, _ => Blanks(COLS)), s.x, s.y - up)
  }

  predicate IsRaised(s: Screen, other: Screen, up: int) {
    other.Valid() && 0 <= up <= other.y && s == Raised(other, up)
  }

  lemma RaisedByNone(s: Screen)
    requires s.Valid()
    ensures Raised(s, 0) == s
  {
    assert s.rows[0..] + seq(0, _ => Blanks(COLS)) == s.rows;
  }

  /** Two screens that show the same page differ by how far it has scrolled. */
  lemma ShowsDetermines(s: Screen, other: Screen, p: Page, top: int, top': int)
    requires Shows(s, p, top) && Shows(other, p, top') && top' <= top
    ensures IsRaised(s, other, top - top')
  {
    var up := top - top';
    CursorRow(s, p, top);
    CursorRow(other, p, top');
    var raised := Raised(other, up);
    forall r | 0 <= r < ROWS
      ensures s.rows[r] == raised.rows[r]
    {
      assert raised.rows[r] == if r + up < ROWS then other.rows[r + up] else Blanks(COLS);
    }
    assert s.rows == raised.rows;
  }

  lemma CursorRow(s: Screen, p: Page, top: int)
    requires Shows(s, p, top)
    ensures s.rows[s.y] == p.line + [Ink('_')] + Blanks(COLS - s.x - 1)
  {
    var row := s.rows[s.y];
    assert row == row[..s.x] + [row[s.x]] + row[s.x + 1..];
  }

  lemma {:induction false} SurvivorsStay(stream: seq<char>)
    requires '\U{0008}' !in stream
    ensures Survivors(stream) == stream
    decreases |stream|
  {
    if stream == [] {
    } else {
      SurvivorsStay(stream[..|stream| - 1]);
    }
  }

  lemma SurvivorsSnoc(stream: seq<char>, c: char)
    ensures Survivors(stream + [c]) == Edited(Survivors(stream), c)
  {
    Snoc(stream, c);
  }

  /** A character and the backspace behind it cancel out anywhere in the stream. */
  lemma {:induction false} BackspaceCancels(a: seq<char>, c: char, b: seq<char>)
    requires c != '\U{0008}'
    ensures Survivors(a + [c] + ['\U{0008}'] + b) == Survivors(a + b)
    decreases |b|
  {
    if b == [] {
      SurvivorsSnoc(a, c);
      SurvivorsSnoc(a + [c], BACKSPACE);
      assert a + [c] + [BACKSPACE] + [] == a + [c] + [BACKSPACE] && a + [] == a;
    } else {
      var n := |b| - 1;
      BackspaceCancels(a, c, b[..n]);
      SurvivorsSnoc(a + [c] + [BACKSPACE] + b[..n], b[n]);
      SurvivorsSnoc(a + b[..n], b[n]);
      assert a + [c] + [BACKSPACE] + b == a + [c] + [BACKSPACE] + b[..n] + [b[n]];
      assert a + b == a + b[..n] + [b[n]];
    }
  }

  /** A backspace that finds nothing to take back is ignored. */
  lemma {:induction false} LeadingBackspace(b: seq<char>)
    ensures Survivors(['\U{0008}'] + b) == Survivors(b)
    decreases |b|
  {
    if b == [] {
      SurvivorsSnoc([], BACKSPACE);
      assert [BACKSPACE] + [] == [BACKSPACE] == [] + [BACKSPACE];
    } else {
      var n := |b| - 1;
      LeadingBackspace(b[..n]);
      SurvivorsSnoc([BACKSPACE] + b[..n], b[n]);
      assert [BACKSPACE] + b == [BACKSPACE] + b[..n] + [b[n]];
    }
  }

  lemma {:induction false} SurvivorsAreTyped(stream: seq<char>)
    ensures BACKSPACE !in Survivors(stream)
    decreases |stream|
  {
    if stream == [] {
    } else {
      SurvivorsAreTyped(stream[..|stream| - 1]);
    }
  }

  lemma Snoc(text: seq<char>, c: char)
    ensures (text + [c])[..|text + [c]| - 1] == text
  {
  }

  /** Typing only the survivors is typable too, and scrolls no further. */
  lemma {:induction false} SurvivorsAreTypable(start: Page, base: int, stream: seq<char>)
    requires start.Valid() && Typable(start, base, stream)
    ensures Typable(start, base, Survivors(stream))
    ensures RowsScrolled(start, Survivors(stream)) <= RowsScrolled(start, stream)
    decreases |stream|
  {
    if stream == [] {
    } else {
      var before := stream[..|stream| - 1];
      var c := stream[|stream| - 1];
      SurvivorsAreTypable(start, base, before);
      SurvivorsAreTyped(stream);
      SurvivorsStay(Survivors(stream));
      if c != BACKSPACE {
        Snoc(Survivors(before), c);
      }
    }
  }

  /** What the editing theorem says of keys and screen. */
  lemma StreamShows(e: Editor, start: Page, base: int, stream: seq<char>)
    requires e.keys == [] && Editing(e, start, base, 0)
    requires Typable(start, base, stream)
    requires RowsScrolled(start, stream) <= |start.above|
    ensures Accepted(e, stream) && PressAll(e, stream).keys == Survivors(stream)
    ensures Shows(PressAll(e, stream).con.screen, Layout(start, Survivors(stream)), RowsScrolled(start, stream))
  {
    EditingIsExact(e, start, base, stream);
  }

  /** Typing only the survivors shows the same text. */
  lemma SurvivorsShow(e: Editor, start: Page, base: int, stream: seq<char>)
    requires e.keys == [] && Editing(e, start, base, 0)
    requires Typable(start, base, stream)
    requires RowsScrolled(start, stream) <= |start.above|
    ensures var kept := Survivors(stream);
            && Accepted(e, kept) && PressAll(e, kept).keys == kept
            && Shows(PressAll(e, kept).con.screen, Layout(start, kept), RowsScrolled(start, kept))
            && RowsScrolled(start, kept) <= RowsScrolled(start, stream)
  {
    SurvivorsAreTypable(start, base, stream);
    SurvivorsAreTyped(stream);
    SurvivorsStay(Survivors(stream));
    StreamShows(e, start, base, Survivors(stream));
  }

  /** One editor holds the keys, and its screen is that of the other raised by `up` rows. */
  predicate Alike(a: Editor, b: Editor, keys: seq<char>, up: int) {
    a.keys == keys && IsRaised(a.con.screen, b.con.screen, up)
  }

  /** The keys held are the survivors, and the screen is the one typing only these would give, moved
      up by the rows that only deleted text scrolled. */
  predicate EditedLikeSurvivors(e: Editor, start: Page, stream: seq<char>)
    requires start.Valid()
  {
    var kept := Survivors(stream);
    var up := RowsScrolled(start, stream) - RowsScrolled(start, kept);
    && Accepted(e, stream) && Accepted(e, kept)
    && Alike(PressAll(e, stream), PressAll(e, kept), kept, up)
  }

  /** Two editors that show the same page, the first after the stream and the second after its
      survivors. */
  lemma ShownAlike(e: Editor, start: Page, stream: seq<char>, a: Editor, b: Editor, p: Page, top: int, top': int)
    requires start.Valid() && Accepted(e, stream) && Accepted(e, Survivors(stream))
    requires a == PressAll(e, stream) && b == PressAll(e, Survivors(stream)) && a.keys == Survivors(stream)
    requires top == RowsScrolled(start, stream) && top' == RowsScrolled(start, Survivors(stream)) && top' <= top
    requires Shows(a.con.screen, p, top) && Shows(b.con.screen, p, top')
    ensures EditedLikeSurvivors(e, start, stream)
  {
    assert Alike(a, b, Survivors(stream), top - top') by {
      ShowsDetermines(a.con.screen, b.con.screen, p, top, top');
    }
  }

  /** The screen after editing is the one typing only the surviving characters would give; where
      deleted text had scrolled the screen, it stands higher by exactly the extra rows scrolled. */
  lemma {:induction false} EditingShowsSurvivors(e: Editor, start: Page, base: int, stream: seq<char>)
    requires e.keys == [] && Editing(e, start, base, 0)
    requires Typable(start, base, stream)
    requires RowsScrolled(start, stream) <= |start.above|
    ensures EditedLikeSurvivors(e, start, stream)
  {
    StreamShows(e, start, base, stream);
    SurvivorsShow(e, start, base, stream);
    var kept := Survivors(stream);
    ShownAlike(e, start, stream, PressAll(e, stream), PressAll(e, kept), Layout(start, kept),
               RowsScrolled(start, stream), RowsScrolled(start, kept));
  }

  /** The same for whatever console is ready for a line, with an empty key buffer. */
  lemma {:induction false} EditingFromAnyReadyConsole(con: Console, stream: seq<char>)
    requires Ready(con) && Typable(StartPage(con.screen), con.index, stream)
    requires RowsScrolled(StartPage(con.screen), stream) <= con.screen.y
    ensures EditedLikeSurvivors(Editor(con, []), StartPage(con.screen), stream)
  {
    EveryReadyConsoleStarts(con);
    EditingShowsSurvivors(Editor(con, []), StartPage(con.screen), con.index, stream);
  }

  /** A key whose echo scrolls the screen. */
  predicate Scrolls(s: Screen, c: char) {
    s.y == ROWS - 1 && (IsBreak(c) || (c != '\t' && s.x == COLS - 1))
  }

  /** Typing a character and taking it back shows the page without it again. */
  lemma TypeThenErase(e: Editor, start: Page, base: int, top: int, c: char)
    requires Editing(e, start, base, top) && c != BACKSPACE
    requires e.con.index + 1 < DISPLAY_LEN && top <= |start.above|
    requires !Scrolls(e.con.screen, c) && !TabDropped(c, e.con.screen.x)
    ensures Press(e, c).Accepts(BACKSPACE)
    ensures Shows(Press(Press(e, c), BACKSPACE).con.screen, Layout(start, e.keys), top)
  {
    LayoutPlus(start, e.keys, c);
    PressKeeps(e, start, base, top, c);
    Snoc(e.keys, c);
    BackspaceKeeps(Press(e, c), start, base, top);
  }

  lemma UndoPlain(e: Editor, start: Page, base: int, top: int, c: char)
    requires Editing(e, start, base, top) && c != BACKSPACE
    requires e.con.index + 1 < DISPLAY_LEN && top <= |start.above|
    requires !Scrolls(e.con.screen, c) && !TabDropped(c, e.con.screen.x)
    ensures Press(e, c).Accepts(BACKSPACE)
    ensures Press(Press(e, c), BACKSPACE).con.screen == e.con.screen
  {
    TypeThenErase(e, start, base, top, c);
    ShowsDetermines(Press(Press(e, c), BACKSPACE).con.screen, e.con.screen, Layout(start, e.keys), top, top);
    RaisedByNone(e.con.screen);
  }

  /** A scroll is not undone: the cursor comes back one row higher. */
  lemma UndoScrolled(e: Editor, start: Page, base: int, top: int, c: char)
    requires Editing(e, start, base, top) && c != BACKSPACE
    requires e.con.index + 1 < DISPLAY_LEN
    requires Scrolls(e.con.screen, c)
    ensures Press(e, c).Accepts(BACKSPACE)
    ensures Press(Press(e, c), BACKSPACE).con.screen.y == e.con.screen.y - 1
  {
    PressKeeps(e, start, base, top, c);
    BackspaceAccepted(Press(e, c), start, base, Follow(top, Layout(start, e.keys + [c])));
  }

  /** A Tab dropped for lack of room is still counted as a key, so its backspace eats into the text. */
  lemma UndoDroppedTab(e: Editor, start: Page, base: int, top: int)
    requires Editing(e, start, base, top) && 0 < e.con.index
    requires TabDropped('\t', e.con.screen.x)
    ensures Press(e, '\t').keys == e.keys + ['\t'] && Press(e, '\t').con.screen == e.con.screen
    ensures Press(e, '\t').Accepts(BACKSPACE)
    ensures Press(Press(e, '\t'), BACKSPACE).con.screen.x < e.con.screen.x
  {
  }

  /** Backspace right after a key restores the screen exactly when the key neither scrolled it
      nor was a Tab dropped for lack of room. */
  lemma UndoIsExact(e: Editor, start: Page, base: int, top: int, c: char)
    requires Editing(e, start, base, top) && c != BACKSPACE
    requires e.con.index + 1 < DISPLAY_LEN && top <= |start.above|
    requires TabDropped(c, e.con.screen.x) ==> 0 < e.con.index
    ensures Press(e, c).Accepts(BACKSPACE)
    ensures Press(Press(e, c), BACKSPACE).keys == e.keys
    ensures Press(Press(e, c), BACKSPACE).con.screen == e.con.screen <==>
            !Scrolls(e.con.screen, c) && !TabDropped(c, e.con.screen.x)
  {
    assert (e.keys + [c])[..|e.keys|] == e.keys;
    if TabDropped(c, e.con.screen.x) {
      UndoDroppedTab(e, start, base, top);
    } else if Scrolls(e.con.screen, c) {
      UndoScrolled(e, start, base, top, c);
    } else {
      UndoPlain(e, start, base, top, c);
    }
  }
}
