/** The 25 x 80 text screen as rows of cells, and what one call of `putc` does to it and to the
    three structures that let a backspace undo tabs, line breaks and full lines. */
module Screen {
  const ROWS := 25
  const COLS := 80
  const SPACES_NUM := 4
  const ATTRIB := 7
  const DISPLAY_LEN := 2000
  const BACKSPACE := '\U{0008}'

  /** A character position of video memory: the glyph byte and its attribute byte. */
  datatype Cell = Cell(glyph: char, attr: int)

  function Ink(c: char): Cell {
    Cell(c, ATTRIB)
  }

  function Blanks(n: nat): seq<Cell> {
    seq(n, _ => Ink(' '))
  }

  predicate WellShaped(rows: seq<seq<Cell>>) {
    |rows| == ROWS && forall r :: 0 <= r < ROWS ==> |rows[r]| == COLS
  }

  datatype Screen = Screen(rows: seq<seq<Cell>>, x: int, y: int) {
    predicate Valid() {
      WellShaped(rows) && 0 <= x < COLS && 0 <= y < ROWS
    }
  }

  /** The screen `clear` leaves: no cursor mark is drawn. */
  function Cleared(): (s: Screen)
    ensures s.Valid()
  {
    Screen(seq(ROWS, _ => Blanks(COLS)), 0, 0)
  }

  function Plot(rows: seq<seq<Cell>>, x: int, y: int, c: char): (r: seq<seq<Cell>>)
    requires WellShaped(rows) && 0 <= x < COLS && 0 <= y < ROWS
    ensures WellShaped(r)
  {
    rows[y := rows[y][x := Ink(c)]]
  }

  /** `n` spaces written from column `x` of row `y` on. */
  function Spaced(rows: seq<seq<Cell>>, x: int, y: int, n: nat): (r: seq<seq<Cell>>)
    requires WellShaped(rows) && 0 <= x && x + n <= COLS && 0 <= y < ROWS
    ensures WellShaped(r)
  {
    rows[y := rows[y][..x] + Blanks(n) + rows[y][x + n..]]
  }

  function PlotSpaces(rows: seq<seq<Cell>>, x: int, y: int): (r: seq<seq<Cell>>)
    requires WellShaped(rows) && 0 <= x <= COLS - SPACES_NUM && 0 <= y < ROWS
    ensures WellShaped(r)
  {
    Spaced(rows, x, y, SPACES_NUM)
  }

  lemma SpacedStep(rows: seq<seq<Cell>>, x: int, y: int, n: nat)
    requires WellShaped(rows) && 0 <= x && x + n < COLS && 0 <= y < ROWS
    ensures Spaced(rows, x, y, 0) == rows
    ensures Plot(Spaced(rows, x, y, n), x + n, y, ' ') == Spaced(rows, x, y, n + 1)
  {
    var row := rows[y];
    assert row[..x] + Blanks(0) + row[x..] == row;
    var spaced := row[..x] + Blanks(n) + row[x + n..];
    assert spaced[x + n := Ink(' ')] == row[..x] + Blanks(n + 1) + row[x + n + 1..];
  }

  function ShowCursor(s: Screen): (r: Screen)
    requires s.Valid()
    ensures r.Valid() && r.x == s.x && r.y == s.y
  {
    s.(rows := Plot(s.rows, s.x, s.y, '_'))
  }

  /** The cursor goes to the start of the next row; from the bottom row the screen scrolls. */
  function BreakRow(rows: seq<seq<Cell>>, y: int): (r: Screen)
    requires WellShaped(rows) && 0 <= y < ROWS
    ensures r.Valid()
  {
    if y < ROWS - 1 then Screen(rows, 0, y + 1)
    else Screen(rows[1..] + [Blanks(COLS)], 0, ROWS - 1)
  }

  predicate IsBreak(c: char) {
    c == '\n' || c == '\r'
  }

  /** A Tab this far right is dropped without a trace on the screen. */
  predicate TabDropped(c: char, x: int) {
    c == '\t' && x >= COLS - SPACES_NUM - 1
  }

  /** What a character that is neither a backspace nor a dropped Tab writes, and where the cursor goes. */
  function Advance(s: Screen, c: char): (r: Screen)
    requires s.Valid() && !TabDropped(c, s.x)
    ensures r.Valid()
  {
    if IsBreak(c) then BreakRow(Plot(s.rows, s.x, s.y, ' '), s.y)
    else if c == '\t' then Screen(PlotSpaces(s.rows, s.x, s.y), s.x + SPACES_NUM, s.y)
    else if s.x + 1 < COLS then Screen(Plot(s.rows, s.x, s.y, c), s.x + 1, s.y)
    else BreakRow(Plot(s.rows, s.x, s.y, c), s.y)
  }

  /** What `putc` of anything but a backspace does to the screen. */
  function Draw(s: Screen, c: char): (r: Screen)
    requires s.Valid()
    ensures r.Valid()
  {
    if TabDropped(c, s.x) then s else ShowCursor(Advance(s, c))
  }

  function DrawAll(s: Screen, text: seq<char>): (r: Screen)
    requires s.Valid()
    ensures r.Valid()
    decreases |text|
  {
    if text == [] then s
    else Draw(DrawAll(s, text[..|text| - 1]), text[|text| - 1])
  }

  /** The screen together with `display_buf`, its index, `prev_screen_x` and `line_is_full`. */
  datatype Console = Console(
    screen: Screen, display: seq<char>, index: int, prevX: seq<int>, full: seq<int>)
  {
    predicate Valid() {
      && screen.Valid()
      && |display| == DISPLAY_LEN && 0 <= index <= DISPLAY_LEN
      && |prevX| == ROWS && |full| == ROWS
    }

    /** Where a backspace reads `display_buf` and moves the cursor inside the arrays. */
    predicate BackspaceInRange() {
      && Valid()
      && 0 < index < DISPLAY_LEN
      && (display[index - 1] == '\t' ==> screen.x >= SPACES_NUM)
      && (forall r :: 0 <= r < ROWS ==> 0 <= prevX[r] < COLS)
    }
  }

  /** A full display buffer is wiped before the next character. */
  function Recycle(con: Console): (r: Console)
    requires con.Valid()
    ensures r.Valid() && r.index < DISPLAY_LEN
  {
    if con.index == DISPLAY_LEN
    then con.(index := 0, display := seq(DISPLAY_LEN, _ => '\0'))
    else con
  }

  /** Shift of a per-row record when the screen scrolls; the last entry stays. */
  function ShiftUp(marks: seq<int>): (r: seq<int>)
    requires |marks| == ROWS
    ensures |r| == ROWS
    ensures forall j :: 0 <= j < ROWS - 1 ==> r[j] == marks[j + 1]
    ensures r[ROWS - 1] == marks[ROWS - 1]
  {
    marks[1..] + [marks[ROWS - 1]]
  }

  /** The undo records after a row ended at column `x` by a line break or by being filled. */
  function NoteRowEnd(con: Console, filled: bool): (r: Console)
    requires con.Valid()
    ensures r.Valid() && r.screen == con.screen && r.display == con.display && r.index == con.index
  {
    var y := con.screen.y;
    var bottom := y == ROWS - 1;
    if filled then
      if bottom then
        con.(full := ShiftUp(con.full)[ROWS - 2 := 1], prevX := ShiftUp(con.prevX))
      else
        con.(full := con.full[y := 1])
    else
      var prev := con.prevX[y := con.screen.x];
      if bottom then con.(full := ShiftUp(con.full), prevX := ShiftUp(prev))
      else con.(prevX := prev)
  }

  function Remember(con: Console, c: char): (r: Console)
    requires con.Valid() && con.index < DISPLAY_LEN
    ensures r.Valid() && r.screen == con.screen && r.index == con.index + 1
  {
    con.(display := con.display[con.index := c], index := con.index + 1)
  }

  function Forget(con: Console): (r: Console)
    requires con.Valid() && con.index > 0
    ensures r.Valid() && r.screen == con.screen && r.index == con.index - 1
  {
    con.(display := con.display[con.index - 1 := '\0'], index := con.index - 1)
  }

  /** Where a backspace puts the cursor, and the full-line mark it takes back. */
  function Retreat(con: Console): (r: Console)
    requires con.BackspaceInRange()
    ensures r.Valid()
  {
    var s := con.screen;
    if con.display[con.index - 1] == '\t' then
      con.(screen := s.(x := s.x - SPACES_NUM))
    else if s.x == 0 && s.y != 0 then
      if con.full[s.y - 1] == 1 then
        con.(screen := s.(x := COLS - 1, y := s.y - 1), full := con.full[s.y - 1 := 0])
      else
        con.(screen := s.(x := con.prevX[s.y - 1], y := s.y - 1))
    else if s.x == 0 then
      con
    else
      con.(screen := s.(x := s.x - 1))
  }

  /** A backspace before the cursor mark is drawn again. */
  function TakeBack(con: Console): (r: Console)
    requires con.BackspaceInRange()
    ensures r.Valid()
  {
    var s := con.screen;
    Forget(Retreat(con.(screen := s.(rows := Plot(s.rows, s.x, s.y, ' ')))))
  }

  function Erase(con: Console): (r: Console)
    requires con.BackspaceInRange()
    ensures r.Valid()
  {
    var back := TakeBack(con);
    back.(screen := ShowCursor(back.screen))
  }

  /** The undo records of a character that is neither a backspace nor a dropped Tab. */
  function Note(con: Console, c: char): (r: Console)
    requires con.Valid() && con.index < DISPLAY_LEN
    ensures r.Valid() && r.screen == con.screen && r.index == con.index + 1
  {
    var more := Remember(con, c);
    if IsBreak(c) then NoteRowEnd(more, false)
    else if c != '\t' && con.screen.x + 1 == COLS then NoteRowEnd(more, true)
    else more
  }

  /** One call of `putc`. */
  function Put(con: Console, c: char): (r: Console)
    requires con.Valid()
    requires c == BACKSPACE ==> con.BackspaceInRange()
    ensures r.Valid()
    ensures c != BACKSPACE ==> r.screen == Draw(con.screen, c)
  {
    if c == BACKSPACE then
      Erase(con)
    else
      var ready := Recycle(con);
      var noted := if TabDropped(c, con.screen.x) then ready else Note(ready, c);
      noted.(screen := Draw(con.screen, c))
  }

  /** A text put character by character. */
  function PutAll(con: Console, text: seq<char>): (r: Console)
    requires con.Valid() && PutsInRange(con, text)
    ensures r.Valid()
    decreases |text|, 1
  {
    if text == [] then con
    else Put(PutAll(con, text[..|text| - 1]), text[|text| - 1])
  }

  /** No backspace of the text makes `putc` leave its arrays. */
  predicate PutsInRange(con: Console, text: seq<char>)
    requires con.Valid()
    decreases |text|, 0
  {
    text == [] ||
    (PutsInRange(con, text[..|text| - 1]) &&
     (text[|text| - 1] == BACKSPACE ==> PutAll(con, text[..|text| - 1]).BackspaceInRange()))
  }

  /** Text without backspaces stays inside the arrays. */
  lemma {:induction false} ForwardInRange(con: Console, text: seq<char>)
    requires con.Valid() && BACKSPACE !in text
    ensures PutsInRange(con, text)
    decreases |text|
  {
    if text == [] {
    } else {
      ForwardInRange(con, text[..|text| - 1]);
    }
  }

  lemma {:induction false} PutsInRangePrefix(con: Console, text: seq<char>, n: nat)
    requires con.Valid() && PutsInRange(con, text) && n <= |text|
    ensures PutsInRange(con, text[..n])
    decreases |text|
  {
    if n == |text| {
      assert text[..n] == text;
    } else {
      PutsInRangePrefix(con, text[..|text| - 1], n);
      assert text[..|text| - 1][..n] == text[..n];
    }
  }

  /** Putting one more character of a text. */
  lemma {:induction false} PutAllStep(con: Console, text: seq<char>, n: nat)
    requires con.Valid() && PutsInRange(con, text) && n < |text|
    ensures PutsInRange(con, text[..n]) && PutsInRange(con, text[..n + 1])
    ensures text[n] == BACKSPACE ==> PutAll(con, text[..n]).BackspaceInRange()
    ensures PutAll(con, text[..n + 1]) == Put(PutAll(con, text[..n]), text[n])
  {
    PutsInRangePrefix(con, text, n + 1);
    assert text[..n + 1][..n] == text[..n];
  }

  /** A cell elsewhere is as it was, one row higher if the screen scrolled; the row that came in is blank. */
  predicate OtherCell(s: Screen, r: Screen, up: int, i: int, k: int)
    requires s.Valid() && r.Valid() && 0 <= up <= 1 && 0 <= i < 25 && 0 <= k < 80
  {
    r.rows[i][k] == if i + up < 25 then s.rows[i + up][k] else Cell(' ', 7)
  }

  /** A character that is neither a backspace nor a line break nor a Tab. */
  predicate IsGlyph(c: char) {
    c != '\U{0008}' && c != '\n' && c != '\r' && c != '\t'
  }

  /** A glyph stands where the cursor was, the mark where it is now, and every other cell stays. */
  lemma GlyphCells(s: Screen, c: char)
    requires s.Valid() && IsGlyph(c)
    ensures var r := Draw(s, c);
            var up := if s.x == 79 && s.y == 24 then 1 else 0;
            && r.x == (if s.x < 79 then s.x + 1 else 0)
            && r.y == (if s.x < 79 then s.y else s.y + 1 - up)
            && r.rows[s.y - up][s.x] == Cell(c, 7)
            && r.rows[r.y][r.x] == Cell('_', 7)
            && forall i, k :: 0 <= i < 25 && 0 <= k < 80 && (i != s.y - up || k != s.x) && (i != r.y || k != r.x) ==>
                                OtherCell(s, r, up, i, k)
  {
  }

  /** A line break wipes the mark and sends the cursor to the start of the next row. */
  lemma BreakCells(s: Screen, c: char)
    requires s.Valid() && (c == '\n' || c == '\r')
    ensures var r := Draw(s, c);
            var up := if s.y == 24 then 1 else 0;
            && r.x == 0 && r.y == s.y + 1 - up
            && r.rows[s.y - up][s.x] == Cell(' ', 7)
            && r.rows[r.y][0] == Cell('_', 7)
            && forall i, k :: 0 <= i < 25 && 0 <= k < 80 && (i != s.y - up || k != s.x) && (i != r.y || k != 0) ==>
                                OtherCell(s, r, up, i, k)
  {
  }

  /** A Tab is four spaces, or nothing from column 75 on. */
  lemma TabCells(s: Screen)
    requires s.Valid()
    ensures s.x >= 75 ==> Draw(s, '\t') == s
    ensures s.x < 75 ==>
              var r := Draw(s, '\t');
              && r.x == s.x + 4 && r.y == s.y
              && r.rows[s.y][s.x + 4] == Cell('_', 7)
              && (forall k :: s.x <= k < s.x + 4 ==> r.rows[s.y][k] == Cell(' ', 7))
              && forall i, k :: 0 <= i < 25 && 0 <= k < 80 && (i != s.y || k < s.x || k > s.x + 4) ==>
                                  OtherCell(s, r, 0, i, k)
  {
  }

  lemma ClearedCells()
    ensures Cleared().x == 0 && Cleared().y == 0
    ensures forall i, k :: 0 <= i < 25 && 0 <= k < 80 ==> Cleared().rows[i][k] == Cell(' ', 7)
  {
  }

  /** What stands before the cursor stays while the screen does not scroll. */
  lemma EarlierCellStays(s: Screen, c: char, k: nat)
    requires s.Valid() && IsGlyph(c)
    requires s.x < 79 || s.y < 24
    requires k < 80 * s.y + s.x
    ensures Draw(s, c).rows[k / 80][k % 80] == s.rows[k / 80][k % 80]
  {
    GlyphCells(s, c);
    assert OtherCell(s, Draw(s, c), 0, k / 80, k % 80);
  }

  /** The text stands on the screen in reading order, 80 characters to a row, up to the cursor. */
  predicate StandsOn(s: Screen, text: seq<char>) {
    && s.Valid() && 80 * s.y + s.x == |text|
    && forall k :: 0 <= k < |text| ==> s.rows[k / 80][k % 80] == Cell(text[k], 7)
  }

  lemma OneMoreStands(s: Screen, text: seq<char>, c: char)
    requires StandsOn(s, text) && |text| + 1 < 25 * 80 && IsGlyph(c)
    ensures StandsOn(Draw(s, c), text + [c])
  {
    GlyphCells(s, c);
    var r, n := Draw(s, c), |text|;
    assert n / 80 == s.y && n % 80 == s.x;
    forall k | 0 <= k <= n
      ensures r.rows[k / 80][k % 80] == Cell((text + [c])[k], 7)
    {
      if k < n {
        EarlierCellStays(s, c, k);
      }
    }
  }

  /** Plain text that fits the screen stands on it. */
  lemma {:induction false} PlainTextIsShown(text: seq<char>)
    requires |text| < 25 * 80 && forall c :: c in text ==> IsGlyph(c)
    ensures StandsOn(DrawAll(Cleared(), text), text)
    decreases |text|
  {
    if text == [] {
    } else {
      var n := |text| - 1;
      PlainTextIsShown(text[..n]);
      OneMoreStands(DrawAll(Cleared(), text[..n]), text[..n], text[n]);
      assert text[..n] + [text[n]] == text;
    }
  }
}
