/** The endless page: an unbounded column of 80-cell rows onto which text is laid out.
    The scrolling screen is a 25-row window at its end. */
module Page {
  import opened Screen

  /** How a finished row ended: filled to the margin, or broken by a newline at a column. */
  datatype End = Filled | Broken(col: nat)

  datatype Line = Line(cells: seq<Cell>, end: End)

  datatype Page = Page(above: seq<Line>, line: seq<Cell>) {
    predicate Valid() {
      |line| < COLS && forall r :: 0 <= r < |above| ==> |above[r].cells| == COLS
    }
  }

  const EMPTY_PAGE := Page([], [])

  function Pad(line: seq<Cell>): (r: seq<Cell>)
    requires |line| <= COLS
    ensures |r| == COLS
  {
    line + Blanks(COLS - |line|)
  }

  /** Laying out one character. */
  function Type(p: Page, c: char): (r: Page)
    requires p.Valid()
    ensures r.Valid()
  {
    if IsBreak(c) then
      Page(p.above + [Line(Pad(p.line), Broken(|p.line|))], [])
    else if TabDropped(c, |p.line|) then
      p
    else if c == '\t' then
      Page(p.above, p.line + Blanks(SPACES_NUM))
    else if |p.line| + 1 < COLS then
      Page(p.above, p.line + [Ink(c)])
    else
      Page(p.above + [Line(p.line + [Ink(c)], Filled)], [])
  }

  function Layout(p: Page, text: seq<char>): (r: Page)
    requires p.Valid()
    ensures r.Valid()
    decreases |text|
  {
    if text == [] then p
    else Type(Layout(p, text[..|text| - 1]), text[|text| - 1])
  }

  /** Row `r` of the endless page: finished rows, the row with the cursor mark, then blank rows. */
  function PageRow(p: Page, r: nat): (row: seq<Cell>)
    requires p.Valid()
    ensures |row| == COLS
  {
    if r < |p.above| then p.above[r].cells
    else if r == |p.above| then Pad(p.line + [Ink('_')])
    else Blanks(COLS)
  }

  /** The first row a 25-row window shows when the row with the cursor is the last to be kept. */
  function WindowTop(p: Page): nat {
    if |p.above| < ROWS then 0 else |p.above| - (ROWS - 1)
  }

  /** The screen holds exactly the last 25 rows of the page, with the cursor where its text ends. */
  predicate IsEndOf(s: Screen, p: Page) {
    && s.Valid() && p.Valid()
    && s.x == |p.line| && s.y == |p.above| - WindowTop(p)
    && forall r :: 0 <= r < ROWS ==> s.rows[r] == PageRow(p, WindowTop(p) + r)
  }

  /** The screen is the page seen from row `top`, apart from the cell under the cursor. */
  predicate Framed(s: Screen, p: Page, top: int) {
    && s.Valid() && p.Valid()
    && 0 <= top
    && s.y == |p.above| - top && s.x == |p.line|
    && (forall r :: 0 <= r < s.y ==> s.rows[r] == p.above[top + r].cells)
    && s.rows[s.y][..s.x] == p.line
    && s.rows[s.y][s.x + 1..] == Blanks(COLS - s.x - 1)
    && (forall r :: s.y < r < ROWS ==> s.rows[r] == Blanks(COLS))
  }

  predicate Shows(s: Screen, p: Page, top: int) {
    Framed(s, p, top) && s.rows[s.y][s.x] == Ink('_')
  }

  /** The window only moves when the cursor row would fall below the bottom of the screen. */
  function Follow(top: int, p: Page): (r: int)
    ensures top <= r && |p.above| - r < ROWS
  {
    if |p.above| - top < ROWS then top else |p.above| - (ROWS - 1)
  }

  /** A cell changed on the cursor row leaves the other rows as the page has them. */
  lemma RowAfterPlot(s: Screen, p: Page, top: int, c: char)
    requires Framed(s, p, top)
    ensures s.rows[s.y][s.x := Ink(c)] == p.line + [Ink(c)] + Blanks(COLS - s.x - 1)
  {
    var row := s.rows[s.y];
    assert row == row[..s.x] + [row[s.x]] + row[s.x + 1..];
  }

  /** Ending the cursor row with final contents `cells` moves on to a blank row of the page. */
  lemma BreakFollows(s: Screen, p: Page, top: int, rows: seq<seq<Cell>>, last: Line)
    requires Framed(s, p, top)
    requires WellShaped(rows) && rows == s.rows[s.y := last.cells]
    ensures var q := Page(p.above + [last], []);
            Shows(ShowCursor(BreakRow(rows, s.y)), q, Follow(top, q))
  {
    var q := Page(p.above + [last], []);
    var next := BreakRow(rows, s.y);
    var shown := ShowCursor(next);
    var top' := Follow(top, q);
    assert rows[s.y] == last.cells;
    assert next.rows[next.y] == Blanks(COLS);
    assert shown.rows[shown.y][1..] == Blanks(COLS - 1);
    forall r | 0 <= r < shown.y
      ensures shown.rows[r] == q.above[top' + r].cells
    {
      assert shown.rows[r] == next.rows[r];
    }
  }

  /** Widening the page's last row by `more`, which the screen shows at the cursor. */
  lemma WidenFollows(s: Screen, p: Page, top: int, rows: seq<seq<Cell>>, more: seq<Cell>)
    requires Framed(s, p, top) && s.x + |more| < COLS
    requires WellShaped(rows)
    requires rows == s.rows[s.y := p.line + more + Blanks(COLS - s.x - |more|)]
    ensures Shows(ShowCursor(Screen(rows, s.x + |more|, s.y)), Page(p.above, p.line + more), top)
  {
    var x := s.x + |more|;
    var shown := ShowCursor(Screen(rows, x, s.y));
    assert rows[s.y] == (p.line + more) + Blanks(COLS - x);
    assert shown.rows[s.y] == rows[s.y][x := Ink('_')];
    assert shown.rows[s.y][..x] == p.line + more;
    assert shown.rows[s.y][x + 1..] == Blanks(COLS - x - 1);
  }

  /** One drawn character keeps the window on the page. */
  lemma DrawFollowsPage(s: Screen, p: Page, top: int, c: char)
    requires Framed(s, p, top) && c != BACKSPACE
    ensures Framed(Draw(s, c), Type(p, c), Follow(top, Type(p, c)))
    ensures !TabDropped(c, s.x) ==> Shows(Draw(s, c), Type(p, c), Follow(top, Type(p, c)))
  {
    var row := s.rows[s.y];
    if IsBreak(c) {
      RowAfterPlot(s, p, top, ' ');
      assert row[s.x := Ink(' ')] == Pad(p.line);
      BreakFollows(s, p, top, Plot(s.rows, s.x, s.y, ' '), Line(Pad(p.line), Broken(|p.line|)));
    } else if c == '\t' {
      if !TabDropped(c, s.x) {
        var wide := row[..s.x] + Blanks(SPACES_NUM) + row[s.x + SPACES_NUM..];
        assert row[s.x + SPACES_NUM..] == row[s.x + 1..][SPACES_NUM - 1..];
        assert wide == p.line + Blanks(SPACES_NUM) + Blanks(COLS - s.x - SPACES_NUM);
        WidenFollows(s, p, top, PlotSpaces(s.rows, s.x, s.y), Blanks(SPACES_NUM));
      }
    } else {
      RowAfterPlot(s, p, top, c);
      if s.x + 1 < COLS {
        WidenFollows(s, p, top, Plot(s.rows, s.x, s.y, c), [Ink(c)]);
      } else {
        assert row[s.x := Ink(c)] == p.line + [Ink(c)];
        BreakFollows(s, p, top, Plot(s.rows, s.x, s.y, c), Line(p.line + [Ink(c)], Filled));
      }
    }
  }

  function TopAfter(p: Page, top: int, text: seq<char>): (r: int)
    requires p.Valid()
    ensures top <= r
    decreases |text|
  {
    if text == [] then top
    else Follow(TopAfter(p, top, text[..|text| - 1]), Layout(p, text))
  }

  lemma {:induction false} DrawAllFollowsPage(s: Screen, p: Page, top: int, text: seq<char>)
    requires Framed(s, p, top) && BACKSPACE !in text
    ensures Framed(DrawAll(s, text), Layout(p, text), TopAfter(p, top, text))
    ensures Shows(s, p, top) ==> Shows(DrawAll(s, text), Layout(p, text), TopAfter(p, top, text))
    decreases |text|
  {
    if text == [] {
    } else {
      var n := |text| - 1;
      DrawAllFollowsPage(s, p, top, text[..n]);
      DrawFollowsPage(DrawAll(s, text[..n]), Layout(p, text[..n]), TopAfter(p, top, text[..n]), text[n]);
    }
  }

  /** Typing forward, the window is always the lowest one reached: rows are never given back. */
  lemma {:induction false} TopIsLatest(p: Page, top: int, text: seq<char>)
    requires p.Valid()
    ensures TopAfter(p, top, text) == Follow(top, Layout(p, text)) || text == []
    ensures |p.above| <= |Layout(p, text).above|
    decreases |text|
  {
    if text == [] {
    } else {
      TopIsLatest(p, top, text[..|text| - 1]);
    }
  }

  lemma ShowsRow(s: Screen, p: Page, top: int, r: int)
    requires Shows(s, p, top) && 0 <= r < ROWS
    ensures s.rows[r] == PageRow(p, top + r)
  {
    if r == s.y {
      var row := s.rows[r];
      assert row == row[..s.x] + [row[s.x]] + row[s.x + 1..];
      assert PageRow(p, top + r) == p.line + [Ink('_')] + Blanks(COLS - s.x - 1);
    }
  }

  lemma ShowsEnd(s: Screen, p: Page)
    requires Shows(s, p, WindowTop(p))
    ensures IsEndOf(s, p)
  {
    forall r | 0 <= r < ROWS
      ensures s.rows[r] == PageRow(p, WindowTop(p) + r)
    {
      ShowsRow(s, p, WindowTop(p), r);
    }
  }

  /** The scrolling screen is the end of an endless page: after any backspace-free text on a cleared
      screen, video memory holds exactly the last 25 rows of the whole text laid out 80 columns wide. */
  lemma {:induction false} ScreenIsEndOfPage(text: seq<char>)
    requires text != [] && BACKSPACE !in text
    ensures IsEndOf(DrawAll(Cleared(), text), Layout(EMPTY_PAGE, text))
  {
    TopIsLatest(EMPTY_PAGE, 0, text);
    DrawAllShows(text);
    ShowsEnd(DrawAll(Cleared(), text), Layout(EMPTY_PAGE, text));
  }

  /** From a cleared screen the first character always draws the cursor mark. */
  lemma {:induction false} DrawAllShows(text: seq<char>)
    requires text != [] && BACKSPACE !in text
    ensures Shows(DrawAll(Cleared(), text), Layout(EMPTY_PAGE, text), TopAfter(EMPTY_PAGE, 0, text))
    decreases |text|
  {
    var n := |text| - 1;
    var s := DrawAll(Cleared(), text[..n]);
    assert Framed(Cleared(), EMPTY_PAGE, 0);
    DrawAllFollowsPage(Cleared(), EMPTY_PAGE, 0, text[..n]);
    DrawFollowsPage(s, Layout(EMPTY_PAGE, text[..n]), TopAfter(EMPTY_PAGE, 0, text[..n]), text[n]);
    if n == 0 {
    } else {
      DrawAllShows(text[..n]);
    }
  }

  function Glyphs(cells: seq<Cell>): (text: seq<char>)
    ensures |text| == |cells|
    ensures forall k :: 0 <= k < |text| ==> text[k] == cells[k].glyph
  {
    seq(|cells|, k requires 0 <= k < |cells| => cells[k].glyph)
  }

  /** What a finished row says: all of it if it was filled, up to the break and a newline otherwise. */
  function RowText(line: Line): seq<char> {
    match line.end
    case Filled => Glyphs(line.cells)
    case Broken(col) => Glyphs(if col <= |line.cells| then line.cells[..col] else line.cells) + ['\n']
  }

  function RowsText(rows: seq<Line>): seq<char> {
    if rows == [] then []
    else RowsText(rows[..|rows| - 1]) + RowText(rows[|rows| - 1])
  }

  /** The text a page says, read row by row. */
  function ReadBack(p: Page): seq<char> {
    RowsText(p.above) + Glyphs(p.line)
  }

  /** What a character reads as on a page: itself, a newline for a carriage return, four spaces for a Tab
      before column 75 and nothing for one from there on. */
  function AsRead(column: int, c: char): seq<char> {
    if c == '\r' then ['\n']
    else if c == '\t' then (if column < 75 then [' ', ' ', ' ', ' '] else [])
    else [c]
  }

  lemma RowsTextSnoc(rows: seq<Line>, line: Line)
    ensures RowsText(rows + [line]) == RowsText(rows) + RowText(line)
  {
    assert (rows + [line])[..|rows|] == rows;
  }

  lemma TypeReads(p: Page, c: char)
    requires p.Valid() && c != BACKSPACE
    ensures ReadBack(Type(p, c)) == ReadBack(p) + AsRead(|p.line|, c)
  {
    if IsBreak(c) {
      var line := Line(Pad(p.line), Broken(|p.line|));
      RowsTextSnoc(p.above, line);
      assert Pad(p.line)[..|p.line|] == p.line;
      assert Glyphs([]) == [];
    } else if c == '\t' {
      assert Glyphs(p.line + Blanks(SPACES_NUM)) == Glyphs(p.line) + [' ', ' ', ' ', ' '];
    } else {
      assert Glyphs(p.line + [Ink(c)]) == Glyphs(p.line) + [c];
      if |p.line| + 1 == COLS {
        RowsTextSnoc(p.above, Line(p.line + [Ink(c)], Filled));
        assert Glyphs([]) == [];
      }
    }
  }

  /** The text as it reads on the page. */
  function TextRead(text: seq<char>): seq<char>
    decreases |text|
  {
    if text == [] then []
    else
      var n := |text| - 1;
      TextRead(text[..n]) + AsRead(|Layout(EMPTY_PAGE, text[..n]).line|, text[n])
  }

  /** Nothing is lost on the page, and nothing is out of order: read row by row it says the whole text. */
  lemma {:induction false} PageReadsBack(text: seq<char>)
    requires BACKSPACE !in text
    ensures ReadBack(Layout(EMPTY_PAGE, text)) == TextRead(text)
    decreases |text|
  {
    if text == [] {
      assert Glyphs([]) == [];
    } else {
      var n := |text| - 1;
      PageReadsBack(text[..n]);
      TypeReads(Layout(EMPTY_PAGE, text[..n]), text[n]);
    }
  }

  /** Text of glyphs and newlines reads back exactly. */
  lemma {:induction false} PlainTextReadsBack(text: seq<char>)
    requires BACKSPACE !in text && '\r' !in text && '\t' !in text
    ensures ReadBack(Layout(EMPTY_PAGE, text)) == text
    ensures TextRead(text) == text
    decreases |text|
  {
    PageReadsBack(text);
    if text == [] {
    } else {
      PlainTextReadsBack(text[..|text| - 1]);
    }
  }

  /** A page is 80 columns wide, and a row breaks before its end only at a line break. */
  lemma {:induction false} PageWidth(text: seq<char>)
    ensures var p := Layout(EMPTY_PAGE, text);
            && |p.line| < 80
            && forall r :: 0 <= r < |p.above| ==>
                             |p.above[r].cells| == 80 && (p.above[r].end.Broken? ==> p.above[r].end.col < 80)
    decreases |text|
  {
    if text == [] {
    } else {
      PageWidth(text[..|text| - 1]);
    }
  }
}
