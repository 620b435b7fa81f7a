/** Video memory is flat: 25 rows of 80 cells one after the other, in a page of 2048 cells. */
module VideoMemory {
  import opened Screen
  import opened Memory

  const PAGE_CELLS := 2048
  const SCREEN_CELLS := 2000

  /** The rows of the screen that starts at cell `base`. */
  function RowsAt(m: seq<Cell>, base: nat): (rows: seq<seq<Cell>>)
    requires base + SCREEN_CELLS <= |m|
    ensures WellShaped(rows)
  {
    seq(ROWS, r requires 0 <= r < ROWS => m[base + COLS * r..base + COLS * r + COLS])
  }

  lemma RowsCell(m: seq<Cell>, base: nat, x: int, y: int)
    requires base + SCREEN_CELLS <= |m| && 0 <= x < COLS && 0 <= y < ROWS
    ensures RowsAt(m, base)[y][x] == m[base + 80 * y + x]
  {
  }

  /** Storing a cell is plotting it. */
  lemma StorePlots(m: seq<Cell>, base: nat, x: int, y: int, c: char)
    requires base + SCREEN_CELLS <= |m| && 0 <= x < COLS && 0 <= y < ROWS
    ensures RowsAt(m[base + COLS * y + x := Ink(c)], base) == Plot(RowsAt(m, base), x, y, c)
  {
    var m' := m[base + COLS * y + x := Ink(c)];
    var rows, rows' := RowsAt(m, base), RowsAt(m', base);
    forall r | 0 <= r < ROWS
      ensures rows'[r] == Plot(rows, x, y, c)[r]
    {
      forall k | 0 <= k < COLS
        ensures rows'[r][k] == Plot(rows, x, y, c)[r][k]
      {
        RowsCell(m, base, k, r);
        RowsCell(m', base, k, r);
      }
    }
  }

  /** Moving 24 rows of cells up by one row and blanking the last is the scroll of the rows. */
  lemma MoveScrolls(m: seq<Cell>, m': seq<Cell>, base: nat)
    requires base + SCREEN_CELLS <= |m| == |m'|
    requires m'[base..base + SCREEN_CELLS - COLS] == m[base + COLS..base + SCREEN_CELLS]
    requires m'[base + SCREEN_CELLS - COLS..base + SCREEN_CELLS] == Blanks(COLS)
    ensures RowsAt(m', base) == RowsAt(m, base)[1..] + [Blanks(COLS)]
  {
    var rows, rows' := RowsAt(m, base), RowsAt(m', base);
    forall r | 0 <= r < ROWS
      ensures rows'[r] == (rows[1..] + [Blanks(COLS)])[r]
    {
      var lo := COLS * r;
      if r < ROWS - 1 {
        SliceOfSlice(m', base, base + SCREEN_CELLS - COLS, lo, lo + COLS);
        SliceOfSlice(m, base + COLS, base + SCREEN_CELLS, lo, lo + COLS);
        assert rows[1..][r] == rows[r + 1];
      }
    }
  }

  lemma SliceOfSlice<T>(m: seq<T>, lo: nat, hi: nat, a: nat, b: nat)
    requires lo <= hi <= |m| && a <= b <= hi - lo
    ensures m[lo..hi][a..b] == m[lo + a..lo + b]
  {
    forall k | 0 <= k < b - a
      ensures m[lo..hi][a..b][k] == m[lo + a..lo + b][k]
    {
      assert m[lo..hi][a..b][k] == m[lo..hi][a + k] == m[lo + (a + k)];
    }
  }

  /** Two memories that differ only in the screen at `base`. */
  predicate SameOutside(m: seq<Cell>, m': seq<Cell>, base: nat) {
    && base + SCREEN_CELLS <= |m| == |m'|
    && m'[..base] == m[..base]
    && m'[base + SCREEN_CELLS..] == m[base + SCREEN_CELLS..]
  }

  /** A screen depends only on its own cells. */
  lemma RowsFrame(m: seq<Cell>, m': seq<Cell>, base: nat, base': nat)
    requires base + SCREEN_CELLS <= |m| && base' + SCREEN_CELLS <= |m'|
    requires m[base..base + SCREEN_CELLS] == m'[base'..base' + SCREEN_CELLS]
    ensures RowsAt(m, base) == RowsAt(m', base')
  {
    forall r | 0 <= r < ROWS
      ensures RowsAt(m, base)[r] == RowsAt(m', base')[r]
    {
      SliceOfSlice(m, base, base + SCREEN_CELLS, COLS * r, COLS * r + COLS);
      SliceOfSlice(m', base', base' + SCREEN_CELLS, COLS * r, COLS * r + COLS);
    }
  }

  /** Writing one screen leaves a screen elsewhere in memory alone. */
  lemma OtherScreen(m: seq<Cell>, m': seq<Cell>, base: nat, other: nat)
    requires SameOutside(m, m', base) && other + SCREEN_CELLS <= |m|
    requires other + SCREEN_CELLS <= base || base + SCREEN_CELLS <= other
    ensures RowsAt(m', other) == RowsAt(m, other)
  {
    forall k | other <= k < other + SCREEN_CELLS
      ensures m'[k] == m[k]
    {
      if k < base {
        assert m'[k] == m'[..base][k];
      } else {
        assert m'[k] == m'[base + SCREEN_CELLS..][k - (base + SCREEN_CELLS)];
      }
    }
    RowsFrame(m, m', other, other);
  }

  /** A page of cells copied whole carries its screen along. */
  lemma MovedScreen(m: seq<Cell>, dest: nat, src: nat)
    requires dest + PAGE_CELLS <= |m| && src + PAGE_CELLS <= |m|
    ensures RowsAt(Moved(m, dest, src, PAGE_CELLS), dest) == RowsAt(m, src)
  {
    var m' := Moved(m, dest, src, PAGE_CELLS);
    forall k | dest <= k < dest + SCREEN_CELLS
      ensures m'[k] == m[src + (k - dest)]
    {
      MovedAt(m, dest, src, PAGE_CELLS, k);
    }
    RowsFrame(m', m, dest, src);
  }

  lemma MovedElsewhere(m: seq<Cell>, dest: nat, src: nat, other: nat)
    requires dest + PAGE_CELLS <= |m| && src + PAGE_CELLS <= |m| && other + PAGE_CELLS <= |m|
    requires other + PAGE_CELLS <= dest || dest + PAGE_CELLS <= other
    ensures RowsAt(Moved(m, dest, src, PAGE_CELLS), other) == RowsAt(m, other)
  {
    var m' := Moved(m, dest, src, PAGE_CELLS);
    forall k | other <= k < other + SCREEN_CELLS
      ensures m'[k] == m[k]
    {
      MovedAt(m, dest, src, PAGE_CELLS, k);
    }
    RowsFrame(m', m, other, other);
  }
}
