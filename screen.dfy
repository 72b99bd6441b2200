/** Pure model of the scrollback cell grid behind the terminal (Terminal.cs):
    the grid of cells, the write cursor, the viewport offset and the content
    high-water mark, and what each terminal operation does to them.  The class
    Terminal.Terminal keeps the same state in arrays and is proved against the
    functions of this module. */
module Screen {

  /** Rows kept in the scrollback buffer (SCROLLBACK_LINES == TOTAL_BUFFER_LINES). */
  const Lines: int := 1000

  /** One column stop for '\t'. */
  const TabWidth: int := 8

  datatype Rgb = Rgb(r: bv8, g: bv8, b: bv8)

  datatype Cell = Cell(ch: char, fg: Rgb, bg: Rgb)

  /** What a terminal is configured with: its fixed dimensions, the colours
      that blank cells get and the colours that written characters get. */
  datatype Pen = Pen(width: int, height: int, defaultFg: Rgb, defaultBg: Rgb, fg: Rgb, bg: Rgb)

  datatype State = State(cells: seq<seq<Cell>>, cursorX: int, cursorY: int, viewportOffset: int, contentLines: int)

  function Max(a: int, b: int): int { if a >= b then a else b }

  function Min(a: int, b: int): int { if a <= b then a else b }

  /** Math.Max(0, ContentLines - Height): the offset that shows the last content row at the bottom. */
  function MaxOffset(p: Pen, s: State): int
  {
    Max(0, s.contentLines - p.height)
  }

  /** The grid has 1000 rows of exactly `width` cells, the content mark is a
      row count, and (for a terminal at least one row high) the viewport lies
      in [0, MaxOffset]. The cursor row is not constrained here. */
  predicate Shaped(p: Pen, s: State)
  {
    && p.width >= 0
    && |s.cells| == Lines
    && (forall y :: 0 <= y < Lines ==> |s.cells[y]| == p.width)
    && 0 <= s.contentLines <= Lines
    && (p.height >= 1 ==> 0 <= s.viewportOffset <= MaxOffset(p, s))
  }

  /** Shaped, and the cursor row is a row of the grid. */
  predicate WellFormed(p: Pen, s: State)
  {
    Shaped(p, s) && 0 <= s.cursorY < Lines
  }

  /** A state that Write accepts: the source indexes the grid at the cursor column,
      so the cursor column must not be negative and the grid at least one column wide. */
  predicate Writable(p: Pen, s: State)
  {
    WellFormed(p, s) && p.width >= 1 && s.cursorX >= 0
  }

  function BlankRow(width: nat, fg: Rgb, bg: Rgb): (row: seq<Cell>)
    ensures |row| == width
    ensures forall x :: 0 <= x < width ==> row[x] == Cell(' ', fg, bg)
  {
    seq(width, _ => Cell(' ', fg, bg))
  }

  /** Clear: every cell blank in the default colours, cursor home, nothing scrolled, no content. */
  function Cleared(p: Pen): (s: State)
    requires p.width >= 0
    ensures WellFormed(p, s)
    ensures forall y, x :: 0 <= y < Lines && 0 <= x < p.width ==> s.cells[y][x] == Cell(' ', p.defaultFg, p.defaultBg)
    ensures s.cursorX == 0 && s.cursorY == 0 && s.viewportOffset == 0 && s.contentLines == 0
  {
    State(seq(Lines, _ => BlankRow(p.width, p.defaultFg, p.defaultBg)), 0, 0, 0, 0)
  }

  /** ScrollUp: row y receives row y + 1, the last row is blanked, and the
      cursor row, viewport offset and content mark each drop by one, floored at 0. */
  function ScrollUp(p: Pen, s: State): (r: State)
    requires Shaped(p, s) && s.cursorY >= 0
    ensures Shaped(p, r)
    ensures forall y :: 0 <= y < Lines - 1 ==> r.cells[y] == s.cells[y + 1]
    ensures r.cells[Lines - 1] == BlankRow(p.width, p.defaultFg, p.defaultBg)
    ensures r.cursorX == s.cursorX
    ensures r.cursorY == Max(0, s.cursorY - 1)
    ensures r.viewportOffset == (if s.viewportOffset > 0 then s.viewportOffset - 1 else s.viewportOffset)
    ensures r.contentLines == Max(0, s.contentLines - 1)
  {
    State(s.cells[1..] + [BlankRow(p.width, p.defaultFg, p.defaultBg)],
          s.cursorX,
          if s.cursorY > 0 then s.cursorY - 1 else s.cursorY,
          if s.viewportOffset > 0 then s.viewportOffset - 1 else s.viewportOffset,
          if s.contentLines > 0 then s.contentLines - 1 else s.contentLines)
  }

  /** The newline step shared by '\n', an overflowing '\t' and the lazy wrap:
      column 0 of the next row, shifting the grid up when the next row would be row 1000. */
  function LineFeed(p: Pen, s: State): (r: State)
    requires WellFormed(p, s)
    ensures WellFormed(p, r)
    ensures r.cursorX == 0
    ensures s.cursorY + 1 < Lines ==> r == s.(cursorX := 0, cursorY := s.cursorY + 1)
    ensures s.cursorY + 1 >= Lines ==> r.cursorY == Lines - 1 && r.cells == ScrollUp(p, s).cells
  {
    var t := s.(cursorX := 0, cursorY := s.cursorY + 1);
    if t.cursorY >= Lines then ScrollUp(p, t).(cursorY := Lines - 1) else t
  }

  /** `(x + 8) & ~7` on a two's-complement int: x rounded down to a multiple of 8, plus 8. */
  function NextTabStop(x: int): int
  {
    (x + TabWidth) - (x + TabWidth) % TabWidth
  }

  /** The characters that WriteChar stores in a cell (everything but '\n', '\r' and '\t'). */
  predicate Printing(c: char)
  {
    c != '\n' && c != '\r' && c != '\t'
  }

  /** WriteChar: one character of output. */
  function PutChar(p: Pen, s: State, c: char): (r: State)
    requires Writable(p, s)
    ensures Writable(p, r)
    ensures r.cursorX <= p.width
    ensures r.viewportOffset <= s.viewportOffset
  {
    if c == '\n' then
      LineFeed(p, s)
    else if c == '\r' then
      s.(cursorX := 0)
    else if c == '\t' then
      var x := NextTabStop(s.cursorX);
      if x >= p.width then LineFeed(p, s) else s.(cursorX := x)
    else
      var t := if s.cursorX >= p.width then LineFeed(p, s) else s;
      t.(cells := t.cells[t.cursorY := t.cells[t.cursorY][t.cursorX := Cell(c, p.fg, p.bg)]],
         cursorX := t.cursorX + 1)
  }

  /** The characters of `text` written one after another. */
  function PutText(p: Pen, s: State, text: string): (r: State)
    requires Writable(p, s)
    ensures Writable(p, r)
    ensures text != [] ==> r.cursorX <= p.width
    ensures r.viewportOffset <= s.viewportOffset
    decreases |text|
  {
    if text == [] then s
    else PutChar(p, PutText(p, s, text[..|text| - 1]), text[|text| - 1])
  }

  /** ScrollToBottom: the viewport at the largest offset the content allows. */
  function ScrollToBottom(p: Pen, s: State): (r: State)
    requires WellFormed(p, s)
    ensures WellFormed(p, r) && IsAtBottom(p, r)
    ensures r.cells == s.cells && r.cursorX == s.cursorX && r.cursorY == s.cursorY && r.contentLines == s.contentLines
  {
    s.(viewportOffset := MaxOffset(p, s))
  }

  predicate IsAtBottom(p: Pen, s: State)
  {
    s.viewportOffset >= MaxOffset(p, s)
  }

  /** PageUp: back by one screen less one row, never above row 0. */
  function PageUp(p: Pen, s: State): (r: State)
    requires WellFormed(p, s)
    ensures WellFormed(p, r)
    ensures r.cells == s.cells && r.cursorX == s.cursorX && r.cursorY == s.cursorY && r.contentLines == s.contentLines
    ensures r.viewportOffset >= 0
    ensures p.height >= 1 ==> r.viewportOffset <= s.viewportOffset
    ensures p.height >= 1 && s.viewportOffset >= p.height - 1 ==> r.viewportOffset == s.viewportOffset - (p.height - 1)
    ensures p.height >= 1 && s.viewportOffset < p.height - 1 ==> r.viewportOffset == 0
  {
    s.(viewportOffset := Max(0, s.viewportOffset - (p.height - 1)))
  }

  /** PageDown: forward by one screen less one row, never past the bottom. */
  function PageDown(p: Pen, s: State): (r: State)
    requires WellFormed(p, s)
    ensures WellFormed(p, r)
    ensures r.cells == s.cells && r.cursorX == s.cursorX && r.cursorY == s.cursorY && r.contentLines == s.contentLines
    ensures r.viewportOffset <= MaxOffset(p, s)
    ensures p.height >= 1 ==> r.viewportOffset >= s.viewportOffset
    ensures s.viewportOffset + (p.height - 1) <= MaxOffset(p, s) ==> r.viewportOffset == s.viewportOffset + (p.height - 1)
    ensures s.viewportOffset + (p.height - 1) > MaxOffset(p, s) ==> r.viewportOffset == MaxOffset(p, s)
  {
    s.(viewportOffset := Min(MaxOffset(p, s), s.viewportOffset + (p.height - 1)))
  }

  /** Write: scroll to the bottom for the content known before the text, write
      the text, then raise the content mark to cover the cursor row. The
      viewport is not moved again after the text. */
  function Write(p: Pen, s: State, text: string): (r: State)
    requires Writable(p, s)
    ensures Writable(p, r)
    ensures text != [] ==> r.cursorX <= p.width
    ensures r.cursorY < r.contentLines <= Lines
    ensures r.viewportOffset <= MaxOffset(p, s)
  {
    var t := PutText(p, ScrollToBottom(p, s), text);
    t.(contentLines := Max(t.contentLines, t.cursorY + 1))
  }

  /** What the renderer sees at screen position (x, y): the cell at buffer row
      y + viewportOffset, or a blank in the default colours outside the grid. */
  function VisibleCell(p: Pen, s: State, x: int, y: int): (c: Cell)
    requires WellFormed(p, s)
  {
    var row := y + s.viewportOffset;
    if x < 0 || x >= p.width || y < 0 || y >= p.height || row >= Lines then Cell(' ', p.defaultFg, p.defaultBg)
    else s.cells[row][x]
  }

  /** `row` with the characters of `t`, in the pen's colours, laid over it from column `at`. */
  function Painted(row: seq<Cell>, at: nat, t: string, fg: Rgb, bg: Rgb): (r: seq<Cell>)
    requires at + |t| <= |row|
    ensures |r| == |row|
  {
    row[..at] + seq(|t|, i requires 0 <= i < |t| => Cell(t[i], fg, bg)) + row[at + |t|..]
  }

  /** `k` copies of `c`: `new string(c, k)`. */
  function Repeat(c: char, k: nat): (t: string)
    ensures |t| == k && forall i :: 0 <= i < k ==> t[i] == c
  {
    seq(k, _ => c)
  }

  /** Writing text in two pieces is writing it in one. */
  lemma {:induction false} PutTextAppend(p: Pen, s: State, a: string, b: string)
    requires Writable(p, s)
    ensures PutText(p, s, a + b) == PutText(p, PutText(p, s, a), b)
    decreases |b|
  {
    if b == [] {
      assert a + b == a;
    } else {
      var b' := b[..|b| - 1];
      assert (a + b)[..|a + b| - 1] == a + b';
      assert (a + b)[|a + b| - 1] == b[|b| - 1];
      PutTextAppend(p, s, a, b');
    }
  }

  /** Painting one more character is painting the shorter text and then
      that character in the next column. */
  lemma PaintedSnoc(row: seq<Cell>, at: nat, t: string, fg: Rgb, bg: Rgb)
    requires at + |t| <= |row| && t != []
    ensures Painted(row, at, t[..|t| - 1], fg, bg)[at + |t| - 1 := Cell(t[|t| - 1], fg, bg)] == Painted(row, at, t, fg, bg)
  {
    var before := Painted(row, at, t[..|t| - 1], fg, bg);
    var after := Painted(row, at, t, fg, bg);
    var updated := before[at + |t| - 1 := Cell(t[|t| - 1], fg, bg)];
    forall i | 0 <= i < |row| ensures updated[i] == after[i] {
      if i < at {
        assert updated[i] == row[i] == after[i];
      } else if i < at + |t| - 1 {
        assert updated[i] == Cell(t[i - at], fg, bg) == after[i];
      } else if i == at + |t| - 1 {
      } else {
        assert updated[i] == row[i] == after[i];
      }
    }
  }

  /** Printable text that fits in the rest of the cursor row is stored in that
      row from the cursor column on, in the pen's colours; the cursor ends just
      after it (at column `width` when the text reaches the end of the row:
      the wrap waits for the next character) and nothing else changes. */
  lemma {:induction false} PutPrintableInRow(p: Pen, s: State, t: string)
    requires Writable(p, s)
    requires s.cursorX + |t| <= p.width
    requires forall i :: 0 <= i < |t| ==> Printing(t[i])
    ensures PutText(p, s, t) ==
      s.(cells := s.cells[s.cursorY := Painted(s.cells[s.cursorY], s.cursorX, t, p.fg, p.bg)],
         cursorX := s.cursorX + |t|)
    decreases |t|
  {
    var row := s.cells[s.cursorY];
    if t == [] {
      assert Painted(row, s.cursorX, t, p.fg, p.bg) == row;
      assert s.cells[s.cursorY := row] == s.cells;
    } else {
      var t' := t[..|t| - 1];
      var c := t[|t| - 1];
      PutPrintableInRow(p, s, t');
      var before := Painted(row, s.cursorX, t', p.fg, p.bg);
      var after := Painted(row, s.cursorX, t, p.fg, p.bg);
      PaintedSnoc(row, s.cursorX, t, p.fg, p.bg);
      assert s.cells[s.cursorY := before][s.cursorY := after] == s.cells[s.cursorY := after];
    }
  }

  /** Write of printable text that fits in the rest of the cursor row paints
      it there from the cursor column and moves only the cursor column; no
      other row changes. The content mark then covers the cursor row, and
      (on a terminal at least one row high) the viewport is at the bottom
      computed before the text. */
  lemma WriteInRow(p: Pen, s: State, t: string)
    requires Writable(p, s)
    requires s.cursorX + |t| <= p.width
    requires forall i :: 0 <= i < |t| ==> Printing(t[i])
    ensures var r := Write(p, s, t);
      && r.cells == s.cells[s.cursorY := Painted(s.cells[s.cursorY], s.cursorX, t, p.fg, p.bg)]
      && r.cursorX == s.cursorX + |t|
      && r.cursorY == s.cursorY
      && r.contentLines == Max(s.contentLines, s.cursorY + 1)
      && (p.height >= 1 ==> r.viewportOffset == MaxOffset(p, s))
  {
    PutPrintableInRow(p, ScrollToBottom(p, s), t);
  }

  /** A full row of printable characters written from column 0 leaves the cursor
      at column `width` on the same row; one more printable character goes to
      column 0 of the next row (the grid shifting up when that row would be row
      1000), and the full row is still in the grid, just above it. */
  lemma FullRowThenWrap(p: Pen, s: State, t: string, c: char)
    requires Writable(p, s) && s.cursorX == 0
    requires |t| == p.width
    requires forall i :: 0 <= i < |t| ==> Printing(t[i])
    requires Printing(c)
    ensures PutText(p, s, t).cursorX == p.width && PutText(p, s, t).cursorY == s.cursorY
    ensures var r := PutText(p, s, t + [c]);
      var full := if s.cursorY + 1 < Lines then s.cursorY else Lines - 2;
      && r.cursorX == 1
      && r.cursorY == full + 1
      && r.cells[r.cursorY][0] == Cell(c, p.fg, p.bg)
      && forall x :: 0 <= x < p.width ==> r.cells[full][x] == Cell(t[x], p.fg, p.bg)
  {
    PutPrintableInRow(p, s, t);
    PutTextAppend(p, s, t, [c]);
    var m := PutText(p, s, t);
    assert PutText(p, m, [c]) == PutChar(p, m, c) by {
      assert [c][..0] == [];
    }
    var full := if s.cursorY + 1 < Lines then s.cursorY else Lines - 2;
    forall x | 0 <= x < p.width
      ensures LineFeed(p, m).cells[full][x] == Cell(t[x], p.fg, p.bg)
    {
      assert m.cells[s.cursorY][x] == Cell(t[x], p.fg, p.bg);
    }
  }

  /** The tab stop is the least multiple of 8 strictly beyond the cursor column. */
  lemma TabStopIsNextMultiple(x: int)
    ensures NextTabStop(x) % TabWidth == 0
    ensures x < NextTabStop(x) <= x + TabWidth
  {
  }

  /** '\t' moves to `n`, the least multiple of 8 strictly beyond the cursor
      column, when that is inside the row, and is a line feed otherwise. */
  lemma TabCharacter(p: Pen, s: State, n: int)
    requires Writable(p, s)
    requires n % TabWidth == 0 && s.cursorX < n <= s.cursorX + TabWidth
    ensures n < p.width ==> PutChar(p, s, '\t') == s.(cursorX := n)
    ensures n >= p.width ==> PutChar(p, s, '\t') == LineFeed(p, s)
  {
    TabStopIsNextMultiple(s.cursorX);
  }

  /** '\r' only returns the cursor to column 0. */
  lemma CarriageReturn(p: Pen, s: State)
    requires Writable(p, s)
    ensures PutChar(p, s, '\r') == s.(cursorX := 0)
  {
  }

  /** Newlines written on the last row shift the grid up once each: after `k`
      of them the grid holds the old rows from row `k` on followed by `k` blank
      rows, so the oldest rows are the ones discarded. */
  lemma {:induction false} FeedsAtBottom(p: Pen, s: State, k: nat)
    requires Writable(p, s) && s.cursorY == Lines - 1
    requires k <= Lines
    ensures var r := PutText(p, s, Repeat('\n', k));
      && r.cells == s.cells[k..] + seq(k, _ => BlankRow(p.width, p.defaultFg, p.defaultBg))
      && r.cursorY == Lines - 1
      && (k > 0 ==> r.cursorX == 0)
      && r.contentLines == Max(0, s.contentLines - k)
      && (p.height >= 1 ==> r.viewportOffset == Max(0, s.viewportOffset - k))
    decreases k
  {
    if k > 0 {
      assert Repeat('\n', k)[..k - 1] == Repeat('\n', k - 1);
      FeedsAtBottom(p, s, k - 1);
      var blank := BlankRow(p.width, p.defaultFg, p.defaultBg);
      var m := PutText(p, s, Repeat('\n', k - 1));
      assert (s.cells[k - 1..] + seq(k - 1, _ => blank))[1..] + [blank]
          == s.cells[k..] + seq(k, _ => blank);
    } else {
      assert s.cells[0..] + seq(0, _ => BlankRow(p.width, p.defaultFg, p.defaultBg)) == s.cells;
    }
  }

  /** Write does not depend on where the viewport was: new output discards any
      position reached by paging. */
  lemma WriteDiscardsScrollBack(p: Pen, s: State, text: string)
    requires Writable(p, s)
    ensures Write(p, PageUp(p, s), text) == Write(p, s, text)
    ensures Write(p, PageDown(p, s), text) == Write(p, s, text)
  {
  }

  /** The viewport is moved to the bottom before the text, not after it: a
      newline on a one-row terminal whose content grows leaves it above the bottom. */
  lemma WriteCanEndAboveBottom(p: Pen, s: State)
    requires Writable(p, s) && p.height == 1 && s.cursorY == 0 && s.contentLines == 0
    ensures !IsAtBottom(p, Write(p, s, "\n"))
  {
    assert "\n"[..0] == [];
  }

  /** One page down undoes one page up that did not hit the top, and one page
      up undoes one page down that did not hit the bottom. */
  lemma PagingRoundTrip(p: Pen, s: State)
    requires WellFormed(p, s) && p.height >= 1
    ensures s.viewportOffset >= p.height - 1 ==> PageDown(p, PageUp(p, s)) == s
    ensures s.viewportOffset + (p.height - 1) <= MaxOffset(p, s) ==> PageUp(p, PageDown(p, s)) == s
  {
  }
}
