/** The terminal of Terminal.cs: three 1000 x Width grids (glyph, foreground,
    background) overwritten in place, and the public cursor, viewport and
    content fields. Each method is proved to do to the state what the
    function of the same name in module Screen does. */
module Terminal {
  import opened Screen

  class Terminal {
    const Width: int
    const Height: int

    const buffer: array2<char>
    const fgColors: array2<Rgb>
    const bgColors: array2<Rgb>

    var CursorX: int
    var CursorY: int
    var ViewportOffset: int
    var ContentLines: int

    var DefaultFg: Rgb
    var DefaultBg: Rgb
    var CurrentFg: Rgb
    var CurrentBg: Rgb

    /** The three grids seen as one grid of cells. */
    ghost var Cells: seq<seq<Cell>>

    /** The three arrays are Lines x Width and the colour grids are distinct arrays. */
    ghost predicate Frame()
      reads this
    {
      && Width >= 0
      && buffer.Length0 == Lines && buffer.Length1 == Width
      && fgColors.Length0 == Lines && fgColors.Length1 == Width
      && bgColors.Length0 == Lines && bgColors.Length1 == Width
      && fgColors != bgColors
    }

    /** Cells is what the arrays hold. */
    ghost predicate Synced()
      reads this, buffer, fgColors, bgColors
    {
      && Frame()
      && |Cells| == Lines
      && (forall y :: 0 <= y < Lines ==> |Cells[y]| == Width)
      && (forall y, x :: 0 <= y < Lines && 0 <= x < Width ==> Cells[y][x] == Cell(buffer[y, x], fgColors[y, x], bgColors[y, x]))
    }

    function CurrentPen(): Pen
      reads this
    {
      Pen(Width, Height, DefaultFg, DefaultBg, CurrentFg, CurrentBg)
    }

    ghost function Model(): State
      reads this
    {
      State(Cells, CursorX, CursorY, ViewportOffset, ContentLines)
    }

    ghost predicate Valid()
      reads this, buffer, fgColors, bgColors
    {
      Synced() && WellFormed(CurrentPen(), Model())
    }

    /** A terminal of the given size, cleared, writing white on black. */
    constructor (width: int, height: int)
      requires width >= 0
      ensures Valid() && fresh(buffer) && fresh(fgColors) && fresh(bgColors)
      ensures Width == width && Height == height
      ensures DefaultFg == Rgb(255, 255, 255) && DefaultBg == Rgb(0, 0, 0)
      ensures CurrentFg == DefaultFg && CurrentBg == DefaultBg
      ensures Model() == Cleared(CurrentPen())
    {
      Width := width;
      Height := height;
      buffer := new char[Lines, width];
      fgColors := new Rgb[Lines, width];
      bgColors := new Rgb[Lines, width];
      DefaultFg := Rgb(255, 255, 255);
      DefaultBg := Rgb(0, 0, 0);
      CurrentFg := Rgb(255, 255, 255);
      CurrentBg := Rgb(0, 0, 0);
      new;
      Clear();
    }

    method Clear()
      requires Frame()
      modifies this, buffer, fgColors, bgColors
      ensures Valid() && CurrentPen() == old(CurrentPen())
      ensures Model() == Cleared(CurrentPen())
    {
      for y := 0 to Lines
        modifies buffer, fgColors, bgColors
        invariant forall i, j :: 0 <= i < y && 0 <= j < Width ==> buffer[i, j] == ' ' && fgColors[i, j] == DefaultFg && bgColors[i, j] == DefaultBg
      {
        for x := 0 to Width
          modifies buffer, fgColors, bgColors
          invariant forall i, j :: 0 <= i < y && 0 <= j < Width ==> buffer[i, j] == ' ' && fgColors[i, j] == DefaultFg && bgColors[i, j] == DefaultBg
          invariant forall j :: 0 <= j < x ==> buffer[y, j] == ' ' && fgColors[y, j] == DefaultFg && bgColors[y, j] == DefaultBg
        {
          buffer[y, x] := ' ';
          fgColors[y, x] := DefaultFg;
          bgColors[y, x] := DefaultBg;
        }
      }
      CursorX := 0;
      CursorY := 0;
      ViewportOffset := 0;
      ContentLines := 0;
      Cells := Cleared(CurrentPen()).cells;
    }

    /** The inner loop of ScrollUp's copy: row y receives row y + 1. */
    method CopyRowUp(y: int)
      requires Frame() && 0 <= y < Lines - 1
      modifies buffer, fgColors, bgColors
      ensures forall j :: 0 <= j < Width ==>
        buffer[y, j] == old(buffer[y + 1, j]) && fgColors[y, j] == old(fgColors[y + 1, j]) && bgColors[y, j] == old(bgColors[y + 1, j])
      ensures forall i, j :: 0 <= i < Lines && i != y && 0 <= j < Width ==>
        buffer[i, j] == old(buffer[i, j]) && fgColors[i, j] == old(fgColors[i, j]) && bgColors[i, j] == old(bgColors[i, j])
    {
      for x := 0 to Width
        invariant forall j :: 0 <= j < x ==>
          buffer[y, j] == old(buffer[y + 1, j]) && fgColors[y, j] == old(fgColors[y + 1, j]) && bgColors[y, j] == old(bgColors[y + 1, j])
        invariant forall i, j :: 0 <= i < Lines && 0 <= j < Width && (i != y || j >= x) ==>
          buffer[i, j] == old(buffer[i, j]) && fgColors[i, j] == old(fgColors[i, j]) && bgColors[i, j] == old(bgColors[i, j])
      {
        buffer[y, x] := buffer[y + 1, x];
        fgColors[y, x] := fgColors[y + 1, x];
        bgColors[y, x] := bgColors[y + 1, x];
      }
    }

    /** The last loop of ScrollUp: row `last` becomes blank in the default colours. */
    method BlankRowAt(last: int)
      requires Frame() && 0 <= last < Lines
      modifies buffer, fgColors, bgColors
      ensures forall j :: 0 <= j < Width ==> buffer[last, j] == ' ' && fgColors[last, j] == DefaultFg && bgColors[last, j] == DefaultBg
      ensures forall i, j :: 0 <= i < Lines && i != last && 0 <= j < Width ==>
        buffer[i, j] == old(buffer[i, j]) && fgColors[i, j] == old(fgColors[i, j]) && bgColors[i, j] == old(bgColors[i, j])
    {
      for x := 0 to Width
        invariant forall j :: 0 <= j < x ==> buffer[last, j] == ' ' && fgColors[last, j] == DefaultFg && bgColors[last, j] == DefaultBg
        invariant forall i, j :: 0 <= i < Lines && 0 <= j < Width && (i != last || j >= x) ==>
          buffer[i, j] == old(buffer[i, j]) && fgColors[i, j] == old(fgColors[i, j]) && bgColors[i, j] == old(bgColors[i, j])
      {
        buffer[last, x] := ' ';
        fgColors[last, x] := DefaultFg;
        bgColors[last, x] := DefaultBg;
      }
    }

    /** The two loops of ScrollUp on the arrays: every row but the last takes the
        cells of the row below it, and the last row is blanked. */
    method ShiftRows()
      requires Synced()
      modifies buffer, fgColors, bgColors
      ensures Frame() && |Cells| == Lines && (forall y :: 0 <= y < Lines ==> |Cells[y]| == Width)
      ensures forall i, j :: 0 <= i < Lines - 1 && 0 <= j < Width ==>
        Cells[i + 1][j] == Cell(buffer[i, j], fgColors[i, j], bgColors[i, j])
      ensures forall j :: 0 <= j < Width ==>
        BlankRow(Width, DefaultFg, DefaultBg)[j] == Cell(buffer[Lines - 1, j], fgColors[Lines - 1, j], bgColors[Lines - 1, j])
    {
      for y := 0 to Lines - 1
        modifies buffer, fgColors, bgColors
        invariant forall i, j :: 0 <= i < y && 0 <= j < Width ==> buffer[i, j] == Cells[i + 1][j].ch && fgColors[i, j] == Cells[i + 1][j].fg && bgColors[i, j] == Cells[i + 1][j].bg
        invariant forall i, j :: y <= i < Lines && 0 <= j < Width ==> buffer[i, j] == Cells[i][j].ch && fgColors[i, j] == Cells[i][j].fg && bgColors[i, j] == Cells[i][j].bg
      {
        CopyRowUp(y);
      }
      BlankRowAt(Lines - 1);
    }

    /** Row y receives row y + 1 for every row but the last, which is blanked. */
    method ScrollUp()
      requires Synced() && Shaped(CurrentPen(), Model()) && CursorY >= 0
      modifies this, buffer, fgColors, bgColors
      ensures Synced() && CurrentPen() == old(CurrentPen())
      ensures Model() == Screen.ScrollUp(old(CurrentPen()), old(Model()))
    {
      ShiftRows();
      ghost var next := Screen.ScrollUp(CurrentPen(), Model()).cells;
      forall y, x | 0 <= y < Lines && 0 <= x < Width
        ensures next[y][x] == Cell(buffer[y, x], fgColors[y, x], bgColors[y, x])
      {
        if y < Lines - 1 {
          assert next[y] == Cells[y + 1];
        } else {
          assert next[y] == BlankRow(Width, DefaultFg, DefaultBg);
        }
      }
      Cells := next;
      if CursorY > 0 {
        CursorY := CursorY - 1;
      }
      if ViewportOffset > 0 {
        ViewportOffset := ViewportOffset - 1;
      }
      if ContentLines > 0 {
        ContentLines := ContentLines - 1;
      }
    }

    /** The newline step written out three times in WriteChar. */
    method LineFeed()
      requires Valid()
      modifies this, buffer, fgColors, bgColors
      ensures Valid() && CurrentPen() == old(CurrentPen())
      ensures Model() == Screen.LineFeed(old(CurrentPen()), old(Model()))
    {
      CursorX := 0;
      CursorY := CursorY + 1;
      if CursorY >= Lines {
        ScrollUp();
        CursorY := Lines - 1;
      }
    }

    method WriteChar(c: char)
      requires Valid() && Width >= 1 && CursorX >= 0
      modifies this, buffer, fgColors, bgColors
      ensures Valid() && CurrentPen() == old(CurrentPen())
      ensures Model() == PutChar(old(CurrentPen()), old(Model()), c)
    {
      if c == '\n' {
        LineFeed();
      } else if c == '\r' {
        CursorX := 0;
      } else if c == '\t' {
        CursorX := NextTabStop(CursorX);
        if CursorX >= Width {
          LineFeed();
        }
      } else {
        if CursorX >= Width {
          LineFeed();
        }
        PlaceChar(c);
      }
    }

    /** The printable case of WriteChar once the cursor is inside the row:
        the cell under the cursor takes the glyph in the current colours. */
    method PlaceChar(c: char)
      requires Valid() && 0 <= CursorX < Width
      modifies this, buffer, fgColors, bgColors
      ensures Valid() && CurrentPen() == old(CurrentPen())
      ensures Model() == old(Model()).(cells := old(Cells[CursorY := Cells[CursorY][CursorX := Cell(c, CurrentFg, CurrentBg)]]),
                                       cursorX := old(CursorX) + 1)
    {
      buffer[CursorY, CursorX] := c;
      fgColors[CursorY, CursorX] := CurrentFg;
      bgColors[CursorY, CursorX] := CurrentBg;
      Cells := Cells[CursorY := Cells[CursorY][CursorX := Cell(c, CurrentFg, CurrentBg)]];
      CursorX := CursorX + 1;
    }

    method Write(text: string)
      requires Valid() && Width >= 1 && CursorX >= 0
      modifies this, buffer, fgColors, bgColors
      ensures Valid() && CurrentPen() == old(CurrentPen())
      ensures Model() == Screen.Write(old(CurrentPen()), old(Model()), text)
    {
      ScrollToBottom();
      ghost var start := Model();
      for i := 0 to |text|
        invariant Valid() && CurrentPen() == old(CurrentPen()) && CursorX >= 0
        invariant Model() == PutText(CurrentPen(), start, text[..i])
      {
        assert text[..i + 1][..i] == text[..i];
        WriteChar(text[i]);
      }
      assert text[..|text|] == text;
      ContentLines := Max(ContentLines, CursorY + 1);
    }

    method PageUp()
      requires Valid()
      modifies this`ViewportOffset
      ensures Valid()
      ensures Model() == Screen.PageUp(CurrentPen(), old(Model()))
    {
      var scrollAmount := Height - 1;
      ViewportOffset := Max(0, ViewportOffset - scrollAmount);
    }

    method PageDown()
      requires Valid()
      modifies this`ViewportOffset
      ensures Valid()
      ensures Model() == Screen.PageDown(CurrentPen(), old(Model()))
    {
      var scrollAmount := Height - 1;
      var maxOffset := Max(0, ContentLines - Height);
      ViewportOffset := Min(maxOffset, ViewportOffset + scrollAmount);
    }

    method ScrollToBottom()
      requires Valid()
      modifies this`ViewportOffset
      ensures Valid()
      ensures Model() == Screen.ScrollToBottom(CurrentPen(), old(Model()))
    {
      var maxOffset := Max(0, ContentLines - Height);
      ViewportOffset := maxOffset;
    }

    function IsAtBottom(): (b: bool)
      reads this
      ensures b == Screen.IsAtBottom(CurrentPen(), Model())
    {
      var maxOffset := Max(0, ContentLines - Height);
      ViewportOffset >= maxOffset
    }

    function GetChar(x: int, y: int): (c: char)
      requires Valid()
      reads this, buffer, fgColors, bgColors
      ensures c == VisibleCell(CurrentPen(), Model(), x, y).ch
    {
      var bufferY := y + ViewportOffset;
      if x < 0 || x >= Width || y < 0 || y >= Height || bufferY >= Lines then ' '
      else buffer[bufferY, x]
    }

    function GetForegroundColor(x: int, y: int): (c: Rgb)
      requires Valid()
      reads this, buffer, fgColors, bgColors
      ensures c == VisibleCell(CurrentPen(), Model(), x, y).fg
    {
      var bufferY := y + ViewportOffset;
      if x < 0 || x >= Width || y < 0 || y >= Height || bufferY >= Lines then DefaultFg
      else fgColors[bufferY, x]
    }

    function GetBackgroundColor(x: int, y: int): (c: Rgb)
      requires Valid()
      reads this, buffer, fgColors, bgColors
      ensures c == VisibleCell(CurrentPen(), Model(), x, y).bg
    {
      var bufferY := y + ViewportOffset;
      if x < 0 || x >= Width || y < 0 || y >= Height || bufferY >= Lines then DefaultBg
      else bgColors[bufferY, x]
    }
  }
}
