/** Pure model of the line editor of Machine/Shell.cs: a one-line input buffer
    edited at a prompt column of the terminal, a history of submitted lines
    with a browsing index, and submission to an external executor.  The class
    Shell.Shell is proved to do what these functions say.

    An exception thrown by the source (String.Insert, String.Remove or
    `new string(' ', n)` with a bad argument) escapes the frame update and ends
    the program; the functions return None for it. */
module Editor {
  import opened Wrappers
  import opened Screen

  /** What the executor reports: success, the value it returned (None for
      null, otherwise its display text) and the error message. */
  datatype ExecResult = ExecResult(success: bool, returnValue: Option<string>, errorMessage: string)

  /** The input of one frame: the character codes queued by the text-input
      channel, in order (the first code <= 0 ends the queue, as GetCharPressed
      returning 0 does), and for each control key whether it fires this frame
      (Enter on a press, the others on a press or an auto-repeat). */
  datatype Keys = Keys(typed: seq<int>, enter: bool, back: bool, up: bool, down: bool, left: bool, right: bool)

  /** The editor's static fields together with the terminal it draws on. */
  datatype Session = Session(buffer: string, history: seq<string>, historyIndex: int, offset: int, screen: State)

  /** The terminal accepts writes and the prompt column is a column. */
  predicate Valid(p: Pen, e: Session)
  {
    Writable(p, e.screen) && e.offset >= 0
  }

  /** The cursor is inside the edited text: between the prompt column and the end of the buffer. */
  predicate Positioned(e: Session)
  {
    e.offset <= e.screen.cursorX <= e.offset + |e.buffer|
  }

  /** .NET char.IsWhiteSpace: the separators of Unicode categories Zs, Zl and Zp,
      and U+0009 to U+000D and U+0085. */
  predicate IsWhiteSpace(c: char)
  {
    || c == ' ' || ('\t' <= c <= '\r') || c == '\U{85}' || c == '\U{A0}' || c == '\U{1680}'
    || ('\U{2000}' <= c <= '\U{200A}') || c == '\U{2028}' || c == '\U{2029}' || c == '\U{202F}'
    || c == '\U{205F}' || c == '\U{3000}'
  }

  /** string.IsNullOrWhiteSpace. */
  predicate Blank(s: string)
  {
    forall i :: 0 <= i < |s| ==> IsWhiteSpace(s[i])
  }

  /** The codes that the editor inserts into the buffer. */
  predicate Typeable(key: int)
  {
    32 <= key <= 126
  }

  /** Every character of `s` is one the editor can type. */
  predicate Typed(s: string)
  {
    forall i :: 0 <= i < |s| ==> Typeable(s[i] as int)
  }

  /** The editor invariant kept from frame to frame: a writable terminal, the
      cursor inside the edited text, and only typeable characters in the
      buffer and in the history. */
  predicate Editing(p: Pen, e: Session)
  {
    && Valid(p, e)
    && Positioned(e)
    && Typed(e.buffer)
    && (forall k :: 0 <= k < |e.history| ==> Typed(e.history[k]))
  }

  /** The suffix of `s` after its leading white space. */
  function TrimStart(s: string): (r: string)
    ensures |r| <= |s| && r == s[|s| - |r|..]
    ensures Blank(s[..|s| - |r|])
    ensures r == [] || !IsWhiteSpace(r[0])
  {
    if s != [] && IsWhiteSpace(s[0]) then
      var r := TrimStart(s[1..]);
      assert s[..|s| - |r|] == [s[0]] + s[1..][..|s| - 1 - |r|];
      r
    else s
  }

  /** The prefix of `s` before its trailing white space. */
  function TrimEnd(s: string): (r: string)
    ensures |r| <= |s| && r == s[..|r|]
    ensures Blank(s[|r|..])
    ensures r == [] || !IsWhiteSpace(r[|r| - 1])
  {
    if s != [] && IsWhiteSpace(s[|s| - 1]) then
      var r := TrimEnd(s[..|s| - 1]);
      assert s[|r|..] == s[..|s| - 1][|r|..] + [s[|s| - 1]];
      r
    else s
  }

  /** string.Trim. */
  function Trim(s: string): string
  {
    TrimEnd(TrimStart(s))
  }

  /** The column at which ShowPrompt leaves the cursor after "\n> ". */
  function PromptColumn(width: int): int
  {
    if width >= 2 then 2 else 1
  }

  /** ShowPrompt: write "\n> ", take the cursor column as the prompt column,
      clear the rest of the row with spaces and put the cursor back. */
  function ShowPrompt(p: Pen, e: Session): (r: Session)
    requires Valid(p, e)
    ensures Valid(p, r)
    ensures r.buffer == e.buffer && r.history == e.history && r.historyIndex == e.historyIndex
  {
    var s1 := Write(p, e.screen, "\n> ");
    var offset := s1.cursorX;
    var s2 := Write(p, s1, Repeat(' ', p.width - offset));
    e.(offset := offset, screen := s2.(cursorX := offset))
  }

  /** The redraw of the input line: cursor to the prompt column, the buffer
      padded with spaces to the end of the row, cursor to `column`. The padding
      count is negative, and the source throws, when the buffer does not fit. */
  function Redraw(p: Pen, e: Session, column: int): (r: Option<Session>)
    requires Valid(p, e) && column >= 0
    ensures r.Some? ==> Valid(p, r.value)
  {
    var pad := p.width - e.offset - |e.buffer|;
    if pad < 0 then None
    else Some(e.(screen := Write(p, e.screen.(cursorX := e.offset), e.buffer + Repeat(' ', pad)).(cursorX := column)))
  }

  /** A typed character: inserted at the cursor, line redrawn, cursor after it. */
  function Insert(p: Pen, e: Session, c: char): (r: Option<Session>)
    requires Valid(p, e)
    ensures r.Some? ==> Valid(p, r.value)
  {
    var pos := e.screen.cursorX - e.offset;
    if pos < 0 || pos > |e.buffer| then None
    else Redraw(p, e.(buffer := e.buffer[..pos] + [c] + e.buffer[pos..]), e.offset + pos + 1)
  }

  /** The loop over the character queue: every code in 32..126 is inserted in
      order, other codes are skipped, and a code <= 0 ends the queue. */
  function Drain(p: Pen, e: Session, typed: seq<int>): (r: Option<Session>)
    requires Valid(p, e)
    ensures r.Some? ==> Valid(p, r.value)
    decreases |typed|
  {
    if typed == [] || typed[0] <= 0 then Some(e)
    else
      var next := if Typeable(typed[0]) then Insert(p, e, typed[0] as char) else Some(e);
      match next
      case None => None
      case Some(e') => Drain(p, e', typed[1..])
  }

  /** Backspace: when the cursor is past the prompt column and the buffer is not
      empty, the character before the cursor is removed and the line redrawn. */
  function Backspace(p: Pen, e: Session): (r: Option<Session>)
    requires Valid(p, e)
    ensures r.Some? ==> Valid(p, r.value)
  {
    var pos := e.screen.cursorX - e.offset;
    if pos > 0 && |e.buffer| > 0 then
      if pos > |e.buffer| then None
      else Redraw(p, e.(buffer := e.buffer[..pos - 1] + e.buffer[pos..]), e.offset + pos - 1)
    else Some(e)
  }

  function MoveLeft(e: Session): Session
  {
    if e.screen.cursorX > e.offset then e.(screen := e.screen.(cursorX := e.screen.cursorX - 1)) else e
  }

  function MoveRight(e: Session): Session
  {
    if e.screen.cursorX < e.offset + |e.buffer| then e.(screen := e.screen.(cursorX := e.screen.cursorX + 1)) else e
  }

  /** The history index that one step in `direction` moves to, or None when the step does nothing. */
  function HistoryTarget(history: seq<string>, index: int, direction: int): (r: Option<int>)
  {
    if |history| == 0 then None
    else
      var newIndex := index + direction;
      if 0 <= newIndex < |history| then Some(newIndex)
      else if newIndex >= |history| then Some(|history|)
      else None
  }

  /** The line shown at a history index: the entry, or the fresh empty line past the end. */
  function Entry(history: seq<string>, index: int): string
    requires 0 <= index <= |history|
  {
    if index < |history| then history[index] else ""
  }

  /** NavigateHistory followed by RedrawInputLine. */
  function Navigate(p: Pen, e: Session, direction: int): (r: Option<Session>)
    requires Valid(p, e)
    ensures r.Some? ==> Valid(p, r.value)
  {
    match HistoryTarget(e.history, e.historyIndex, direction)
    case None => Some(e)
    case Some(i) =>
      var line := Entry(e.history, i);
      Redraw(p, e.(historyIndex := i, buffer := line), e.offset + |line|)
  }

  /** The text written for an execution result, or None when nothing is written
      (success with a null value). */
  function Report(result: ExecResult): Option<string>
  {
    if result.success then
      match result.returnValue
      case Some(v) => Some("=> " + v + "\n")
      case None => None
    else Some("Error: " + result.errorMessage + "\n")
  }

  /** ExecuteLine: a newline; a blank buffer only gets a new prompt; otherwise
      the untrimmed line joins the history, the browsing index moves past it,
      the buffer empties, the trimmed line is executed and its report written,
      and a new prompt follows. */
  function Submit(p: Pen, e: Session, execute: string -> ExecResult): (r: Session)
    requires Valid(p, e)
    ensures Valid(p, r)
  {
    var s1 := Write(p, e.screen, "\n");
    if Blank(e.buffer) then ShowPrompt(p, e.(screen := s1))
    else
      var history := e.history + [e.buffer];
      var s2 := match Report(execute(Trim(e.buffer)))
                case None => s1
                case Some(text) => Write(p, s1, text);
      ShowPrompt(p, Session("", history, |history|, e.offset, s2))
  }

  /** ProcessInput for one frame: the character queue first, then at most one
      control key, Enter before Backspace before Up, Down, Left and Right. */
  function Tick(p: Pen, e: Session, keys: Keys, execute: string -> ExecResult): (r: Option<Session>)
    requires Valid(p, e)
    ensures r.Some? ==> Valid(p, r.value)
  {
    match Drain(p, e, keys.typed)
    case None => None
    case Some(d) =>
      if keys.enter then Some(Submit(p, d, execute))
      else if keys.back then Backspace(p, d)
      else if keys.up then Navigate(p, d, -1)
      else if keys.down then Navigate(p, d, 1)
      else if keys.left then Some(MoveLeft(d))
      else if keys.right then Some(MoveRight(d))
      else Some(d)
  }

  /** The characters of typed key codes. */
  function Chars(typed: seq<int>): (t: string)
    requires forall k :: 0 <= k < |typed| ==> Typeable(typed[k])
  {
    seq(|typed|, k requires 0 <= k < |typed| && Typeable(typed[k]) => typed[k] as char)
  }

  // ---------------------------------------------------------------- Trimming

  /** string.IsNullOrWhiteSpace(s) holds exactly when s.Trim() is empty, and a
      line that is not blank is trimmed to one that starts and ends with a
      character that is not white space. */
  lemma BlankIffTrimmedEmpty(s: string)
    ensures Blank(s) <==> Trim(s) == ""
    ensures !Blank(s) ==> !IsWhiteSpace(Trim(s)[0]) && !IsWhiteSpace(Trim(s)[|Trim(s)| - 1])
  {
    var a := TrimStart(s);
    assert s[..|s|] == s && a[0..] == a;
    if Blank(s) {
      BlankTrimStart(s);
    } else {
      var b := TrimEnd(a);
      if b != [] {
        assert b[0] == a[0];
      }
    }
  }

  /** TrimStart of a blank line is empty. */
  lemma {:induction false} BlankTrimStart(s: string)
    requires Blank(s)
    ensures TrimStart(s) == ""
    decreases |s|
  {
    if s != [] {
      BlankTrimStart(s[1..]);
    }
  }

  /** Trim is idempotent. */
  lemma TrimIdempotent(s: string)
    ensures Trim(Trim(s)) == Trim(s)
  {
    var t := Trim(s);
    if t != [] {
      assert t[0] == TrimStart(s)[0];
    }
  }

  // ------------------------------------------------------------------ Prompt

  /** ShowPrompt sets the prompt column to 2 on a terminal at least two columns
      wide (1 on a one-column terminal) and leaves the cursor there. On a wide
      terminal the padding ends at the right edge, so the cursor stays on the
      prompt row: that row reads "> " followed by blanks to the edge. */
  lemma PromptLayout(p: Pen, e: Session)
    requires Valid(p, e)
    ensures var r := ShowPrompt(p, e);
      && r.offset == PromptColumn(p.width)
      && r.screen.cursorX == r.offset
      && (p.width >= 2 ==>
            && r.screen.cells[r.screen.cursorY][0] == Cell('>', p.fg, p.bg)
            && forall x :: 1 <= x < p.width ==> r.screen.cells[r.screen.cursorY][x] == Cell(' ', p.fg, p.bg))
  {
    var s1 := Write(p, e.screen, "\n> ");
    PromptText(p, e.screen);
    if p.width >= 2 {
      WriteInRow(p, s1, Repeat(' ', p.width - 2));
    }
  }

  /** Writing "\n> " leaves the cursor at the prompt column; on a terminal at
      least two columns wide the row it is on starts with "> ". */
  lemma PromptText(p: Pen, s: State)
    requires Writable(p, s) && p.width >= 1
    ensures var r := Write(p, s, "\n> ");
      && r.cursorX == PromptColumn(p.width)
      && (p.width >= 2 ==> r.cells[r.cursorY][0] == Cell('>', p.fg, p.bg) && r.cells[r.cursorY][1] == Cell(' ', p.fg, p.bg))
  {
    var s0 := ScrollToBottom(p, s);
    assert "\n> "[..2] == "\n>" && "\n>"[..1] == "\n" && "\n"[..0] == "";
    var a := PutChar(p, s0, '\n');
    var b := PutChar(p, a, '>');
    var c := PutChar(p, b, ' ');
    assert PutText(p, s0, "\n> ") == c;
    if p.width >= 2 {
      assert c.cursorX == 2;
      var row := c.cells[c.cursorY];
      assert row[0] == Cell('>', p.fg, p.bg) && row[1] == Cell(' ', p.fg, p.bg);
    }
  }

  // ------------------------------------------------------------------ Redraw

  /** RedrawInputLine and the two inline redraws throw exactly when the buffer
      does not fit between the prompt column and the right edge. Otherwise the
      cursor row shows the buffer from the prompt column followed by blanks to
      the edge, no other row changes, the cursor goes to `column` on the same
      row, and the editor fields are untouched. */
  lemma RedrawLine(p: Pen, e: Session, column: int)
    requires Valid(p, e) && column >= 0 && Typed(e.buffer)
    ensures Redraw(p, e, column).None? <==> e.offset + |e.buffer| > p.width
    ensures Redraw(p, e, column).Some? ==>
      var r := Redraw(p, e, column).value;
      var cy := e.screen.cursorY;
      && r.buffer == e.buffer && r.history == e.history && r.historyIndex == e.historyIndex && r.offset == e.offset
      && r.screen.cursorX == column && r.screen.cursorY == cy
      && (forall k :: 0 <= k < |e.buffer| ==> r.screen.cells[cy][e.offset + k] == Cell(e.buffer[k], p.fg, p.bg))
      && (forall x :: e.offset + |e.buffer| <= x < p.width ==> r.screen.cells[cy][x] == Cell(' ', p.fg, p.bg))
      && (forall y :: 0 <= y < Lines && y != cy ==> r.screen.cells[y] == e.screen.cells[y])
  {
    var pad := p.width - e.offset - |e.buffer|;
    if pad >= 0 {
      var t := e.buffer + Repeat(' ', pad);
      var s := e.screen.(cursorX := e.offset);
      WriteInRow(p, s, t);
      var row := Painted(s.cells[s.cursorY], e.offset, t, p.fg, p.bg);
      forall k | 0 <= k < |e.buffer|
        ensures row[e.offset + k] == Cell(e.buffer[k], p.fg, p.bg)
      {
        assert t[k] == e.buffer[k];
      }
      forall x | e.offset + |e.buffer| <= x < p.width
        ensures row[x] == Cell(' ', p.fg, p.bg)
      {
        assert t[x - e.offset] == ' ';
      }
    }
  }

  // ----------------------------------------------------------------- Editing

  /** A typed character goes into the buffer at the cursor and the cursor moves
      past it; the program throws exactly when the longer buffer would not fit
      in the row. */
  lemma InsertAtCursor(p: Pen, e: Session, c: char)
    requires Editing(p, e) && Typeable(c as int)
    ensures Insert(p, e, c).None? <==> e.offset + |e.buffer| + 1 > p.width
    ensures Insert(p, e, c).Some? ==>
      var r := Insert(p, e, c).value;
      var pos := e.screen.cursorX - e.offset;
      && r.buffer == e.buffer[..pos] + [c] + e.buffer[pos..]
      && r.screen.cursorX == e.screen.cursorX + 1 && r.screen.cursorY == e.screen.cursorY
      && r.history == e.history && r.historyIndex == e.historyIndex && r.offset == e.offset
      && Editing(p, r)
  {
    var pos := e.screen.cursorX - e.offset;
    var b := e.buffer[..pos] + [c] + e.buffer[pos..];
    assert Typed(b) by {
      forall i | 0 <= i < |b| ensures Typeable(b[i] as int) {
        if i > pos { assert b[i] == e.buffer[i - 1]; }
      }
    }
    RedrawLine(p, e.(buffer := b), e.offset + pos + 1);
  }

  /** Draining the queue keeps the editor invariant, the history, the browsing
      index, the prompt column and the cursor row. */
  lemma {:induction false} DrainKeeps(p: Pen, e: Session, typed: seq<int>)
    requires Editing(p, e)
    ensures Drain(p, e, typed).Some? ==>
      var r := Drain(p, e, typed).value;
      && Editing(p, r)
      && r.history == e.history && r.historyIndex == e.historyIndex && r.offset == e.offset
      && r.screen.cursorY == e.screen.cursorY
    decreases |typed|
  {
    if typed != [] && typed[0] > 0 {
      if Typeable(typed[0]) {
        InsertAtCursor(p, e, typed[0] as char);
        if Insert(p, e, typed[0] as char).Some? {
          DrainKeeps(p, Insert(p, e, typed[0] as char).value, typed[1..]);
        }
      } else {
        DrainKeeps(p, e, typed[1..]);
      }
    }
  }

  /** Typing at the end of the line: characters in 32..126 are appended in
      order and the cursor follows them. The program throws exactly when they
      run past the right edge. */
  lemma {:induction false} TypingAppends(p: Pen, e: Session, typed: seq<int>)
    requires Editing(p, e) && e.screen.cursorX == e.offset + |e.buffer| && e.offset + |e.buffer| <= p.width
    requires forall k :: 0 <= k < |typed| ==> Typeable(typed[k])
    ensures Drain(p, e, typed).Some? <==> e.offset + |e.buffer| + |typed| <= p.width
    ensures Drain(p, e, typed).Some? ==>
      var r := Drain(p, e, typed).value;
      && r.buffer == e.buffer + Chars(typed)
      && r.screen.cursorX == r.offset + |r.buffer|
      && r.history == e.history && r.historyIndex == e.historyIndex && r.offset == e.offset
    decreases |typed|
  {
    if typed != [] {
      var c := typed[0] as char;
      assert Typeable(typed[0]);
      AppendAtEnd(p, e, c);
      DrainStep(p, e, typed);
      var next := Insert(p, e, c);
      if next.Some? {
        var e' := next.value;
        TypingAppends(p, e', typed[1..]);
        ChainChars(typed, e.buffer, e'.buffer);
      }
    } else {
      assert Chars(typed) == [];
    }
  }

  /** Appending the first typed character and then the rest is appending
      them all. */
  lemma ChainChars(typed: seq<int>, b: string, b': string)
    requires typed != [] && Typeable(typed[0]) && forall k :: 0 <= k < |typed| ==> Typeable(typed[k])
    requires b' == b + [typed[0] as char]
    ensures b' + Chars(typed[1..]) == b + Chars(typed)
  {
    var rest := Chars(typed[1..]);
    forall k | 1 <= k < |typed| ensures Chars(typed)[k] == rest[k - 1] {
      assert typed[1..][k - 1] == typed[k];
    }
    assert Chars(typed) == [typed[0] as char] + rest;
  }


  /** The first turn of the loop over the character queue. */
  lemma DrainStep(p: Pen, e: Session, typed: seq<int>)
    requires Valid(p, e) && typed != [] && Typeable(typed[0])
    ensures Drain(p, e, typed) ==
      match Insert(p, e, typed[0] as char)
      case None => None
      case Some(e') => Drain(p, e', typed[1..])
  {
  }

  /** One character typed at the end of the line is appended. */
  lemma AppendAtEnd(p: Pen, e: Session, c: char)
    requires Editing(p, e) && e.screen.cursorX == e.offset + |e.buffer| && Typeable(c as int)
    ensures Insert(p, e, c).None? <==> e.offset + |e.buffer| + 1 > p.width
    ensures Insert(p, e, c).Some? ==>
      var r := Insert(p, e, c).value;
      && Editing(p, r) && r.buffer == e.buffer + [c] && r.screen.cursorX == r.offset + |r.buffer|
      && r.history == e.history && r.historyIndex == e.historyIndex && r.offset == e.offset
  {
    InsertAtCursor(p, e, c);
    var pos := e.screen.cursorX - e.offset;
    assert e.buffer[..pos] == e.buffer && e.buffer[pos..] == [];
  }

  /** Backspace within a line that fits never throws: past the prompt column
      on a non-empty buffer it removes the character before the cursor and moves
      the cursor back one column; otherwise it changes nothing. */
  lemma BackspaceRemoves(p: Pen, e: Session)
    requires Editing(p, e) && e.offset + |e.buffer| <= p.width
    ensures Backspace(p, e).Some?
    ensures var r := Backspace(p, e).value;
      var pos := e.screen.cursorX - e.offset;
      if pos > 0 && |e.buffer| > 0 then
        && r.buffer == e.buffer[..pos - 1] + e.buffer[pos..]
        && r.screen.cursorX == e.screen.cursorX - 1 && r.screen.cursorY == e.screen.cursorY
        && r.history == e.history && r.historyIndex == e.historyIndex && r.offset == e.offset
        && Editing(p, r)
      else r == e
  {
    var pos := e.screen.cursorX - e.offset;
    if pos > 0 && |e.buffer| > 0 {
      var b := e.buffer[..pos - 1] + e.buffer[pos..];
      assert Typed(b) by {
        forall i | 0 <= i < |b| ensures Typeable(b[i] as int) {
          if i >= pos - 1 { assert b[i] == e.buffer[i + 1]; }
        }
      }
      RedrawLine(p, e.(buffer := b), e.offset + pos - 1);
    }
  }

  /** Left undoes Right and Right undoes Left wherever the first move is not
      stopped at an end of the text, and both keep the cursor inside the text. */
  lemma ArrowsRoundTrip(e: Session)
    requires Positioned(e)
    ensures Positioned(MoveLeft(e)) && Positioned(MoveRight(e))
    ensures e.screen.cursorX > e.offset ==> MoveRight(MoveLeft(e)) == e
    ensures e.screen.cursorX < e.offset + |e.buffer| ==> MoveLeft(MoveRight(e)) == e
    ensures e.screen.cursorX == e.offset ==> MoveLeft(e) == e
    ensures e.screen.cursorX == e.offset + |e.buffer| ==> MoveRight(e) == e
  {
  }

  // ----------------------------------------------------------------- History

  /** One history step: nothing happens on an empty history or below entry 0;
      otherwise the index moves by `direction` and is capped at the fresh line
      one past the newest entry. */
  lemma HistoryStep(history: seq<string>, index: int, direction: int)
    ensures var t := HistoryTarget(history, index, direction);
      && (t.None? <==> |history| == 0 || index + direction < 0)
      && (t.Some? ==> t.value == Min(index + direction, |history|) && 0 <= t.value <= |history|)
  {
  }

  /** NavigateHistory: a step that happens loads the entry (or the empty fresh
      line), shows it on the cursor row and puts the cursor after it; it throws
      only when that line does not fit. */
  lemma NavigateLoads(p: Pen, e: Session, direction: int)
    requires Editing(p, e)
    ensures HistoryTarget(e.history, e.historyIndex, direction).None? ==> Navigate(p, e, direction) == Some(e)
    ensures HistoryTarget(e.history, e.historyIndex, direction).Some? ==>
      var i := HistoryTarget(e.history, e.historyIndex, direction).value;
      var line := Entry(e.history, i);
      var r := Navigate(p, e, direction);
      && (r.None? <==> e.offset + |line| > p.width)
      && (r.Some? ==>
            && r.value.buffer == line && r.value.historyIndex == i && r.value.history == e.history
            && r.value.offset == e.offset
            && r.value.screen.cursorX == e.offset + |line| && r.value.screen.cursorY == e.screen.cursorY
            && (forall k :: 0 <= k < |line| ==> r.value.screen.cells[e.screen.cursorY][e.offset + k] == Cell(line[k], p.fg, p.bg))
            && Editing(p, r.value))
  {
    match HistoryTarget(e.history, e.historyIndex, direction)
    case None =>
    case Some(i) =>
      var line := Entry(e.history, i);
      RedrawLine(p, e.(historyIndex := i, buffer := line), e.offset + |line|);
  }

  /** After three lines are submitted, three Up presses recall them newest
      first and three Down presses walk forward again to the empty fresh line. */
  lemma RecallThreeLines(p: Pen, e: Session, l1: string, l2: string, l3: string)
    requires Editing(p, e)
    requires e.history == [l1, l2, l3] && e.historyIndex == 3
    requires e.offset + |l1| <= p.width && e.offset + |l2| <= p.width && e.offset + |l3| <= p.width
    ensures var u1 := Navigate(p, e, -1);
      u1.Some? && u1.value.buffer == l3 &&
      var u2 := Navigate(p, u1.value, -1);
      u2.Some? && u2.value.buffer == l2 &&
      var u3 := Navigate(p, u2.value, -1);
      u3.Some? && u3.value.buffer == l1 &&
      var d1 := Navigate(p, u3.value, 1);
      d1.Some? && d1.value.buffer == l2 &&
      var d2 := Navigate(p, d1.value, 1);
      d2.Some? && d2.value.buffer == l3 &&
      var d3 := Navigate(p, d2.value, 1);
      d3.Some? && d3.value.buffer == "" && d3.value.historyIndex == 3
  {
    NavigateLoads(p, e, -1);
    var u1 := Navigate(p, e, -1).value;
    NavigateLoads(p, u1, -1);
    var u2 := Navigate(p, u1, -1).value;
    NavigateLoads(p, u2, -1);
    var u3 := Navigate(p, u2, -1).value;
    NavigateLoads(p, u3, 1);
    var d1 := Navigate(p, u3, 1).value;
    NavigateLoads(p, d1, 1);
    var d2 := Navigate(p, d1, 1).value;
    NavigateLoads(p, d2, 1);
  }

  // -------------------------------------------------------------- Submission

  /** Nothing is written for a successful execution without a value; a value is
      shown after "=> " and a failure after "Error: ", each on a line of its own. */
  lemma ReportLines(result: ExecResult)
    ensures Report(result).None? <==> result.success && result.returnValue.None?
    ensures Report(result).Some? ==> var t := Report(result).value;
      && |t| > 0 && t[|t| - 1] == '\n'
      && (result.success ==> t == "=> " + result.returnValue.value + "\n")
      && (!result.success ==> t[..7] == "Error: " && t[7..|t| - 1] == result.errorMessage)
  {
  }

  /** Submitting a blank buffer executes nothing: the result does not depend on
      the executor, and the buffer, history and browsing index are kept. */
  lemma SubmitBlank(p: Pen, e: Session, ex1: string -> ExecResult, ex2: string -> ExecResult)
    requires Valid(p, e) && Blank(e.buffer)
    ensures Submit(p, e, ex1) == Submit(p, e, ex2)
    ensures var r := Submit(p, e, ex1);
      r.buffer == e.buffer && r.history == e.history && r.historyIndex == e.historyIndex
  {
  }

  /** Submitting a non-blank buffer records the untrimmed line as the newest
      history entry, moves the browsing index past it, empties the buffer and
      leaves the cursor at a fresh prompt; the executor is consulted only on
      the trimmed line, which is never empty. */
  lemma SubmitLine(p: Pen, e: Session, ex1: string -> ExecResult, ex2: string -> ExecResult)
    requires Valid(p, e) && !Blank(e.buffer)
    requires ex1(Trim(e.buffer)) == ex2(Trim(e.buffer))
    ensures Submit(p, e, ex1) == Submit(p, e, ex2)
    ensures Trim(e.buffer) != ""
    ensures var r := Submit(p, e, ex1);
      && r.history == e.history + [e.buffer]
      && r.historyIndex == |r.history|
      && r.buffer == ""
      && r.offset == PromptColumn(p.width) && r.screen.cursorX == r.offset
  {
    BlankIffTrimmedEmpty(e.buffer);
    var s1 := Write(p, e.screen, "\n");
    var history := e.history + [e.buffer];
    var s2 := match Report(ex1(Trim(e.buffer)))
              case None => s1
              case Some(text) => Write(p, s1, text);
    PromptLayout(p, Session("", history, |history|, e.offset, s2));
  }

  // ------------------------------------------------------------------- Frame

  /** Enter takes precedence over every other control key in the frame. */
  lemma EnterFirst(p: Pen, e: Session, keys: Keys, execute: string -> ExecResult)
    requires Valid(p, e) && keys.enter
    ensures Tick(p, e, keys, execute)
         == Tick(p, e, Keys(keys.typed, true, false, false, false, false, false), execute)
  {
  }

  /** A frame that does not throw keeps the editor invariant: the cursor stays
      between the prompt column and the end of the buffer, and buffer and
      history hold only typeable characters. */
  lemma TickKeeps(p: Pen, e: Session, keys: Keys, execute: string -> ExecResult)
    requires Editing(p, e)
    ensures Tick(p, e, keys, execute).Some? ==> Editing(p, Tick(p, e, keys, execute).value)
  {
    DrainKeeps(p, e, keys.typed);
    match Drain(p, e, keys.typed)
    case None =>
    case Some(d) =>
      if keys.enter {
        SubmitKeeps(p, d, execute);
      } else if keys.back {
        BackspaceKeeps(p, d);
      } else if keys.up {
        NavigateLoads(p, d, -1);
      } else if keys.down {
        NavigateLoads(p, d, 1);
      }
  }

  /** Enter keeps the editor invariant. */
  lemma SubmitKeeps(p: Pen, d: Session, execute: string -> ExecResult)
    requires Editing(p, d)
    ensures Editing(p, Submit(p, d, execute))
  {
    var s1 := Write(p, d.screen, "\n");
    if Blank(d.buffer) {
      PromptLayout(p, d.(screen := s1));
    } else {
      var history := d.history + [d.buffer];
      var s2 := match Report(execute(Trim(d.buffer)))
                case None => s1
                case Some(text) => Write(p, s1, text);
      PromptLayout(p, Session("", history, |history|, d.offset, s2));
    }
  }

  /** Backspace keeps the editor invariant whenever it does not throw. */
  lemma BackspaceKeeps(p: Pen, d: Session)
    requires Editing(p, d)
    ensures Backspace(p, d).Some? ==> Editing(p, Backspace(p, d).value)
  {
    var pos := d.screen.cursorX - d.offset;
    if pos > 0 && |d.buffer| > 0 {
      var b := d.buffer[..pos - 1] + d.buffer[pos..];
      assert Typed(b) by {
        forall i | 0 <= i < |b| ensures Typeable(b[i] as int) {
          if i >= pos - 1 { assert b[i] == d.buffer[i + 1]; }
        }
      }
      RedrawLine(p, d.(buffer := b), d.offset + pos - 1);
    }
  }

}
