/** The shell of Machine/Shell.cs: the input buffer, the history list, the
    browsing index and the prompt column, updated in place while the shell
    moves the cursor of the terminal and writes to it. Each method is proved
    to do what the function of module Editor with the matching role does; a
    method that reports `crashed` stops where the source throws. */
module Shell {
  import opened Wrappers
  import opened Screen
  import opened Editor
  import opened Terminal

  class Shell {
    /** Window.Terminal, the terminal the shell draws on. */
    const terminal: Terminal

    var inputBuffer: string
    var History: seq<string>
    var historyIndex: int
    var offset: int

    /** The shell fields together with the terminal state. */
    ghost function Model(): Session
      reads this, terminal
    {
      Session(inputBuffer, History, historyIndex, offset, terminal.Model())
    }

    function Pen(): Pen
      reads this, terminal
    {
      terminal.CurrentPen()
    }

    ghost predicate Valid()
      reads this, terminal, terminal.buffer, terminal.fgColors, terminal.bgColors
    {
      terminal.Valid() && Editor.Valid(Pen(), Model())
    }

    /** The static initial state: empty buffer, empty history, index -1, prompt column 0. */
    constructor (t: Terminal)
      requires t.Valid() && Writable(t.CurrentPen(), t.Model())
      ensures Valid() && terminal == t
      ensures Model() == Session("", [], -1, 0, t.Model())
    {
      terminal := t;
      inputBuffer := "";
      History := [];
      historyIndex := -1;
      offset := 0;
    }

    method ShowPrompt()
      requires Valid()
      modifies this, terminal, terminal.buffer, terminal.fgColors, terminal.bgColors
      ensures Valid() && Pen() == old(Pen())
      ensures Model() == Editor.ShowPrompt(old(Pen()), old(Model()))
    {
      ghost var pen := Pen();
      ghost var e := Model();
      terminal.Write("\n> ");
      ghost var s1 := terminal.Model();
      assert s1 == Screen.Write(pen, e.screen, "\n> ");
      offset := terminal.CursorX;
      terminal.Write(Repeat(' ', terminal.Width - offset));
      assert terminal.Model() == Screen.Write(pen, s1, Repeat(' ', pen.width - s1.cursorX));
      terminal.CursorX := offset;
      assert Model() == Editor.ShowPrompt(pen, e);
    }

    /** Cursor to the prompt column, the buffer padded with spaces to the end
        of the row, cursor to `column`: the redraw that ProcessInput inlines
        twice and RedrawInputLine performs. */
    method Redraw(column: int) returns (crashed: bool)
      requires Valid() && column >= 0
      modifies terminal, terminal.buffer, terminal.fgColors, terminal.bgColors
      ensures crashed <==> Editor.Redraw(old(Pen()), old(Model()), column).None?
      ensures !crashed ==> Valid() && Pen() == old(Pen())
      ensures !crashed ==> Model() == Editor.Redraw(old(Pen()), old(Model()), column).value
    {
      var pad := terminal.Width - offset - |inputBuffer|;
      if pad < 0 {
        return true;
      }
      terminal.CursorX := offset;
      terminal.Write(inputBuffer + Repeat(' ', pad));
      terminal.CursorX := column;
      return false;
    }

    method RedrawInputLine() returns (crashed: bool)
      requires Valid()
      modifies terminal, terminal.buffer, terminal.fgColors, terminal.bgColors
      ensures crashed <==> Editor.Redraw(old(Pen()), old(Model()), old(offset + |inputBuffer|)).None?
      ensures !crashed ==> Valid() && Pen() == old(Pen())
      ensures !crashed ==> Model() == Editor.Redraw(old(Pen()), old(Model()), old(offset + |inputBuffer|)).value
    {
      crashed := Redraw(offset + |inputBuffer|);
    }

    method NavigateHistory(direction: int) returns (crashed: bool)
      requires Valid()
      modifies this, terminal, terminal.buffer, terminal.fgColors, terminal.bgColors
      ensures crashed <==> Navigate(old(Pen()), old(Model()), direction).None?
      ensures !crashed ==> Valid() && Pen() == old(Pen())
      ensures !crashed ==> Model() == Navigate(old(Pen()), old(Model()), direction).value
    {
      if |History| == 0 {
        return false;
      }
      var newIndex := historyIndex + direction;
      if 0 <= newIndex < |History| {
        historyIndex := newIndex;
        inputBuffer := History[historyIndex];
        crashed := RedrawInputLine();
      } else if newIndex >= |History| {
        historyIndex := |History|;
        inputBuffer := "";
        crashed := RedrawInputLine();
      } else {
        crashed := false;
      }
    }

    /** The executor is Sandbox.Execute, seen only through its result. */
    method ExecuteLine(execute: string -> ExecResult)
      requires Valid()
      modifies this, terminal, terminal.buffer, terminal.fgColors, terminal.bgColors
      ensures Valid() && Pen() == old(Pen())
      ensures Model() == Submit(old(Pen()), old(Model()), execute)
    {
      ghost var pen, e := Pen(), Model();
      terminal.Write("\n");
      ghost var s1 := terminal.Model();
      assert s1 == Screen.Write(pen, e.screen, "\n");
      if Blank(inputBuffer) {
        assert Model() == e.(screen := s1);
        ShowPrompt();
        return;
      }
      History := History + [inputBuffer];
      historyIndex := |History|;
      var code := Trim(inputBuffer);
      inputBuffer := "";
      var result := execute(code);
      assert Model() == Session("", e.history + [e.buffer], |e.history + [e.buffer]|, e.offset, s1);
      WriteReport(result);
      ghost var history := e.history + [e.buffer];
      assert Model() == Session("", history, |history|, e.offset, match Report(execute(Trim(e.buffer)))
                                                             case None => s1
                                                             case Some(text) => Screen.Write(pen, s1, text));
      ShowPrompt();
    }

    /** The middle of ExecuteLine: the returned value or the error message,
        each on a line of its own, and nothing for a success without a value. */
    method WriteReport(result: ExecResult)
      requires Valid()
      modifies terminal, terminal.buffer, terminal.fgColors, terminal.bgColors
      ensures Valid() && Pen() == old(Pen())
      ensures Model() == old(Model()).(screen := match Report(result)
                                                 case None => old(terminal.Model())
                                                 case Some(text) => Screen.Write(old(Pen()), old(terminal.Model()), text))
    {
      if result.success {
        if result.returnValue.Some? {
          terminal.Write("=> " + result.returnValue.value + "\n");
        }
      } else {
        terminal.Write("Error: " + result.errorMessage + "\n");
      }
    }

    /** The first half of ProcessInput: the loop over the character queue. */
    method DrainCharacters(typed: seq<int>) returns (crashed: bool)
      requires Valid()
      modifies this, terminal, terminal.buffer, terminal.fgColors, terminal.bgColors
      ensures crashed <==> Drain(old(Pen()), old(Model()), typed).None?
      ensures !crashed ==> Valid() && Pen() == old(Pen())
      ensures !crashed ==> Model() == Drain(old(Pen()), old(Model()), typed).value
    {
      ghost var pen := Pen();
      ghost var start := Model();
      var i := 0;
      while i < |typed| && typed[i] > 0
        invariant 0 <= i <= |typed|
        invariant Valid() && Pen() == pen
        invariant Drain(pen, start, typed) == Drain(pen, Model(), typed[i..])
      {
        var key := typed[i];
        assert typed[i..][1..] == typed[i + 1..];
        if 32 <= key <= 126 {
          crashed := InsertChar(key as char);
          if crashed {
            return;
          }
        }
        i := i + 1;
      }
      return false;
    }

    /** One printable key of the queue: the character goes in at the cursor and
        the line is redrawn with the cursor just after it. */
    method InsertChar(c: char) returns (crashed: bool)
      requires Valid()
      modifies this, terminal, terminal.buffer, terminal.fgColors, terminal.bgColors
      ensures crashed <==> Insert(old(Pen()), old(Model()), c).None?
      ensures !crashed ==> Valid() && Pen() == old(Pen())
      ensures !crashed ==> Model() == Insert(old(Pen()), old(Model()), c).value
    {
      var cursorPos := terminal.CursorX - offset;
      if cursorPos < 0 || cursorPos > |inputBuffer| {
        return true;
      }
      inputBuffer := inputBuffer[..cursorPos] + [c] + inputBuffer[cursorPos..];
      crashed := Redraw(offset + cursorPos + 1);
    }

    /** One frame of input: the queued characters, then the first control key
        that fires. */
    method ProcessInput(keys: Keys, execute: string -> ExecResult) returns (crashed: bool)
      requires Valid()
      modifies this, terminal, terminal.buffer, terminal.fgColors, terminal.bgColors
      ensures crashed <==> Tick(old(Pen()), old(Model()), keys, execute).None?
      ensures !crashed ==> Valid() && Pen() == old(Pen())
      ensures !crashed ==> Model() == Tick(old(Pen()), old(Model()), keys, execute).value
    {
      crashed := DrainCharacters(keys.typed);
      if crashed {
        return;
      }
      if keys.enter {
        ExecuteLine(execute);
      } else if keys.back {
        crashed := DeleteBeforeCursor();
      } else if keys.up {
        crashed := NavigateHistory(-1);
      } else if keys.down {
        crashed := NavigateHistory(1);
      } else if keys.left {
        CursorLeft();
      } else if keys.right {
        CursorRight();
      }
    }

    /** Backspace in ProcessInput: the character before the cursor removed
        and the line redrawn, when there is one. */
    method DeleteBeforeCursor() returns (crashed: bool)
      requires Valid()
      modifies this, terminal, terminal.buffer, terminal.fgColors, terminal.bgColors
      ensures crashed <==> Backspace(old(Pen()), old(Model())).None?
      ensures !crashed ==> Valid() && Pen() == old(Pen())
      ensures !crashed ==> Model() == Backspace(old(Pen()), old(Model())).value
    {
      var cursorPos := terminal.CursorX - offset;
      if cursorPos > 0 && |inputBuffer| > 0 {
        if cursorPos > |inputBuffer| {
          return true;
        }
        inputBuffer := inputBuffer[..cursorPos - 1] + inputBuffer[cursorPos..];
        crashed := Redraw(offset + cursorPos - 1);
      } else {
        crashed := false;
      }
    }

    /** Left arrow in ProcessInput: one column left, not past the prompt. */
    method CursorLeft()
      requires Valid()
      modifies terminal
      ensures Valid() && Pen() == old(Pen())
      ensures Model() == MoveLeft(old(Model()))
    {
      if terminal.CursorX > offset {
        terminal.CursorX := terminal.CursorX - 1;
      }
    }

    /** Right arrow in ProcessInput: one column right, not past the buffer. */
    method CursorRight()
      requires Valid()
      modifies terminal
      ensures Valid() && Pen() == old(Pen())
      ensures Model() == MoveRight(old(Model()))
    {
      if terminal.CursorX < offset + |inputBuffer| {
        terminal.CursorX := terminal.CursorX + 1;
      }
    }
  }
}
