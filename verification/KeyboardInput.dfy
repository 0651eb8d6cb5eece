/** The input router as the kernel runs it: flags, a line buffer, and a loop that empties the ring. */
module KeyboardInput {
  import opened Characters
  import opened LineEditor
  import opened RingBuffer
  import opened Tokenizer

  const LINE_BUFFER_SIZE := 1024

  /** The line stays below the end of its buffer while the batch is drained. */
  ghost predicate Fits(s: Input, batch: seq<Code>)
    decreases |batch|
  {
    batch == [] || (|Feed(s, batch[0]).editor.line| < LINE_BUFFER_SIZE && Fits(Feed(s, batch[0]), batch[1..]))
  }

  /** The same state, with or without an extension prefix before it */
  function Extended(s: Input, extended: bool): Input {
    s.(editor := s.editor.(keys := s.editor.keys.(extended := extended)))
  }

  lemma FeedPrefix(s: Input)
    ensures Feed(s, 0xE0) == Extended(s, true)
  {
    assert s.editor.gui + "" == s.editor.gui;
  }

  lemma FeedModifier(s: Input, code: Code, wasExtended: bool)
    requires IsModifier(code) && code != 0xE0 && !s.editor.keys.extended
    ensures Feed(Extended(s, wasExtended), code) == s.(editor := s.editor.(keys := Modifiers(s.editor.keys, code)))
  {
    assert s.editor.gui + "" == s.editor.gui;
  }

  lemma FeedEdit(s: Input, code: Code)
    requires code == 0x0E || code == 0x1C
    ensures var e := s.editor.(keys := s.editor.keys.(extended := false));
      if code == 0x0E then Feed(s, code) == s.(editor := Acted(e, Erase))
      else Feed(s, code) == Input(Acted(e, Enter), s.ready || e.terminal)
  {
  }

  /** What the shell makes of a line: only two of its commands have to do with input. */
  function ShellVerdict(line: string): Verdict {
    var args := Tokens(line);
    if args != [] && args[0] == "display" then ToWindows
    else if args != [] && args[0] == "exit" then Leave
    else Stay
  }

  /** Only lines that begin with the word `exit` end the loop, and only those with `display` leave the terminal. */
  lemma VerdictIff(line: string)
    ensures ShellVerdict(line) == Leave <==> IsCommand(line, "exit")
    ensures ShellVerdict(line) == ToWindows <==> IsCommand(line, "display")
  {
    FirstTokenIff(line, "exit");
    FirstTokenIff(line, "display");
    assert "exit" != "display";
  }

  lemma VerdictsOfCommands()
    ensures ShellVerdict("display") == ToWindows && ShellVerdict("exit") == Leave && ShellVerdict("") == Stay
  {
    VerdictIff("display");
    VerdictIff("exit");
    assert StandsAt("display", "display", 0) && StandsAt("exit", "exit", 0);
  }

  class KeyboardInput {
    const inputBuffer: array<char>
    var toInputIndex: nat
    var lineReady: bool
    var isExtended: bool
    var isCaps: bool
    var isShiftActive: bool
    var isCtrlActive: bool
    var isAltActive: bool
    var onTerminal: bool   // active_context == DisplayContext::TERMINAL
    var sentToGui: string  // what the compositor was given

    ghost predicate Valid()
      reads this
    {
      inputBuffer.Length == LINE_BUFFER_SIZE && toInputIndex < LINE_BUFFER_SIZE
    }

    ghost function View(): Input
      requires Valid()
      reads this, inputBuffer
    {
      Input(Editor(Keys(isExtended, isCaps, isShiftActive, isCtrlActive, isAltActive),
                   onTerminal, inputBuffer[..toInputIndex], sentToGui), lineReady)
    }

    constructor ()
      ensures Valid() && fresh(inputBuffer)
      ensures Running(View()) == Started(Editing(Editor(Keys(false, false, false, false, false), true, "", "")))
    {
      inputBuffer := new char[LINE_BUFFER_SIZE];
      toInputIndex, lineReady := 0, false;
      isExtended, isCaps, isShiftActive, isCtrlActive, isAltActive := false, false, false, false, false;
      onTerminal, sentToGui := true, "";
    }

    /** `determine_case` */
    method DetermineCase(index: nat) returns (c: char)
      ensures c == Character(index, isShiftActive, isCaps)
    {
      var isLetter := 'a' <= Lower(index) <= 'z';
      if (!isLetter && isShiftActive) || (isLetter && ((isShiftActive && !isCaps) || (isCaps && !isShiftActive))) {
        c := Upper(index);
      } else {
        c := Lower(index);
      }
    }

    /** The flag of a modifier key; false if the key is another one */
    method SetModifier(code: Code) returns (handled: bool)
      modifies this`isCaps, this`isShiftActive, this`isCtrlActive, this`isAltActive
      requires code != 0xE0 && !isExtended
      ensures handled <==> IsModifier(code)
      ensures Keys(isExtended, isCaps, isShiftActive, isCtrlActive, isAltActive)
           == Modifiers(old(Keys(isExtended, isCaps, isShiftActive, isCtrlActive, isAltActive)), code)
    {
      handled := true;
      if code == 0x3A {
        isCaps := !isCaps;
      } else if code == 0x2A || code == 0x36 {
        isShiftActive := true;
      } else if code == 0x1D {
        isCtrlActive := true;
      } else if code == 0x38 {
        isAltActive := true;
      } else if code == 0x2A + 0x80 || code == 0x36 + 0x80 {
        isShiftActive := false;
      } else if code == 0x1D + 0x80 {
        isCtrlActive := false;
      } else if code == 0x38 + 0x80 {
        isAltActive := false;
      } else {
        handled := false;
      }
    }

    /** The keys that only change modifiers; false if the key is another one */
    method HandleModifier(code: Code, ghost wasExtended: bool) returns (handled: bool)
      requires Valid() && code != 0xE0 && !isExtended
      modifies this`isCaps, this`isShiftActive, this`isCtrlActive, this`isAltActive
      ensures handled <==> IsModifier(code)
      ensures View() == if handled then Feed(Extended(old(View()), wasExtended), code) else old(View())
    {
      ghost var s := View();
      handled := SetModifier(code);
      if handled {
        FeedModifier(s, code, wasExtended);
      }
    }

    /** Backspace: the last character of the line, if there is one */
    method HandleBackspace()
      requires Valid()
      modifies this`toInputIndex, this`sentToGui, inputBuffer
      ensures Valid()
      ensures View() == old(View()).(editor := Acted(old(View()).editor, Erase))
      ensures onTerminal && old(toInputIndex) > 0 ==> inputBuffer[toInputIndex] == '\0'
    {
      if onTerminal {
        if toInputIndex == 0 {
          return;
        }
        toInputIndex := toInputIndex - 1;
        inputBuffer[toInputIndex] := '\0';
      } else {
        sentToGui := sentToGui + [BACKSPACE];
      }
    }

    /** `send_to_active_context` */
    method Send(c: char)
      requires Valid() && (onTerminal ==> toInputIndex + 1 < LINE_BUFFER_SIZE)
      modifies this`toInputIndex, this`sentToGui, inputBuffer
      ensures Valid()
      ensures View() == old(View()).(editor := Acted(old(View()).editor, Insert(c)))
    {
      if onTerminal {
        inputBuffer[toInputIndex] := c;
        toInputIndex := toInputIndex + 1;
      } else {
        sentToGui := sentToGui + [c];
      }
    }

    /** Enter: on the terminal, the line is closed and announced. */
    method HandleEnter()
      requires Valid()
      modifies this`lineReady, this`sentToGui, inputBuffer
      ensures Valid()
      ensures View() == Input(Acted(old(View()).editor, Enter), old(lineReady) || onTerminal)
      ensures onTerminal ==> inputBuffer[toInputIndex] == '\0'
    {
      if onTerminal {
        inputBuffer[toInputIndex] := '\0';
        lineReady := true;
      } else {
        sentToGui := sentToGui + "\n";
      }
    }

    /** A key that is no modifier, Backspace or Enter; `index` is its place in the key table. */
    method HandleKey(code: Code, wasExtended: bool)
      requires Valid() && !isExtended && !IsModifier(code) && code != 0x0E && code != 0x1C
      requires |Feed(Extended(View(), wasExtended), code).editor.line| < LINE_BUFFER_SIZE
      modifies this`toInputIndex, this`sentToGui, this`onTerminal, inputBuffer
      ensures Valid()
      ensures View() == Feed(Extended(old(View()), wasExtended), code)
    {
      var isRelease := code >= 0x80;
      var index := if isRelease then code - 0x80 else code;
      if wasExtended {
        index := index + 128;
      }
      if !isRelease {
        if isCtrlActive && isAltActive {
          if index == 0x14 {
            onTerminal := true;
            return;
          }
          if index == 0x20 {
            onTerminal := false;
            return;
          }
        }
        if Lower(index) != '\0' {
          var c := DetermineCase(index);
          Send(c);
        }
      }
    }

    /** The body of the loop of `process_keyboard_events` */
    method ProcessScancode(code: Code)
      requires Valid() && |Feed(View(), code).editor.line| < LINE_BUFFER_SIZE
      modifies this, inputBuffer
      ensures Valid() && View() == Feed(old(View()), code)
    {
      ghost var s := View();
      if code == 0xE0 {
        FeedPrefix(s);
        isExtended := true;
        return;
      }
      var wasExtended := isExtended;
      isExtended := false;
      assert s == Extended(View(), wasExtended);
      var handled := HandleModifier(code, wasExtended);
      if !handled {
        ProcessKey(code, wasExtended);
      }
    }

    /** The keys that are no modifiers */
    method ProcessKey(code: Code, wasExtended: bool)
      requires Valid() && !isExtended && !IsModifier(code)
      requires |Feed(Extended(View(), wasExtended), code).editor.line| < LINE_BUFFER_SIZE
      modifies this, inputBuffer
      ensures Valid() && View() == Feed(Extended(old(View()), wasExtended), code)
    {
      if code == 0x0E {
        FeedEdit(Extended(View(), wasExtended), code);
        HandleBackspace();
      } else if code == 0x1C {
        FeedEdit(Extended(View(), wasExtended), code);
        HandleEnter();
      } else {
        HandleKey(code, wasExtended);
      }
    }

    /** `process_keyboard_events`: empties the ring. */
    method ProcessKeyboardEvents(ring: RingBuffer<Code>)
      requires Valid() && ring.Valid() && Fits(View(), ring.Contents())
      modifies this, inputBuffer, ring`tail
      ensures Valid() && ring.Valid() && ring.Contents() == []
      ensures View() == Drain(old(View()), old(ring.Contents()))
    {
      ghost var target, rest := Drain(View(), ring.Contents()), ring.Contents();
      var ok, code := ring.Pop(0);
      while ok
        invariant Valid() && ring.Valid() && Fits(View(), rest)
        invariant rest == if ok then [code] + ring.Contents() else ring.Contents()
        invariant !ok ==> rest == []
        invariant Drain(View(), rest) == target
        decreases |rest|
      {
        rest := ring.Contents();
        DrainFirst(View(), code, rest);
        ProcessScancode(code);
        ok, code := ring.Pop(code);
      }
    }

    /** `fetch_line` */
    method FetchLine(maxLen: nat) returns (line: string)
      requires Valid() && maxLen > 0
      modifies this`toInputIndex, this`lineReady, inputBuffer
      ensures Valid() && View() == Fetched(old(View()))
      ensures forall k :: 0 <= k < inputBuffer.Length ==> inputBuffer[k] == '\0'
      ensures line == if old(toInputIndex) < maxLen - 1 then old(View()).editor.line
                      else old(View()).editor.line[..maxLen - 1]
    {
      var copyLen := if toInputIndex < maxLen - 1 then toInputIndex else maxLen - 1;
      line := inputBuffer[..copyLen];
      forall k | 0 <= k < inputBuffer.Length {
        inputBuffer[k] := '\0';
      }
      toInputIndex := 0;
      lineReady := false;
    }

    /** `eval_user_input`, as far as input goes: true if the shell is left */
    method EvalUserInput(line: string) returns (leave: bool)
      requires Valid()
      modifies this`onTerminal
      ensures leave <==> ShellVerdict(line) == Leave
      ensures onTerminal <==> old(onTerminal) && ShellVerdict(line) != ToWindows
      ensures leave <==> IsCommand(line, "exit")
      ensures onTerminal <==> old(onTerminal) && !IsCommand(line, "display")
    {
      VerdictIff(line);
      var args := Tokenize(line);
      if args != [] && args[0] == "display" {
        onTerminal := false;
        return false;
      }
      return args != [] && args[0] == "exit";
    }

    /** Fetches the line that is ready, and has it evaluated. */
    method Answer() returns (line: string, leave: bool)
      requires Valid()
      modifies this`toInputIndex, this`lineReady, this`onTerminal, inputBuffer
      ensures Valid() && line == old(View()).editor.line
      ensures (if leave then Ended(sentToGui) else Running(View()))
           == Started(Evaluated(old(View()).editor, ShellVerdict(line)))
      ensures leave <==> IsCommand(line, "exit")
      ensures onTerminal <==> old(onTerminal) && !IsCommand(line, "display")
    {
      ghost var whole := View().editor.line;
      assert whole[..|whole|] == whole;
      line := FetchLine(LINE_BUFFER_SIZE);
      leave := EvalUserInput(line);
    }

    /** One round of the main loop's keyboard work, in `_start`; `leave` is the loop's `break`. */
    method MainRound(ring: RingBuffer<Code>) returns (lines: seq<string>, leave: bool)
      requires Valid() && ring.Valid() && Fits(View(), ring.Contents())
      modifies this, inputBuffer, ring`tail
      ensures Valid() && ring.Valid() && ring.Contents() == []
      ensures ((if leave then Ended(sentToGui) else Running(View())), lines)
           == Round(ShellVerdict, Running(old(View())), old(ring.Contents()))
      ensures leave <==> lines != [] && IsCommand(lines[0], "exit")
      ensures lines != [] ==> (onTerminal <==> !IsCommand(lines[0], "display"))
    {
      ProcessKeyboardEvents(ring);
      lines, leave := [], false;
      if onTerminal && lineReady {
        var line;
        line, leave := Answer();
        lines := [line];
      }
    }
  }

  lemma DrainFirst(s: Input, code: Code, rest: seq<Code>)
    requires Fits(s, [code] + rest)
    ensures |Feed(s, code).editor.line| < LINE_BUFFER_SIZE && Fits(Feed(s, code), rest)
    ensures Drain(s, [code] + rest) == Drain(Feed(s, code), rest)
  {
  }
}
