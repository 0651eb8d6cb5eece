/** What the scancode stream means: a keyboard and an ideal line editor, free of buffers and batches. */
module LineEditor {
  import opened Characters
  import opened Sequences

  // ---------- The keyboard ----------

  /** qwerty_lower and qwerty_upper up to their last printable entry */
  const LOWER: string := "\0\U{1B}1234567890-=\U{8}\tqwertyuiop[]\n\0asdfghjkl;'`\0\\zxcvbnm,./\0*\0 "
  const UPPER: string := "\0\U{1B}!@#$%^&*()_+\U{8}\tqwertyuiop{}\n\0asdfghjkl:\"`\0\\zxcvbnm<>?\0*\0 "

  function Lower(index: nat): char {
    if index < |LOWER| then LOWER[index] else '\0'
  }

  predicate IsLetter(index: nat) {
    'a' <= Lower(index) <= 'z'
  }

  function Upper(index: nat): char {
    if IsLetter(index) then (Lower(index) as int - 32) as char
    else if index < |UPPER| then UPPER[index] else '\0'
  }

  /** The character of a key: letters are raised by exactly one of shift and caps, other keys by shift. */
  function Character(index: nat, shift: bool, caps: bool): char {
    var raised := if IsLetter(index) then shift != caps else shift;
    if raised then Upper(index) else Lower(index)
  }

  type Code = c: int | 0 <= c < 256

  /** What the keyboard remembers between scancodes */
  datatype Keys = Keys(extended: bool, caps: bool, shift: bool, ctrl: bool, alt: bool)

  datatype Action = Nothing | Erase | Enter | Insert(c: char) | ToTerminal | ToGui

  /** The modifiers after a scancode */
  function Modifiers(k: Keys, code: Code): Keys {
    if code == 0xE0 then k.(extended := true)
    else
      var k' := k.(extended := false);
      match code
      case 0x3A => k'.(caps := !k.caps)
      case 0x2A => k'.(shift := true)
      case 0x36 => k'.(shift := true)
      case 0x1D => k'.(ctrl := true)
      case 0x38 => k'.(alt := true)
      case 0xAA => k'.(shift := false)
      case 0xB6 => k'.(shift := false)
      case 0x9D => k'.(ctrl := false)
      case 0xB8 => k'.(alt := false)
      case _ => k'
  }

  predicate IsModifier(code: Code) {
    code in {0xE0, 0x3A, 0x2A, 0x36, 0x1D, 0x38, 0xAA, 0xB6, 0x9D, 0xB8}
  }

  /** What a scancode asks for. Keys behind an extension prefix print nothing. */
  function Meaning(k: Keys, code: Code): Action {
    if IsModifier(code) then Nothing
    else if code == 0x0E then Erase
    else if code == 0x1C then Enter
    else if code >= 0x80 then Nothing
    else if k.ctrl && k.alt && !k.extended && code == 0x14 then ToTerminal
    else if k.ctrl && k.alt && !k.extended && code == 0x20 then ToGui
    else if !k.extended && Lower(code) != '\0' then Insert(Character(code, k.shift, k.caps))
    else Nothing
  }

  // ---------- The ideal editor ----------

  /** The keyboard, where keys go, the line so far, and what the windows got */
  datatype Editor = Editor(keys: Keys, terminal: bool, line: string, gui: string)

  function Edited(line: string, a: Action): string {
    match a
    case Insert(c) => line + [c]
    case Erase => if line == "" then "" else line[..|line| - 1]
    case _ => line
  }

  /** The character a window gets for an action */
  function Sent(a: Action): string {
    match a
    case Insert(c) => [c]
    case Erase => [BACKSPACE]
    case Enter => "\n"
    case _ => ""
  }

  /** An action reaches the line on the terminal, and the windows otherwise. */
  function Acted(e: Editor, a: Action): Editor {
    if e.terminal then e.(line := Edited(e.line, a)) else e.(gui := e.gui + Sent(a))
  }

  /** One scancode, apart from finishing a line */
  function Key(e: Editor, code: Code): Editor {
    var a := Meaning(e.keys, code);
    var e1 := e.(keys := Modifiers(e.keys, code));
    if a == ToTerminal || a == ToGui then e1.(terminal := a == ToTerminal) else Acted(e1, a)
  }

  /** Enter on the terminal finishes a line. */
  predicate Finishes(e: Editor, code: Code) {
    e.terminal && Meaning(e.keys, code) == Enter
  }

  /** What the shell makes of a line, as far as input goes: `display` leaves the terminal, `exit` ends the loop. */
  datatype Verdict = Stay | ToWindows | Leave

  /** The ideal editor, until the shell ends it; the windows keep what they have. */
  datatype Ideal = Editing(e: Editor) | Closed(gui: string)

  /** The shell has a finished line. */
  function Evaluated(e: Editor, v: Verdict): Ideal {
    match v
    case Stay => Editing(e.(line := ""))
    case ToWindows => Editing(e.(line := "", terminal := false))
    case Leave => Closed(e.gui)
  }

  /** One scancode for the ideal editor: a line is evaluated at its Enter. */
  function Press(shell: string -> Verdict, e: Editor, code: Code): (Ideal, seq<string>) {
    if Finishes(e, code) then (Evaluated(Key(e, code), shell(e.line)), [e.line]) else (Editing(Key(e, code)), [])
  }

  /** A stream of scancodes: the editor afterwards, and the lines finished. */
  function Type(shell: string -> Verdict, x: Ideal, codes: seq<Code>): (Ideal, seq<string>)
    decreases |codes|
  {
    if codes == [] || x.Closed? then (x, [])
    else
      var (x1, done) := Press(shell, x.e, codes[0]);
      var (x2, more) := Type(shell, x1, codes[1..]);
      (x2, done + more)
  }

  lemma TypeCons(shell: string -> Verdict, e: Editor, c: Code, rest: seq<Code>)
    ensures Type(shell, Editing(e), [c] + rest).0 == Type(shell, Press(shell, e, c).0, rest).0
    ensures Type(shell, Editing(e), [c] + rest).1
         == Press(shell, e, c).1 + Type(shell, Press(shell, e, c).0, rest).1
  {
    assert ([c] + rest)[1..] == rest;
  }

  /** A key that finishes no line */
  lemma TypeSilent(shell: string -> Verdict, e: Editor, codes: seq<Code>)
    requires codes != [] && !Finishes(e, codes[0])
    ensures Type(shell, Editing(e), codes) == Type(shell, Editing(Key(e, codes[0])), codes[1..])
  {
    var more := Type(shell, Editing(Key(e, codes[0])), codes[1..]).1;
    assert [] + more == more;
  }

  /** Editing a stream is editing its first part, then its second. */
  lemma {:induction false} TypeAppend(shell: string -> Verdict, x: Ideal, a: seq<Code>, b: seq<Code>)
    ensures Type(shell, x, a + b).0 == Type(shell, Type(shell, x, a).0, b).0
    ensures Type(shell, x, a + b).1 == Type(shell, x, a).1 + Type(shell, Type(shell, x, a).0, b).1
    decreases |a|
  {
    if a == [] {
      assert a + b == b;
    } else if x.Editing? {
      var (x1, done) := Press(shell, x.e, a[0]);
      TypeAppend(shell, x1, a[1..], b);
      TypeCons(shell, x.e, a[0], a[1..]);
      TypeCons(shell, x.e, a[0], a[1..] + b);
      assert [a[0]] + a[1..] == a && [a[0]] + (a[1..] + b) == a + b;
      Associative(done, Type(shell, x1, a[1..]).1, Type(shell, Type(shell, x, a).0, b).1);
    }
  }

  // ---------- Batches ----------

  /** The input state as the code keeps it: Enter raises a flag, and the line stays until it is fetched. */
  datatype Input = Input(editor: Editor, ready: bool)

  function Feed(s: Input, code: Code): Input {
    Input(Key(s.editor, code), s.ready || Finishes(s.editor, code))
  }

  function Drain(s: Input, batch: seq<Code>): Input
    decreases |batch|
  {
    if batch == [] then s else Drain(Feed(s, batch[0]), batch[1..])
  }

  /** The main loop, until the shell ends it */
  datatype Kernel = Running(s: Input) | Ended(gui: string)

  /** `fetch_line`, for a line that fits */
  function Fetched(s: Input): Input {
    Input(s.editor.(line := ""), false)
  }

  /** The main loop's view of an editor: no line is waiting. */
  function Started(x: Ideal): Kernel {
    match x
    case Editing(e) => Running(Input(e, false))
    case Closed(gui) => Ended(gui)
  }

  /** One round of the main loop: drain what the ring holds, then fetch and evaluate the line if there is one. */
  function Round(shell: string -> Verdict, x: Kernel, batch: seq<Code>): (Kernel, seq<string>) {
    if x.Ended? then (x, [])
    else
      var s := Drain(x.s, batch);
      if s.editor.terminal && s.ready
      then (Started(Evaluated(s.editor, shell(s.editor.line))), [s.editor.line])
      else (Running(s), [])
  }

  function Rounds(shell: string -> Verdict, x: Kernel, batches: seq<seq<Code>>): (Kernel, seq<string>)
    decreases |batches|
  {
    if batches == [] then (x, [])
    else
      var (x1, a) := Round(shell, x, batches[0]);
      var (x2, b) := Rounds(shell, x1, batches[1..]);
      (x2, a + b)
  }

  function Concat(batches: seq<seq<Code>>): seq<Code> {
    if batches == [] then [] else batches[0] + Concat(batches[1..])
  }

  // ---------- What may follow Enter in its batch ----------

  /** Only releases, modifiers and keys without a meaning */
  ghost predicate Idle(k: Keys, codes: seq<Code>)
    decreases |codes|
  {
    codes == [] || (Meaning(k, codes[0]) == Nothing && Idle(Modifiers(k, codes[0]), codes[1..]))
  }

  /**
   Keys that finish no line and, in the end, are on the terminal with all that they typed erased; unless
   the line before them was empty, they erase no more than they typed.
   */
  ghost predicate Settles(e: Editor, codes: seq<Code>, empty: bool)
    decreases |codes|
  {
    if codes == [] then e.terminal && e.line == ""
    else
      && !Finishes(e, codes[0])
      && (e.terminal && Meaning(e.keys, codes[0]) == Erase ==> e.line != "" || empty)
      && Settles(Key(e, codes[0]), codes[1..], empty)
  }

  /** Keys that send nothing to the windows and, in the end, leave `line` on the terminal. */
  ghost predicate Restores(e: Editor, codes: seq<Code>, line: string)
    decreases |codes|
  {
    if codes == [] then e.terminal && e.line == line
    else (e.terminal || Sent(Meaning(e.keys, codes[0])) == "") && Restores(Key(e, codes[0]), codes[1..], line)
  }

  /** The keys `codes` follow the Enter of line `e.line`, for which the shell has verdict `v`. */
  ghost predicate Harmless(v: Verdict, e: Editor, codes: seq<Code>) {
    match v
    case Stay => Settles(e.(line := ""), codes, e.line == "")
    case ToWindows => Idle(e.keys, codes)
    case Leave => Restores(e, codes, e.line)
  }

  /** What follows the first Enter on the terminal in its batch does no harm to the line. */
  ghost predicate EnterSettles(shell: string -> Verdict, e: Editor, batch: seq<Code>)
    decreases |batch|
  {
    batch == [] ||
    if Finishes(e, batch[0]) then Harmless(shell(e.line), Key(e, batch[0]), batch[1..])
    else EnterSettles(shell, Key(e, batch[0]), batch[1..])
  }

  ghost predicate AllSettle(shell: string -> Verdict, x: Ideal, batches: seq<seq<Code>>)
    decreases |batches|
  {
    batches == [] || x.Closed? ||
    (EnterSettles(shell, x.e, batches[0]) && AllSettle(shell, Type(shell, x, batches[0]).0, batches[1..]))
  }

  // ---------- One round ----------

  lemma {:induction false} ReadyStays(s: Input, codes: seq<Code>)
    requires s.ready
    ensures Drain(s, codes).ready
    decreases |codes|
  {
    if codes != [] {
      ReadyStays(Feed(s, codes[0]), codes[1..]);
    }
  }

  /** A buffer that has lost a character of the finished line does not get back to it when the rest is erased. */
  lemma {:induction false} TooShort(shell: string -> Verdict, s: Input, e: Editor, codes: seq<Code>, line: string)
    requires s.editor == e.(line := s.editor.line)
    requires |e.line| <= |s.editor.line| < |line| + |e.line|
    ensures var s' := Drain(s, codes).editor;
      s'.line == line ==> Type(shell, Editing(e), codes) != (Editing(s'.(line := "")), [])
    decreases |codes|
  {
    if codes != [] && !Finishes(e, codes[0]) {
      TypeSilent(shell, e, codes);
      TooShort(shell, Feed(s, codes[0]), Key(e, codes[0]), codes[1..], line);
    }
  }

  /** The shell stays: the buffer holds the line and what was typed behind it, the ideal editor holds the latter. */
  lemma {:induction false} SettlesIff(shell: string -> Verdict, s: Input, e: Editor, codes: seq<Code>, line: string)
    requires s.editor == e.(line := line + e.line)
    ensures var s' := Drain(s, codes).editor;
      && s'.terminal && s'.line == line
      && Type(shell, Editing(e), codes) == (Editing(s'.(line := "")), [])
      <==> Settles(e, codes, line == "")
    decreases |codes|
  {
    if codes != [] && !Finishes(e, codes[0]) {
      var c := codes[0];
      TypeSilent(shell, e, codes);
      if e.terminal && Meaning(e.keys, c) == Erase && e.line == "" && line != "" {
        TooShort(shell, Feed(s, c), Key(e, c), codes[1..], line);
      } else {
        assert Key(s.editor, c).line == line + Key(e, c).line;
        SettlesIff(shell, Feed(s, c), Key(e, c), codes[1..], line);
      }
    }
  }

  /** Once keys go to the same place in both, they go on doing so. */
  lemma {:induction false} InStep(shell: string -> Verdict, s: Input, e: Editor, codes: seq<Code>)
    requires s.editor.terminal == e.terminal && s.editor.keys == e.keys
    ensures var (x, lines) := Type(shell, Editing(e), codes);
      lines == [] ==> x.Editing? && x.e.terminal == Drain(s, codes).editor.terminal
    decreases |codes|
  {
    if codes != [] && !Finishes(e, codes[0]) {
      TypeSilent(shell, e, codes);
      InStep(shell, Feed(s, codes[0]), Key(e, codes[0]), codes[1..]);
    }
  }

  /** The shell goes to the windows, which the ideal editor knows at once and the buffer only afterwards. */
  lemma {:induction false} WindowsNeedIdle(shell: string -> Verdict, s: Input, e: Editor, codes: seq<Code>)
    requires s.editor.terminal && !e.terminal && s.editor.keys == e.keys && |s.editor.gui| <= |e.gui|
    requires var s' := Drain(s, codes).editor;
      s'.terminal && Type(shell, Editing(e), codes) == (Editing(s'.(line := "", terminal := false)), [])
    ensures s.editor.gui == e.gui && Idle(e.keys, codes)
    decreases |codes|
  {
    if codes != [] {
      var a := Meaning(e.keys, codes[0]);
      TypeSilent(shell, e, codes);
      if a == ToTerminal || a == ToGui {
        InStep(shell, Feed(s, codes[0]), Key(e, codes[0]), codes[1..]);
      } else {
        WindowsNeedIdle(shell, Feed(s, codes[0]), Key(e, codes[0]), codes[1..]);
      }
    }
  }

  /** Idle keys leave line, flag and windows alone. */
  lemma {:induction false} IdleDrain(shell: string -> Verdict, s: Input, e: Editor, codes: seq<Code>)
    requires s.editor.keys == e.keys && Idle(e.keys, codes)
    ensures Drain(s, codes) == s.(editor := s.editor.(keys := Drain(s, codes).editor.keys))
    ensures Type(shell, Editing(e), codes) == (Editing(e.(keys := Drain(s, codes).editor.keys)), [])
    decreases |codes|
  {
    if codes != [] {
      TypeSilent(shell, e, codes);
      assert e.gui + "" == e.gui && s.editor.gui + "" == s.editor.gui;
      IdleDrain(shell, Feed(s, codes[0]), Key(e, codes[0]), codes[1..]);
    }
  }

  lemma {:induction false} WindowsOnlyGrow(s: Input, codes: seq<Code>)
    ensures |Drain(s, codes).editor.gui| >= |s.editor.gui|
    decreases |codes|
  {
    if codes != [] {
      WindowsOnlyGrow(Feed(s, codes[0]), codes[1..]);
    }
  }

  /** The shell ends the loop, so only the line and the windows count. */
  lemma {:induction false} RestoresIff(s: Input, codes: seq<Code>, line: string)
    ensures var s' := Drain(s, codes).editor;
      s'.terminal && s'.line == line && s'.gui == s.editor.gui <==> Restores(s.editor, codes, line)
    decreases |codes|
  {
    if codes != [] {
      WindowsOnlyGrow(Feed(s, codes[0]), codes[1..]);
      RestoresIff(Feed(s, codes[0]), codes[1..], line);
    }
  }

  /** Behind an Enter, buffer and ideal editor come to the same exactly when the keys are harmless. */
  lemma BehindEnter(shell: string -> Verdict, e: Editor, v: Verdict, codes: seq<Code>)
    requires e.terminal
    ensures var s' := Drain(Input(e, true), codes).editor;
      && s'.terminal && s'.line == e.line
      && Type(shell, Evaluated(e, v), codes) == (Evaluated(s', v), [])
      <==> Harmless(v, e, codes)
  {
    var s := Input(e, true);
    match v
    case Stay =>
      assert e.line + "" == e.line;
      SettlesIff(shell, s, e.(line := ""), codes, e.line);
    case ToWindows =>
      var e1 := e.(line := "", terminal := false);
      if Idle(e.keys, codes) {
        IdleDrain(shell, s, e1, codes);
      } else if Drain(s, codes).editor.terminal && Type(shell, Editing(e1), codes)
                == (Editing(Drain(s, codes).editor.(line := "", terminal := false)), []) {
        WindowsNeedIdle(shell, s, e1, codes);
      }
    case Leave =>
      RestoresIff(s, codes, e.line);
  }

  /** One round is the ideal editor on its batch exactly when the keys behind the first Enter are harmless. */
  lemma {:induction false} RoundIsTypeIff(shell: string -> Verdict, e: Editor, batch: seq<Code>)
    ensures var (x, lines) := Type(shell, Editing(e), batch);
      Round(shell, Started(Editing(e)), batch) == (Started(x), lines) <==> EnterSettles(shell, e, batch)
    decreases |batch|
  {
    if batch != [] {
      var c, rest := batch[0], batch[1..];
      if Finishes(e, c) {
        BehindEnter(shell, Key(e, c), shell(e.line), rest);
        ReadyStays(Input(Key(e, c), true), rest);
        FirstLine(shell, e, c, rest);
      } else {
        TypeSilent(shell, e, batch);
        RoundIsTypeIff(shell, Key(e, c), rest);
      }
    }
  }

  /** The case of `RoundIsTypeIff` in which the first key is Enter. */
  lemma FirstLine(shell: string -> Verdict, e: Editor, c: Code, rest: seq<Code>)
    requires Finishes(e, c) && Drain(Input(Key(e, c), true), rest).ready
    ensures var s' := Drain(Input(Key(e, c), true), rest).editor;
      var (x, lines) := Type(shell, Editing(e), [c] + rest);
      Round(shell, Started(Editing(e)), [c] + rest) == (Started(x), lines)
      <==> s'.terminal && s'.line == e.line
           && Type(shell, Evaluated(Key(e, c), shell(e.line)), rest) == (Evaluated(s', shell(e.line)), [])
  {
    TypeCons(shell, e, c, rest);
    assert ([c] + rest)[1..] == rest;
    var s' := Drain(Input(Key(e, c), true), rest).editor;
    var (y, more) := Type(shell, Evaluated(Key(e, c), shell(e.line)), rest);
    assert ([e.line] + more)[0] == e.line && ([e.line] + more)[1..] == more && [s'.line][1..] == [];
    assert Drain(Input(e, false), [c] + rest) == Drain(Input(Key(e, c), true), rest);
    if more == [] {
      assert [e.line] + more == [e.line];
      StartedInjective(Evaluated(s', shell(s'.line)), y);
    }
  }

  lemma StartedInjective(x: Ideal, y: Ideal)
    ensures Started(x) == Started(y) <==> x == y
  {
  }

  // ---------- All rounds ----------

  lemma RoundAgreesIff(shell: string -> Verdict, x: Ideal, batch: seq<Code>)
    ensures var (x', lines) := Type(shell, x, batch);
      Round(shell, Started(x), batch) == (Started(x'), lines) <==> x.Closed? || EnterSettles(shell, x.e, batch)
  {
    if x.Editing? {
      RoundIsTypeIff(shell, x.e, batch);
    }
  }

  /** However the stream is cut into drains, the lines fetched are those of the ideal editor over the whole stream. */
  lemma {:induction false} LinesIndependentOfScheduling(shell: string -> Verdict, x: Ideal,
                                                        batches: seq<seq<Code>>)
    requires AllSettle(shell, x, batches)
    ensures var (x', lines) := Type(shell, x, Concat(batches));
      Rounds(shell, Started(x), batches) == (Started(x'), lines)
    decreases |batches|
  {
    if batches != [] {
      RoundAgreesIff(shell, x, batches[0]);
      LinesIndependentOfScheduling(shell, Type(shell, x, batches[0]).0, batches[1..]);
      TypeAppend(shell, x, batches[0], Concat(batches[1..]));
    }
  }

  /** After each of its drains the kernel is where the ideal editor is. */
  ghost predicate AlwaysAgrees(shell: string -> Verdict, x: Ideal, batches: seq<seq<Code>>) {
    forall k {:trigger batches[..k]} :: 0 <= k <= |batches| ==> Agrees(shell, x, batches[..k])
  }

  ghost predicate Agrees(shell: string -> Verdict, x: Ideal, batches: seq<seq<Code>>) {
    var (x', lines) := Type(shell, x, Concat(batches));
    Rounds(shell, Started(x), batches) == (Started(x'), lines)
  }

  lemma {:induction false} AllSettlePrefix(shell: string -> Verdict, x: Ideal, batches: seq<seq<Code>>, k: nat)
    requires AllSettle(shell, x, batches) && k <= |batches|
    ensures AllSettle(shell, x, batches[..k])
    decreases |batches|
  {
    if k > 0 {
      AllSettlePrefix(shell, Type(shell, x, batches[0]).0, batches[1..], k - 1);
      assert batches[..k][1..] == batches[1..][..k - 1];
    }
  }

  /** Behind a first batch on which both agree, they agree on more exactly when they do from there. */
  lemma AgreesBehind(shell: string -> Verdict, x: Ideal, batch: seq<Code>, more: seq<seq<Code>>)
    requires Round(shell, Started(x), batch) == (Started(Type(shell, x, batch).0), Type(shell, x, batch).1)
    ensures Agrees(shell, x, [batch] + more) <==> Agrees(shell, Type(shell, x, batch).0, more)
  {
    TypeAppend(shell, x, batch, Concat(more));
    assert ([batch] + more)[1..] == more;
    Cancel(Type(shell, x, batch).1, Rounds(shell, Started(Type(shell, x, batch).0), more).1,
           Type(shell, Type(shell, x, batch).0, Concat(more)).1);
  }

  /** Kernel and ideal editor agree after every drain exactly when every batch settles. */
  lemma {:induction false} AlwaysAgreesIff(shell: string -> Verdict, x: Ideal, batches: seq<seq<Code>>)
    ensures AlwaysAgrees(shell, x, batches) <==> AllSettle(shell, x, batches)
    decreases |batches|
  {
    if AllSettle(shell, x, batches) {
      forall k | 0 <= k <= |batches|
        ensures Agrees(shell, x, batches[..k])
      {
        AllSettlePrefix(shell, x, batches, k);
        LinesIndependentOfScheduling(shell, x, batches[..k]);
      }
    } else if AlwaysAgrees(shell, x, batches) {
      FirstAgrees(shell, x, batches);
      RoundAgreesIff(shell, x, batches[0]);
      var x1 := Type(shell, x, batches[0]).0;
      forall k | 0 <= k <= |batches[1..]|
        ensures Agrees(shell, x1, batches[1..][..k])
      {
        assert batches[..k + 1] == [batches[0]] + batches[1..][..k];
        AgreesBehind(shell, x, batches[0], batches[1..][..k]);
      }
      AlwaysAgreesIff(shell, x1, batches[1..]);
    }
  }

  lemma FirstAgrees(shell: string -> Verdict, x: Ideal, batches: seq<seq<Code>>)
    requires AlwaysAgrees(shell, x, batches) && batches != []
    ensures var (x', lines) := Type(shell, x, batches[0]);
      Round(shell, Started(x), batches[0]) == (Started(x'), lines)
  {
    assert batches[..1] == [batches[0]] && Agrees(shell, x, batches[..1]);
    var one := [batches[0]];
    assert one[1..] == [] && Concat(one) == batches[0];
    assert Rounds(shell, Started(x), one).1 == Round(shell, Started(x), one[0]).1;
  }

  // ---------- Inputs to look at ----------

  /** A key typed behind Enter in the same batch joins the line that Enter had finished. */
  lemma KeyBehindEnterJoinsLine(shell: string -> Verdict, e: Editor)
    requires e == Editor(Keys(false, false, false, false, false), true, "x", "")
    ensures Type(shell, Editing(e), [0x1C, 0x30]).1 == ["x"]
    ensures Round(shell, Started(Editing(e)), [0x1C, 0x30]).1 == ["xb"]
  {
    assert LOWER[0x30] == 'b' && "x" + ['b'] == "xb";
    var s: seq<Code> := [0x1C, 0x30];
    assert s[1..] == [0x30] && s[1..][1..] == [];
  }

  /** Erasing what was typed behind Enter does no harm. */
  lemma ErasedBehindEnterIsHarmless(shell: string -> Verdict, e: Editor)
    requires e == Editor(Keys(false, false, false, false, false), true, "x", "") && shell("x") == Stay
    ensures EnterSettles(shell, e, [0x1C, 0x1E, 0x0E])
  {
    var s: seq<Code> := [0x1C, 0x1E, 0x0E];
    assert s[1..] == [0x1E, 0x0E] && s[1..][1..] == [0x0E] && s[1..][1..][1..] == [];
    assert LOWER[0x1E] == 'a' && "" + ['a'] == "a";
  }

  /** A line for which the shell leaves the terminal */
  lemma DisplayLeavesTerminal(shell: string -> Verdict, e: Editor)
    requires e == Editor(Keys(false, false, false, false, false), true, "display", "") && shell("display") == ToWindows
    ensures Round(shell, Started(Editing(e)), [0x1C])
         == (Started(Editing(e.(terminal := false, line := ""))), ["display"])
  {
    var s: seq<Code> := [0x1C];
    assert s[1..] == [];
  }

  /** After it, the keys of a line make none: they go to the windows. */
  lemma KeysAfterDisplay(shell: string -> Verdict, e: Editor)
    requires e == Editor(Keys(false, false, false, false, false), false, "", "")
    ensures Round(shell, Started(Editing(e)), [0x1E, 0x1C]) == (Started(Editing(e.(gui := "a\n"))), [])
  {
    var s: seq<Code> := [0x1E, 0x1C];
    var e1 := e.(gui := "a");
    assert s[1..] == [0x1C] && s[1..][1..] == [];
    assert LOWER[0x1E] == 'a' && "" + ['a'] == "a" && "a" + "\n" == "a\n";
    assert Key(e, 0x1E) == e1 && Key(e1, 0x1C) == e.(gui := "a\n");
  }
}
