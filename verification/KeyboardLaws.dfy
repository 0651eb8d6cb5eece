/** What any stream of scancodes does, said in terms of the codes in it and not of the flags that are kept. */
module KeyboardLaws {
  import opened LineEditor

  /** The keyboard as `initialize` leaves it */
  const RELEASED := Keys(false, false, false, false, false)

  /** The editor after a stream, without any line being fetched */
  function After(e: Editor, codes: seq<Code>): Editor {
    Drain(Input(e, false), codes).editor
  }

  lemma {:induction false} DrainSnoc(s: Input, codes: seq<Code>, c: Code)
    ensures Drain(s, codes + [c]) == Feed(Drain(s, codes), c)
    decreases |codes|
  {
    if codes == [] {
      assert codes + [c] == [c] && [c][1..] == [];
    } else {
      assert (codes + [c])[1..] == codes[1..] + [c];
      DrainSnoc(Feed(s, codes[0]), codes[1..], c);
    }
  }

  // ---------- Modifiers ----------

  ghost predicate LastDown(codes: seq<Code>, down: set<Code>, up: set<Code>, i: nat) {
    i < |codes| && codes[i] in down && forall j :: i < j < |codes| ==> codes[j] !in up
  }

  /** Some code of `down` is followed by none of `up`. */
  ghost predicate Held(codes: seq<Code>, down: set<Code>, up: set<Code>) {
    exists i: nat :: LastDown(codes, down, up, i)
  }

  ghost predicate ShiftOn(codes: seq<Code>) {
    Held(codes, {0x2A, 0x36}, {0xAA, 0xB6})
  }

  ghost predicate CtrlOn(codes: seq<Code>) {
    Held(codes, {0x1D}, {0x9D})
  }

  ghost predicate AltOn(codes: seq<Code>) {
    Held(codes, {0x38}, {0xB8})
  }

  /** The caps lock key has occurred an odd number of times. */
  ghost predicate CapsOn(codes: seq<Code>) {
    multiset(codes)[0x3A] % 2 == 1
  }

  ghost predicate Prefixed(codes: seq<Code>) {
    codes != [] && codes[|codes| - 1] == 0xE0
  }

  lemma HeldSnoc(codes: seq<Code>, c: Code, down: set<Code>, up: set<Code>)
    requires down !! up
    ensures Held(codes + [c], down, up) <==> c in down || (Held(codes, down, up) && c !in up)
  {
    if c in down {
      assert LastDown(codes + [c], down, up, |codes|);
    }
    if i: nat :| LastDown(codes, down, up, i) && c !in up {
      assert LastDown(codes + [c], down, up, i);
    }
    if i: nat :| LastDown(codes + [c], down, up, i) && c !in down {
      assert (codes + [c])[|codes|] == c;
      assert forall j :: i < j < |codes| ==> (codes + [c])[j] == codes[j];
      assert LastDown(codes, down, up, i);
    }
  }

  lemma CapsSnoc(codes: seq<Code>, c: Code)
    ensures CapsOn(codes + [c]) <==> (CapsOn(codes) != (c == 0x3A))
  {
    assert multiset(codes + [c]) == multiset(codes) + multiset{c};
  }

  /** What the keyboard remembers of a stream */
  ghost function Remembered(codes: seq<Code>): Keys {
    Keys(Prefixed(codes), CapsOn(codes), ShiftOn(codes), CtrlOn(codes), AltOn(codes))
  }

  lemma ModifiersSnoc(codes: seq<Code>, c: Code)
    ensures Modifiers(Remembered(codes), c) == Remembered(codes + [c])
  {
    HeldSnoc(codes, c, {0x2A, 0x36}, {0xAA, 0xB6});
    HeldSnoc(codes, c, {0x1D}, {0x9D});
    HeldSnoc(codes, c, {0x38}, {0xB8});
    CapsSnoc(codes, c);
    assert Prefixed(codes + [c]) <==> c == 0xE0;
  }

  /** Shift, Ctrl and Alt are on by their last press, caps by its parity, and the prefix if it comes last. */
  lemma {:induction false} KeysAfter(e: Editor, codes: seq<Code>)
    requires e.keys == RELEASED
    ensures After(e, codes).keys == Remembered(codes)
    decreases |codes|
  {
    if codes != [] {
      var n := |codes| - 1;
      var rest, c := codes[..n], codes[n];
      assert codes == rest + [c];
      KeysAfter(e, rest);
      DrainSnoc(Input(e, false), rest, c);
      ModifiersSnoc(rest, c);
    }
  }

  /** The ideal editor remembers the same, over all the lines of a stream. */
  lemma {:induction false} TypeKeepsKeys(shell: string -> Verdict, e: Editor, s: Input, codes: seq<Code>)
    requires s.editor.keys == e.keys
    ensures var x := Type(shell, Editing(e), codes).0;
      x.Editing? ==> x.e.keys == Drain(s, codes).editor.keys
    decreases |codes|
  {
    if codes != [] {
      var x1 := Press(shell, e, codes[0]).0;
      if x1.Editing? {
        TypeKeepsKeys(shell, x1.e, Feed(s, codes[0]), codes[1..]);
      }
    }
  }

  lemma StreamKeys(shell: string -> Verdict, e: Editor, codes: seq<Code>)
    requires e.keys == RELEASED
    ensures var x := Type(shell, Editing(e), codes).0;
      x.Editing? ==> x.e.keys == Remembered(codes)
  {
    TypeKeepsKeys(shell, e, Input(e, false), codes);
    KeysAfter(e, codes);
  }

  // ---------- One more key ----------

  /** Under Ctrl and Alt, `t` and `d` choose between the terminal and the windows. */
  ghost predicate Switches(codes: seq<Code>, c: Code) {
    CtrlOn(codes) && AltOn(codes) && !Prefixed(codes) && (c == 0x14 || c == 0x20)
  }

  /** The letter, as a capital exactly when shift and caps differ; of other keys the upper character under shift */
  ghost function Cased(codes: seq<Code>, c: Code): char {
    if !IsLetter(c) then (if ShiftOn(codes) && c < |UPPER| then UPPER[c] else Lower(c))
    else if ShiftOn(codes) != CapsOn(codes) then (Lower(c) as int - 'a' as int + 'A' as int) as char
    else Lower(c)
  }

  /** What the key prints: a press, not behind a prefix, of a key that has a character. */
  ghost function Printed(codes: seq<Code>, c: Code): string {
    if Prefixed(codes) || c >= 0x80 || c == 0x0E || c == 0x1C || Switches(codes, c) || Lower(c) == '\0' then ""
    else [Cased(codes, c)]
  }

  lemma PrintedIsInserted(codes: seq<Code>, c: Code)
    ensures Meaning(Remembered(codes), c) ==
      if c == 0x0E then Erase else if c == 0x1C then Enter
      else if Switches(codes, c) then if c == 0x14 then ToTerminal else ToGui
      else if Printed(codes, c) == "" then Nothing else Insert(Printed(codes, c)[0])
    ensures |Printed(codes, c)| <= 1
  {
    assert LOWER[0x3A - 1] == ' ' && |LOWER| == 0x3A == |UPPER|;
    assert LOWER[0x2A] == '\0' && LOWER[0x36] == '\0' && LOWER[0x1D] == '\0' && LOWER[0x38] == '\0';
  }

  /** What a key makes of a line */
  ghost function LineAfter(line: string, codes: seq<Code>, c: Code): string {
    if c != 0x0E then line + Printed(codes, c) else if line == "" then "" else line[..|line| - 1]
  }

  /** What the windows get for a key */
  ghost function Heard(codes: seq<Code>, c: Code): string {
    if c == 0x0E then "\U{8}" else if c == 0x1C then "\n" else Printed(codes, c)
  }

  /** A key acts on the line while keys go to the terminal, and otherwise the windows get it. */
  lemma NextKey(e: Editor, codes: seq<Code>, c: Code)
    requires e.keys == RELEASED
    ensures After(e, []) == e
    ensures var s, s' := After(e, codes), After(e, codes + [c]);
      && s'.terminal == (if Switches(codes, c) then c == 0x14 else s.terminal)
      && s'.line == (if s.terminal then LineAfter(s.line, codes, c) else s.line)
      && s'.gui == (if s.terminal then s.gui else s.gui + Heard(codes, c))
  {
    KeysAfter(e, codes);
    DrainSnoc(Input(e, false), codes, c);
    PrintedIsInserted(codes, c);
  }

  /** A line is ready exactly if Enter was pressed while keys went to the terminal. */
  lemma {:induction false} ReadyIff(e: Editor, codes: seq<Code>)
    requires e.keys == RELEASED
    ensures Drain(Input(e, false), codes).ready <==>
      exists i {:trigger codes[i]} :: 0 <= i < |codes| && codes[i] == 0x1C && After(e, codes[..i]).terminal
    decreases |codes|
  {
    if codes != [] {
      var n := |codes| - 1;
      var rest, c := codes[..n], codes[n];
      assert codes == rest + [c];
      ReadyIff(e, rest);
      DrainSnoc(Input(e, false), rest, c);
      KeysAfter(e, rest);
      PrintedIsInserted(rest, c);
      assert forall i {:trigger codes[i]} :: 0 <= i < n ==> codes[i] == rest[i] && codes[..i] == rest[..i];
      assert codes[n] == c && codes[..n] == rest;
    }
  }

  /** The shell gets the line at its Enter, and stays, goes to the windows, or ends the loop. */
  lemma EnterIsEvaluated(shell: string -> Verdict, e: Editor)
    requires e.terminal
    ensures var (x, lines) := Round(shell, Started(Editing(e)), [0x1C]);
      && lines == [e.line]
      && match shell(e.line)
         case Stay =>
           x.Running? && !x.s.ready && x.s.editor.terminal && x.s.editor.line == "" && x.s.editor.gui == e.gui
         case ToWindows =>
           x.Running? && !x.s.ready && !x.s.editor.terminal && x.s.editor.line == "" && x.s.editor.gui == e.gui
         case Leave => x == Ended(e.gui)
  {
    var s: seq<Code> := [0x1C];
    assert s[1..] == [];
  }

  /** Nothing is fetched once the loop has ended. */
  lemma {:induction false} NothingAfterEnd(shell: string -> Verdict, gui: string, batches: seq<seq<Code>>)
    ensures Rounds(shell, Ended(gui), batches) == (Ended(gui), [])
    decreases |batches|
  {
    if batches != [] {
      NothingAfterEnd(shell, gui, batches[1..]);
      var none: seq<string> := [];
      assert none + none == none;
    }
  }
}
