/** The unbounded text that a window shows the end of: paragraphs wrapped at a fixed width. */
module Transcript {
  import opened Sequences

  /** The lines of one paragraph: pieces of `cols` characters, then what remains, possibly nothing. */
  function Wrap(p: string, cols: nat): (lines: seq<string>)
    requires cols > 0
    ensures lines != [] && |lines[|lines| - 1]| < cols
    ensures forall i :: 0 <= i < |lines| ==> |lines[i]| <= cols
    decreases |p|
  {
    if |p| < cols then [p] else [p[..cols]] + Wrap(p[cols..], cols)
  }

  /** Where the first newline is, or the length of the text. */
  function ParagraphEnd(text: string): (k: nat)
    ensures k <= |text| && (k < |text| ==> text[k] == '\n') && '\n' !in text[..k]
  {
    if text == "" || text[0] == '\n' then 0 else
      var k := 1 + ParagraphEnd(text[1..]);
      assert text[..k] == [text[0]] + text[1..][..k - 1];
      k
  }

  /** The lines of a text: each paragraph wrapped, one after the other. */
  function Lines(text: string, cols: nat): (lines: seq<string>)
    requires cols > 0
    ensures lines != [] && |lines[|lines| - 1]| < cols
    ensures forall i :: 0 <= i < |lines| ==> |lines[i]| <= cols
    decreases |text|
  {
    var k := ParagraphEnd(text);
    if k == |text| then Wrap(text, cols) else Wrap(text[..k], cols) + Lines(text[k + 1..], cols)
  }

  function Joined(lines: seq<string>): string {
    if lines == [] then "" else lines[0] + Joined(lines[1..])
  }

  /** The lines of a paragraph are all of it, in full lines but for the last. */
  lemma {:induction false} WrapCovers(p: string, cols: nat)
    requires cols > 0
    ensures Joined(Wrap(p, cols)) == p
    ensures forall i :: 0 <= i < |Wrap(p, cols)| - 1 ==> |Wrap(p, cols)[i]| == cols
    decreases |p|
  {
    if |p| < cols {
      assert Joined([p]) == p + Joined([p][1..]) && [p][1..] == [];
    } else {
      WrapCovers(p[cols..], cols);
      assert p == p[..cols] + p[cols..];
    }
  }

  lemma {:induction false} EndOfParagraph(t: string, k: nat)
    requires k < |t| && t[k] == '\n' && '\n' !in t[..k]
    ensures ParagraphEnd(t) == k
    decreases k
  {
    if k > 0 {
      assert t[0] == t[..k][0];
      assert t[1..][..k - 1] == t[..k][1..];
      EndOfParagraph(t[1..], k - 1);
    }
  }

  lemma LinesOfParagraph(p: string, cols: nat)
    requires cols > 0 && '\n' !in p
    ensures Lines(p, cols) == Wrap(p, cols)
  {
  }

  /** A first paragraph and what is behind its newline */
  lemma LinesCut(p: string, rest: string, cols: nat)
    requires cols > 0 && '\n' !in p
    ensures Lines(p + "\n" + rest, cols) == Wrap(p, cols) + Lines(rest, cols)
  {
    var t := p + "\n" + rest;
    assert t[..|p|] == p && t[|p| + 1..] == rest;
    EndOfParagraph(t, |p|);
  }

  /** A newline ends a line, and what follows it is wrapped by itself. */
  lemma {:induction false} LinesJoin(a: string, b: string, cols: nat)
    requires cols > 0
    ensures Lines(a + "\n" + b, cols) == Lines(a, cols) + Lines(b, cols)
    decreases |a|
  {
    var k := ParagraphEnd(a);
    if k == |a| {
      assert a[..k] == a;
      LinesOfParagraph(a, cols);
      LinesCut(a, b, cols);
    } else {
      var p, rest := a[..k], a[k + 1..];
      assert a == p + "\n" + rest && a + "\n" + b == p + "\n" + (rest + "\n" + b);
      LinesJoin(rest, b, cols);
      LinesCut(p, rest, cols);
      LinesCut(p, rest + "\n" + b, cols);
      Associative(Wrap(p, cols), Lines(rest, cols), Lines(b, cols));
    }
  }

  /** What one more character does to the lines. */
  function Type(lines: seq<string>, c: char, cols: nat): seq<string>
    requires lines != []
  {
    var last := lines[|lines| - 1] + [c];
    if c == '\n' then lines + [""]
    else lines[..|lines| - 1] + if |last| < cols then [last] else [last, ""]
  }

  lemma TypeAfter(a: seq<string>, b: seq<string>, c: char, cols: nat)
    requires b != []
    ensures Type(a + b, c, cols) == a + Type(b, c, cols)
  {
  }

  lemma {:induction false} WrapSnoc(p: string, c: char, cols: nat)
    requires cols > 0 && c != '\n'
    ensures Wrap(p + [c], cols) == Type(Wrap(p, cols), c, cols)
    decreases |p|
  {
    if |p| + 1 < cols {
    } else if |p| < cols {
      assert (p + [c])[..cols] == p + [c];
      assert (p + [c])[cols..] == "";
    } else {
      assert (p + [c])[..cols] == p[..cols];
      assert (p + [c])[cols..] == p[cols..] + [c];
      WrapSnoc(p[cols..], c, cols);
      TypeAfter([p[..cols]], Wrap(p[cols..], cols), c, cols);
    }
  }

  lemma {:induction false} ParagraphEndSnoc(text: string, c: char)
    ensures ParagraphEnd(text + [c]) ==
      if ParagraphEnd(text) == |text| && c != '\n' then |text| + 1 else ParagraphEnd(text)
  {
    if text == "" {
      assert (text + [c])[1..] == "";
    } else if text[0] != '\n' {
      assert (text + [c])[1..] == text[1..] + [c];
      ParagraphEndSnoc(text[1..], c);
    }
  }

  /** Wrapping paragraph by paragraph is the same as typing character by character. */
  lemma {:induction false} LinesSnoc(text: string, c: char, cols: nat)
    requires cols > 0
    ensures Lines(text + [c], cols) == Type(Lines(text, cols), c, cols)
    decreases |text|
  {
    var k := ParagraphEnd(text);
    ParagraphEndSnoc(text, c);
    if k == |text| {
      if c == '\n' {
        assert (text + [c])[..k] == text;
        assert (text + [c])[k + 1..] == "";
        assert Lines("", cols) == [""];
      } else {
        WrapSnoc(text, c, cols);
      }
    } else {
      assert (text + [c])[..k] == text[..k];
      assert (text + [c])[k + 1..] == text[k + 1..] + [c];
      LinesSnoc(text[k + 1..], c, cols);
      TypeAfter(Wrap(text[..k], cols), Lines(text[k + 1..], cols), c, cols);
    }
  }
}
