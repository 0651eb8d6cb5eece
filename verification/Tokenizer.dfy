/** How the shell cuts a command into arguments. */
module Tokenizer {
  import opened Words

  /** MAX_ARGS, and the longest word that fits `buffer` with its NUL */
  const MAX_ARGS := 16
  const MAX_WORD := 255

  function CutWord(w: string): (r: string)
    ensures |r| == if |w| <= MAX_WORD then |w| else MAX_WORD
    ensures r == w[..|r|]
  {
    if |w| <= MAX_WORD then w else w[..MAX_WORD]
  }

  /** The first 16 words, each cut to 255 characters. */
  function Kept(words: seq<string>): (r: seq<string>)
    ensures |r| == if |words| <= MAX_ARGS then |words| else MAX_ARGS
    ensures forall i :: 0 <= i < |r| ==> r[i] == CutWord(words[i])
  {
    var n := if |words| <= MAX_ARGS then |words| else MAX_ARGS;
    seq(n, i requires 0 <= i < n => CutWord(words[i]))
  }

  /** The arguments of a command. */
  function Tokens(s: string): seq<string> {
    Kept(Words.Words(s, ' '))
  }

  function Spaces(n: nat): (s: string)
    ensures |s| == n && forall k :: 0 <= k < n ==> s[k] == ' '
  {
    seq(n, _ => ' ')
  }

  lemma {:induction false} SpacesNoWords(n: nat)
    ensures Words.Words(Spaces(n), ' ') == []
  {
    if n > 0 {
      SpacesNoWords(n - 1);
      assert Spaces(n)[1..] == Spaces(n - 1);
    }
  }

  /** Trailing blanks make no difference to the shell. */
  lemma TrailingSpaces(line: string, n: nat)
    ensures Tokens(line + Spaces(n)) == Tokens(line)
  {
    WordsAppend(line, Spaces(n), ' ');
    SpacesNoWords(n);
  }

  /** A word is complete when a blank, or the end, follows it. */
  lemma WordEnds(word: string, rest: string)
    requires ' ' !in word && (rest == "" || rest[0] == ' ')
    ensures Words.Words(word + rest, ' ') ==
      (if word == "" then [] else [word]) + Words.Words(if rest == "" then "" else rest[1..], ' ')
  {
    WordsAppend(word, rest, ' ');
    if word != "" {
      WordsOfWord(word, ' ');
    }
  }

  /** After `k` blanks, `cmd` stands in the line, and then nothing or a blank. */
  ghost predicate StandsAt(line: string, cmd: string, k: nat) {
    && k + |cmd| <= |line| && (forall i :: 0 <= i < k ==> line[i] == ' ')
    && line[k..k + |cmd|] == cmd && (k + |cmd| < |line| ==> line[k + |cmd|] == ' ')
  }

  /** The line is some blanks, `cmd`, and then nothing, or a blank and anything. */
  ghost predicate IsCommand(line: string, cmd: string) {
    exists k: nat :: StandsAt(line, cmd, k)
  }

  lemma StandsBehindBlank(line: string, cmd: string)
    requires line != "" && line[0] == ' ' && cmd != "" && ' ' !in cmd
    ensures IsCommand(line, cmd) <==> IsCommand(line[1..], cmd)
  {
    if k: nat :| StandsAt(line, cmd, k) {
      assert line[k..k + |cmd|][0] == cmd[0];
      assert line[1..][k - 1..k - 1 + |cmd|] == line[k..k + |cmd|];
      assert StandsAt(line[1..], cmd, k - 1);
    }
    if k: nat :| StandsAt(line[1..], cmd, k) {
      assert line[k + 1..k + 1 + |cmd|] == line[1..][k..k + |cmd|];
      assert forall i :: 0 < i < k + 1 ==> line[i] == line[1..][i - 1];
      assert StandsAt(line, cmd, k + 1);
    }
  }

  lemma StandsFirst(line: string, cmd: string)
    requires line != "" && line[0] != ' ' && cmd != "" && ' ' !in cmd
    ensures IsCommand(line, cmd) <==> Segment(line, ' ') == cmd
  {
    if k: nat :| StandsAt(line, cmd, k) {
      assert k == 0;
      assert line == cmd + line[|cmd|..];
      SegmentAppend(cmd, line[|cmd|..], ' ');
      WordsOfWord(cmd, ' ');
    }
    if Segment(line, ' ') == cmd {
      assert StandsAt(line, cmd, 0);
    }
  }

  /** A command, short enough not to be cut, is the first argument exactly of the lines that begin with it. */
  lemma {:induction false} FirstTokenIff(line: string, cmd: string)
    requires cmd != "" && ' ' !in cmd && |cmd| < MAX_WORD
    ensures Tokens(line) != [] && Tokens(line)[0] == cmd <==> IsCommand(line, cmd)
    decreases |line|
  {
    if line != "" && line[0] == ' ' {
      FirstTokenIff(line[1..], cmd);
      StandsBehindBlank(line, cmd);
    } else if line != "" {
      StandsFirst(line, cmd);
      assert Tokens(line)[0] == CutWord(Segment(line, ' '));
    }
  }

  lemma KeptSnoc(words: seq<string>, w: string)
    ensures Kept(words + [w]) == if |words| < MAX_ARGS then Kept(words) + [CutWord(w)] else Kept(words)
  {
  }

  /** `all` are the words of an input whose words `complete` were read, then `word`; `rest` is unread. */
  ghost predicate Reading(all: seq<string>, complete: seq<string>, word: string, rest: string) {
    ' ' !in word && all == complete + Words.Words(word + rest, ' ')
  }

  /** What is left of the input at position `i`; the NUL behind it counts as read at last. */
  ghost function Unread(input: string, i: nat): string {
    if i <= |input| then input[i..] else ""
  }

  lemma UnreadNext(input: string, i: nat)
    requires i <= |input|
    ensures Unread(input, i) == "" <==> i == |input|
    ensures i < |input| ==> Unread(input, i)[0] == input[i]
    ensures Unread(input, i + 1) == if i == |input| then "" else Unread(input, i)[1..]
  {
  }

  /** The parsing loop at position `i` of `input`: words `complete` were read, then `word`. */
  ghost predicate ReadingAt(input: string, i: nat, complete: seq<string>, word: string) {
    Reading(Words.Words(input, ' '), complete, word, Unread(input, i))
  }

  lemma ReadNothing(input: string)
    ensures ReadingAt(input, 0, [], "")
  {
    assert "" + Unread(input, 0) == input;
    assert [] + Words.Words(input, ' ') == Words.Words(input, ' ');
  }

  lemma ReadChar(input: string, i: nat, complete: seq<string>, word: string)
    requires ReadingAt(input, i, complete, word) && i < |input| && input[i] != ' '
    ensures ReadingAt(input, i + 1, complete, word + [input[i]])
  {
    UnreadNext(input, i);
    assert word + Unread(input, i) == word + [input[i]] + Unread(input, i + 1);
  }

  ghost function Completed(complete: seq<string>, word: string): seq<string> {
    if word == "" then complete else complete + [word]
  }

  /** At a blank, and at the NUL behind the input */
  lemma ReadBlank(input: string, i: nat, complete: seq<string>, word: string)
    requires ReadingAt(input, i, complete, word) && i <= |input| && (i < |input| ==> input[i] == ' ')
    ensures ReadingAt(input, i + 1, Completed(complete, word), "")
  {
    UnreadNext(input, i);
    WordEnds(word, Unread(input, i));
    var more := Words.Words(Unread(input, i + 1), ' ');
    assert "" + Unread(input, i + 1) == Unread(input, i + 1);
    if word == "" {
      assert [] + more == more;
    } else {
      assert complete + ([word] + more) == complete + [word] + more;
    }
  }

  /** Behind the NUL every word is complete. */
  lemma ReadAll(input: string, complete: seq<string>)
    requires ReadingAt(input, |input| + 1, complete, "")
    ensures Kept(complete) == Tokens(input)
  {
    assert complete == Words.Words(input, ' ');
  }

  /** `n` characters of the buffer hold the word so far, as much of it as fits. */
  ghost predicate Holding(buffer: array<char>, n: nat, word: string)
    reads buffer
  {
    buffer.Length == MAX_WORD + 1 && n == |CutWord(word)| && buffer[..n] == CutWord(word)
  }

  /** A character of a word */
  method StoreChar(buffer: array<char>, n: nat, c: char, ghost word: string) returns (n': nat)
    requires Holding(buffer, n, word)
    modifies buffer
    ensures Holding(buffer, n', word + [c])
  {
    n' := n;
    if n < MAX_WORD {
      buffer[n] := c;
      n' := n + 1;
    }
  }

  /** The end of a word, if there is one */
  method CloseWord(buffer: array<char>, n: nat, args: seq<string>, ghost complete: seq<string>, ghost word: string)
    returns (args': seq<string>)
    requires Holding(buffer, n, word) && args == Kept(complete)
    ensures args' == Kept(Completed(complete, word))
  {
    args' := args;
    if n > 0 {
      KeptSnoc(complete, word);
      if |args| < MAX_ARGS {
        args' := args + [buffer[..n]];
      }
    }
  }

  /** The parsing loop of `eval_user_input` */
  method Tokenize(input: string) returns (args: seq<string>)
    ensures args == Tokens(input)
  {
    var buffer := new char[MAX_WORD + 1];
    var bufIdx := 0;
    args := [];
    ghost var complete: seq<string>, word := [], "";
    ReadNothing(input);
    for i := 0 to |input| + 1
      invariant Holding(buffer, bufIdx, word)
      invariant args == Kept(complete)
      invariant ReadingAt(input, i, complete, word)
      invariant i == |input| + 1 ==> word == ""
    {
      if i == |input| || input[i] == ' ' {
        ReadBlank(input, i, complete, word);
        args := CloseWord(buffer, bufIdx, args, complete, word);
        complete, word, bufIdx := Completed(complete, word), "", 0;
      } else {
        ReadChar(input, i, complete, word);
        bufIdx := StoreChar(buffer, bufIdx, input[i], word);
        word := word + [input[i]];
      }
    }
    ReadAll(input, complete);
  }
}
