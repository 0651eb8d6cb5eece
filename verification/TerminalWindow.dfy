/**
 The window that runs a shell: the line being edited lives in the grid, behind the prompt, and
 is read back from the grid when Enter is pressed.
 */
module TerminalWindow {
  import opened Characters
  import opened Tokenizer
  import opened Window

  // ---------- The edited line ----------

  /** What a key other than Enter does to an ideal line editor. */
  function Edit(line: string, c: char): string {
    if c != BACKSPACE then line + [c] else if line == "" then line else line[..|line| - 1]
  }

  /** No NUL, newline or backspace: text that stays where it is written. */
  ghost predicate Inert(s: string) {
    '\0' !in s && '\n' !in s && BACKSPACE !in s
  }

  ghost predicate Grid(g: string, rows: nat, cols: nat, x: nat, y: nat) {
    |g| == Area(rows, cols) && rows > 0 && 0 < cols <= |g| && x < cols && y < rows
  }

  /** No character stands below row `y`. */
  ghost predicate BelowClear(g: string, rows: nat, cols: nat, y: nat)
    requires |g| == Area(rows, cols)
  {
    forall i, j {:trigger Cell(g, rows, cols, i, j)} ::
      y < i < rows && 0 <= j < cols ==> Cell(g, rows, cols, i, j) == '\0'
  }

  /** No character stands in row `y` from column `x` on. */
  ghost predicate RightClear(g: string, rows: nat, cols: nat, x: nat, y: nat)
    requires |g| == Area(rows, cols) && y < rows
  {
    forall j {:trigger Cell(g, rows, cols, y, j)} :: x <= j < cols ==> Cell(g, rows, cols, y, j) == '\0'
  }

  /** The character `j` columns behind column `x`. */
  function Behind(g: string, rows: nat, cols: nat, x: nat, y: nat, j: nat): char
    requires |g| == Area(rows, cols) && y < rows && x + j < cols
  {
    Cell(g, rows, cols, y, x + j)
  }

  /** `s` stands in row `y` from column `x` on. */
  ghost predicate Written(g: string, rows: nat, cols: nat, x: nat, y: nat, s: string)
    requires |g| == Area(rows, cols) && y < rows && x + |s| <= cols
  {
    forall j {:trigger Behind(g, rows, cols, x, y, j)} :: 0 <= j < |s| ==> Behind(g, rows, cols, x, y, j) == s[j]
  }

  /** `s` is what stands in row `y` from column `x` up to the first NUL or the right edge. */
  ghost predicate Standing(g: string, rows: nat, cols: nat, y: nat, x: nat, s: string)
    requires |g| == Area(rows, cols) && y < rows
  {
    && x + |s| <= cols && '\0' !in s && Written(g, rows, cols, x, y, s)
    && (x + |s| < cols ==> Cell(g, rows, cols, y, x + |s|) == '\0')
  }

  lemma PutClear(g: string, rows: nat, cols: nat, y: nat, x: nat, c: char)
    requires |g| == Area(rows, cols) && y < rows && x < cols
    ensures BelowClear(g, rows, cols, y) ==> BelowClear(Put(g, rows, cols, y, x, c), rows, cols, y)
    ensures RightClear(g, rows, cols, x, y) ==> RightClear(Put(g, rows, cols, y, x, c), rows, cols, x + 1, y)
  {
    forall i, j | 0 <= i < rows && 0 <= j < cols
      ensures Cell(Put(g, rows, cols, y, x, c), rows, cols, i, j)
           == if i == y && j == x then c else Cell(g, rows, cols, i, j)
    {
      CellOfPut(g, rows, cols, y, x, c, i, j);
    }
  }

  lemma DownClear(g: string, rows: nat, cols: nat, y: nat)
    requires |g| == Area(rows, cols) && cols <= |g| && y < rows
    requires BelowClear(g, rows, cols, y)
    ensures var (g', y') := NextRow(g, rows, cols, y);
      y' < rows && BelowClear(g', rows, cols, y') && RightClear(g', rows, cols, 0, y')
  {
    forall j | y + 1 == rows && 0 <= j < cols
      ensures Cell(Scrolled(g, cols), rows, cols, y, j) == '\0'
    {
      CellOfScroll(g, rows, cols, y, j);
    }
  }

  /** Keys other than backspace leave the screen clear behind and below the cursor. */
  lemma PressedClear(g: string, rows: nat, cols: nat, x: nat, y: nat, c: char, g': string, x': nat, y': nat)
    requires Grid(g, rows, cols, x, y) && |g'| == |g| && c != BACKSPACE
    requires Pressed(g, rows, cols, x, y, c, g', x', y')
    requires BelowClear(g, rows, cols, y)
    ensures Grid(g', rows, cols, x', y') && BelowClear(g', rows, cols, y')
    ensures c == '\n' || RightClear(g, rows, cols, x, y) ==> RightClear(g', rows, cols, x', y')
  {
    if c == '\n' {
      DownClear(g, rows, cols, y);
    } else {
      var g1 := Put(g, rows, cols, y, x, c);
      PutClear(g, rows, cols, y, x, c);
      if x + 1 < cols {
        PutClear(g1, rows, cols, y, x + 1, '\0');
        assert RightClear(g1, rows, cols, x + 1, y) ==> RightClear(g', rows, cols, x + 1, y) by {
          CellOfPut(g1, rows, cols, y, x + 1, '\0', y, x + 1);
        }
      } else {
        DownClear(g1, rows, cols, y);
      }
    }
  }

  /** The row of the cursor holds, from column `p` on, the line, `n` blanks, and NUL. */
  ghost predicate Editing(g: string, rows: nat, cols: nat, x: nat, y: nat, p: nat, line: string, n: nat) {
    && Grid(g, rows, cols, x, y)
    && x == p + |line| && x + n < cols && Inert(line)
    && Written(g, rows, cols, p, y, line + Spaces(n))
    && Cell(g, rows, cols, y, x + n) == '\0'
  }

  lemma EditType(g: string, rows: nat, cols: nat, x: nat, y: nat, c: char, g': string, x': nat, y': nat,
                 p: nat, line: string, n: nat)
    requires Editing(g, rows, cols, x, y, p, line, n) && |g'| == |g|
    requires c != '\n' && c != BACKSPACE && c != '\0' && x + 1 < cols
    requires Pressed(g, rows, cols, x, y, c, g', x', y')
    ensures Editing(g', rows, cols, x', y', p, line + [c], 0)
  {
    var g1 := Put(g, rows, cols, y, x, c);
    var s := line + [c] + Spaces(0);
    forall j | 0 <= j < |s|
      ensures Behind(g', rows, cols, p, y, j) == s[j]
    {
      CellOfPut(g, rows, cols, y, x, c, y, p + j);
      CellOfPut(g1, rows, cols, y, x + 1, '\0', y, p + j);
      if j < |line| {
        assert Behind(g, rows, cols, p, y, j) == (line + Spaces(n))[j];
      }
    }
    CellOfPut(g1, rows, cols, y, x + 1, '\0', y, x + 1);
  }

  lemma EditBack(g: string, rows: nat, cols: nat, x: nat, y: nat, g': string, x': nat, y': nat,
                 p: nat, line: string, n: nat)
    requires Editing(g, rows, cols, x, y, p, line, n) && |g'| == |g| && line != ""
    requires Pressed(g, rows, cols, x, y, BACKSPACE, g', x', y')
    ensures Editing(g', rows, cols, x', y', p, line[..|line| - 1], n + 1)
  {
    var s := line[..|line| - 1] + Spaces(n + 1);
    forall j | 0 <= j < |s|
      ensures Behind(g', rows, cols, p, y, j) == s[j]
    {
      CellOfPut(g, rows, cols, y, x - 1, ' ', y, p + j);
      assert Behind(g, rows, cols, p, y, j) == (line + Spaces(n))[j];
    }
    CellOfPut(g, rows, cols, y, x - 1, ' ', y, x + n);
  }

  lemma BackClear(g: string, rows: nat, cols: nat, x: nat, y: nat, g': string, x': nat, y': nat)
    requires Grid(g, rows, cols, x, y) && |g'| == |g| && x > 0 && BelowClear(g, rows, cols, y)
    requires Pressed(g, rows, cols, x, y, BACKSPACE, g', x', y')
    ensures Grid(g', rows, cols, x', y') && BelowClear(g', rows, cols, y')
  {
    PutClear(g, rows, cols, y, x - 1, ' ');
  }

  lemma BlankGrid(g: string, rows: nat, cols: nat)
    requires |g| == Area(rows, cols) && rows > 0 && cols > 0 && forall k :: 0 <= k < |g| ==> g[k] == '\0'
    ensures Grid(g, rows, cols, 0, 0) && BelowClear(g, rows, cols, 0) && RightClear(g, rows, cols, 0, 0)
  {
    forall i, j | 0 <= i < rows && 0 <= j < cols
      ensures Cell(g, rows, cols, i, j) == '\0'
    {
      OffsetBound(rows, cols, i, j);
    }
  }

  class TerminalWindow {
    const window: Window
    const prompt: string
    var shouldClose: bool
    ghost var line: string     // the line as an ideal editor would have it
    ghost var blanks: nat      // what backspace has left behind it
    ghost var straight: bool   // the prompt began a row, and the line never reached the right edge

    ghost predicate Screen()
      reads this, window, window.grid
    {
      && window.Valid()
      && Grid(window.grid[..], window.rows, window.cols, window.x, window.y)
      && BelowClear(window.grid[..], window.rows, window.cols, window.y)
    }

    /** No character stands behind the cursor in its row. */
    ghost predicate ClearBehind()
      reads this, window, window.grid
    {
      Screen() && RightClear(window.grid[..], window.rows, window.cols, window.x, window.y)
    }

    ghost predicate Valid()
      reads this, window, window.grid
    {
      && Screen() && |prompt| <= window.cols && Inert(prompt)
      && (straight ==> Editing(window.grid[..], window.rows, window.cols, window.x, window.y, |prompt|, line, blanks))
    }

    constructor (columns: nat, lines: nat, promptString: string)
      requires columns > 0 && lines > 0 && |promptString| <= columns && Inert(promptString)
      ensures Valid() && fresh(window) && fresh(window.grid)
      ensures window.cols == columns && window.rows == lines && prompt == promptString
      ensures line == "" && (straight <==> |promptString| < columns)
    {
      window := new Window(columns, lines);
      prompt := promptString;
      shouldClose, straight, line, blanks := false, false, "", 0;
      new;
      BlankGrid(window.grid[..], lines, columns);
      PrintPrompt();
    }

    /** `print`: any text reaches the window; text without backspace keeps the cursor left of the right edge. */
    method Print(s: string)
      requires window.Valid()
      modifies window, window.grid
      ensures window.Valid() && window.text == old(window.text) + s
      ensures old(Screen()) && BACKSPACE !in s ==> Screen()
      ensures old(Screen()) && old(window.x) + |s| < window.cols && Inert(s) ==>
                window.x == old(window.x) + |s| && window.y == old(window.y)
      ensures old(Screen()) && BACKSPACE !in s && s != "" && s[|s| - 1] == '\n' ==> window.x == 0
      ensures old(Screen()) && BACKSPACE !in s && old(ClearBehind()) ==> Screen() && ClearBehind()
    {
      ghost var plain := Screen() && BACKSPACE !in s;
      var k := 0;
      while k < |s|
        invariant 0 <= k <= |s| && window.Valid() && window.text == old(window.text) + s[..k]
        invariant plain ==> Screen()
        invariant plain && old(window.x) + |s| < window.cols && Inert(s) ==>
                    window.x == old(window.x) + k && window.y == old(window.y)
        invariant plain && k > 0 && s[k - 1] == '\n' ==> window.x == 0
        invariant plain && old(ClearBehind()) ==> ClearBehind()
      {
        ghost var g, x, y := window.grid[..], window.x, window.y;
        window.InjectKey(s[k]);
        if plain {
          PressedClear(g, window.rows, window.cols, x, y, s[k], window.grid[..], window.x, window.y);
        }
        k := k + 1;
      }
    }

    /** `print(prompt)`: editing starts behind the prompt. */
    method PrintPrompt()
      requires Screen() && |prompt| <= window.cols && Inert(prompt)
      requires ClearBehind()
      modifies this`line, this`blanks, this`straight, window, window.grid
      ensures Valid() && line == "" && (straight <==> old(window.x) == 0 && |prompt| < window.cols)
      ensures window.text == old(window.text) + prompt
    {
      Print(prompt);
      straight := old(window.x) == 0 && |prompt| < window.cols;
      line, blanks := "", 0;
      if straight {
        assert Cell(window.grid[..], window.rows, window.cols, window.y, window.x) == '\0';
      }
    }

    /** `strncpy` from behind the prompt: the command ends at the first NUL or at the right edge. */
    method ReadCommand() returns (command: string)
      requires Valid()
      ensures Standing(window.grid[..], window.rows, window.cols, window.y, |prompt|, command)
      ensures straight ==> command == line + Spaces(blanks)
    {
      var k := |prompt|;
      command := "";
      ghost var typed := line + Spaces(blanks);
      while k < window.cols
        invariant |prompt| <= k <= window.cols && |command| == k - |prompt|
        invariant Written(window.grid[..], window.rows, window.cols, |prompt|, window.y, command) && '\0' !in command
        invariant straight ==> |command| <= |typed| && command == typed[..|command|]
      {
        OffsetBound(window.rows, window.cols, window.y, k);
        var c := window.grid[Offset(window.cols, window.y, k)];
        assert c == Cell(window.grid[..], window.rows, window.cols, window.y, k);
        if straight && |command| < |typed| {
          assert c == Behind(window.grid[..], window.rows, window.cols, |prompt|, window.y, |command|);
          assert c == typed[|command|];
        }
        if c == '\0' {
          break;
        }
        assert c == Behind(window.grid[..], window.rows, window.cols, |prompt|, window.y, |command|);
        command := command + [c];
        k := k + 1;
      }
    }

    /** `inject_key` for Enter: the shell gets the command, prints `reply`, and says whether it ends. */
    method InjectEnter(reply: string, ends: bool) returns (command: string)
      requires Valid() && BACKSPACE !in reply
      modifies this, window, window.grid
      ensures Valid() && shouldClose == (old(shouldClose) || ends)
      ensures Standing(old(window.grid[..]), window.rows, window.cols, old(window.y), |prompt|, command)
      ensures old(straight) ==> Tokens(command) == Tokens(old(line))
      ensures window.text == old(window.text) + "\n" + reply + (if ends then "" else prompt)
      ensures !ends && |prompt| < window.cols && (reply == "" || reply[|reply| - 1] == '\n') ==> straight && line == ""
    {
      command := ReadCommand();
      TrailingSpaces(line, blanks);
      ghost var g, x, y := window.grid[..], window.x, window.y;
      window.InjectKey('\n');
      PressedClear(g, window.rows, window.cols, x, y, '\n', window.grid[..], window.x, window.y);
      Print(reply);
      if ends {
        shouldClose, straight := true, false;
        return;
      }
      PrintPrompt();
    }

    /** `inject_key` for any other key: the cursor never reaches the right edge, and never leaves the line. */
    method InjectKey(c: char)
      requires Valid() && c != '\n'
      modifies this`line, this`blanks, this`straight, window, window.grid
      ensures Valid()
      ensures straight <==> old(straight) && (c == BACKSPACE || (c != '\0' && |prompt| + |old(line)| + 1 < window.cols))
      ensures straight ==> line == Edit(old(line), c)
      ensures var kept := c == BACKSPACE && old(window.x) <= |prompt|;
        && window.text == old(window.text) + (if kept then "" else [c])
        && (kept ==> window.grid[..] == old(window.grid[..]) && window.x == old(window.x))
    {
      ghost var g, x, y := window.grid[..], window.x, window.y;
      ghost var rows, cols, p := window.rows, window.cols, |prompt|;
      if c == BACKSPACE {
        if window.x > |prompt| {
          window.InjectKey(BACKSPACE);
          BackClear(g, rows, cols, x, y, window.grid[..], window.x, window.y);
          if straight {
            EditBack(g, rows, cols, x, y, window.grid[..], window.x, window.y, p, line, blanks);
            line, blanks := line[..|line| - 1], blanks + 1;
          }
        }
        return;
      }
      window.InjectKey(c);
      PressedClear(g, rows, cols, x, y, c, window.grid[..], window.x, window.y);
      if straight && c != '\0' && x + 1 < cols {
        EditType(g, rows, cols, x, y, c, window.grid[..], window.x, window.y, p, line, blanks);
        line, blanks := line + [c], 0;
      } else {
        straight := false;
      }
    }
  }
}
