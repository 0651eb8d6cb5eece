/** The character grid of a window: flat, of fixed size, scrolled in place. */
module Window {
  import opened Characters
  import opened Transcript

  /** `i * cols + j`, where row `i`, column `j` of a flat grid is stored. */
  function Offset(cols: nat, i: nat, j: nat): nat {
    if i == 0 then j else cols + Offset(cols, i - 1, j)
  }

  lemma {:induction false} OffsetIsProduct(cols: nat, i: nat, j: nat)
    ensures Offset(cols, i, j) == i * cols + j
  {
    if i > 0 {
      OffsetIsProduct(cols, i - 1, j);
      assert i * cols == (i - 1) * cols + cols;
    }
  }

  function Area(rows: nat, cols: nat): nat {
    Offset(cols, rows, 0)
  }

  lemma {:induction false} OffsetShift(cols: nat, i: nat, j: nat, k: nat)
    ensures Offset(cols, i, j + k) == Offset(cols, i, j) + k
  {
    if i > 0 {
      OffsetShift(cols, i - 1, j, k);
    }
  }

  lemma {:induction false} OffsetBound(rows: nat, cols: nat, i: nat, j: nat)
    requires i < rows && j < cols
    ensures Offset(cols, i, j) < Area(rows, cols)
  {
    if i == 0 {
      OffsetShift(cols, rows - 1, 0, 0);
    } else {
      OffsetBound(rows - 1, cols, i - 1, j);
    }
  }

  lemma {:induction false} OffsetUnique(cols: nat, i: nat, j: nat, i': nat, j': nat)
    requires j < cols && j' < cols && Offset(cols, i, j) == Offset(cols, i', j')
    ensures i == i' && j == j'
  {
    if i > 0 && i' > 0 {
      OffsetUnique(cols, i - 1, j, i' - 1, j');
    }
  }

  /** The character in row `i`, column `j` of the flat grid. */
  function Cell(g: string, rows: nat, cols: nat, i: nat, j: nat): char
    requires |g| == Area(rows, cols) && i < rows && j < cols
  {
    OffsetBound(rows, cols, i, j);
    g[Offset(cols, i, j)]
  }

  /** The character of a line of text at a column; NUL behind its end and behind the last line. */
  function LineChar(lines: seq<string>, k: nat, j: nat): char {
    if k < |lines| && j < |lines[k]| then lines[k][j] else '\0'
  }

  /** The grid holds `lines` from line `top` on. */
  ghost predicate Content(g: string, rows: nat, cols: nat, lines: seq<string>, top: nat)
    requires |g| == Area(rows, cols)
  {
    forall i, j {:trigger Cell(g, rows, cols, i, j)} :: 0 <= i < rows && 0 <= j < cols ==>
      Cell(g, rows, cols, i, j) == LineChar(lines, top + i, j)
  }

  /** The first line on screen when the last `rows` lines are shown. */
  function Top(lines: seq<string>, rows: nat): nat {
    if |lines| > rows then |lines| - rows else 0
  }

  /** Grid and cursor show exactly the last `rows` lines, the cursor behind the last character. */
  ghost predicate Shows(g: string, rows: nat, cols: nat, x: nat, y: nat, lines: seq<string>)
    requires |g| == Area(rows, cols) && lines != []
  {
    && y == |lines| - 1 - Top(lines, rows)
    && x == |lines[|lines| - 1]|
    && Content(g, rows, cols, lines, Top(lines, rows))
  }

  // ---------- What the writes do ----------

  /** The grid with one character replaced. */
  function Put(g: string, rows: nat, cols: nat, i: nat, j: nat, c: char): (g': string)
    requires |g| == Area(rows, cols) && i < rows && j < cols
    ensures |g'| == |g|
  {
    OffsetBound(rows, cols, i, j);
    g[Offset(cols, i, j) := c]
  }

  lemma CellOfPut(g: string, rows: nat, cols: nat, y: nat, x: nat, c: char, i: nat, j: nat)
    requires |g| == Area(rows, cols) && y < rows && x < cols && i < rows && j < cols
    ensures Cell(Put(g, rows, cols, y, x, c), rows, cols, i, j)
         == if i == y && j == x then c else Cell(g, rows, cols, i, j)
  {
    OffsetBound(rows, cols, i, j);
    if Offset(cols, i, j) == Offset(cols, y, x) {
      OffsetUnique(cols, i, j, y, x);
    }
  }

  /** The grid after scrolling by one row. */
  function Scrolled(g: string, cols: nat): (g': string)
    requires cols <= |g|
    ensures |g'| == |g|
  {
    g[cols..] + seq(cols, _ => '\0')
  }

  lemma CellOfScroll(g: string, rows: nat, cols: nat, i: nat, j: nat)
    requires |g| == Area(rows, cols) && rows > 0 && i < rows && j < cols && cols <= |g|
    ensures Cell(Scrolled(g, cols), rows, cols, i, j) == if i + 1 < rows then Cell(g, rows, cols, i + 1, j) else '\0'
  {
    OffsetBound(rows, cols, i, j);
    if i + 1 < rows {
      OffsetBound(rows, cols, i + 1, j);
    } else {
      OffsetShift(cols, i, 0, j);
    }
  }

  lemma TypedChar(lines: seq<string>, c: char, cols: nat, k: nat, j: nat)
    requires lines != [] && c != '\n'
    ensures LineChar(Type(lines, c, cols), k, j) ==
      if k == |lines| - 1 && j == |lines[|lines| - 1]| then c else LineChar(lines, k, j)
  {
  }

  /** Writing a character at the end of the last line. */
  lemma TypeContent(g: string, rows: nat, cols: nat, lines: seq<string>, top: nat, y: nat, x: nat, c: char)
    requires |g| == Area(rows, cols) && Content(g, rows, cols, lines, top) && c != '\n'
    requires lines != [] && top + y == |lines| - 1 && y < rows && x == |lines[|lines| - 1]| < cols
    ensures Content(Put(g, rows, cols, y, x, c), rows, cols, Type(lines, c, cols), top)
  {
    var g' := Put(g, rows, cols, y, x, c);
    forall i, j | 0 <= i < rows && 0 <= j < cols
      ensures Cell(g', rows, cols, i, j) == LineChar(Type(lines, c, cols), top + i, j)
    {
      CellOfPut(g, rows, cols, y, x, c, i, j);
      assert Cell(g, rows, cols, i, j) == LineChar(lines, top + i, j);
      TypedChar(lines, c, cols, top + i, j);
    }
  }

  /** Writing NUL behind the end of the last line. */
  lemma ClearContent(g: string, rows: nat, cols: nat, lines: seq<string>, top: nat, y: nat, x: nat)
    requires |g| == Area(rows, cols) && Content(g, rows, cols, lines, top)
    requires lines != [] && top + y == |lines| - 1 && y < rows && x == |lines[|lines| - 1]| < cols
    ensures Content(Put(g, rows, cols, y, x, '\0'), rows, cols, lines, top)
  {
    var g' := Put(g, rows, cols, y, x, '\0');
    forall i, j | 0 <= i < rows && 0 <= j < cols
      ensures Cell(g', rows, cols, i, j) == LineChar(lines, top + i, j)
    {
      CellOfPut(g, rows, cols, y, x, '\0', i, j);
      assert Cell(g, rows, cols, i, j) == LineChar(lines, top + i, j);
    }
  }

  /** An empty last line looks like no line. */
  lemma EmptyLineContent(g: string, rows: nat, cols: nat, lines: seq<string>, top: nat)
    requires |g| == Area(rows, cols) && Content(g, rows, cols, lines, top)
    ensures Content(g, rows, cols, lines + [""], top)
  {
  }

  /** Scrolling makes room for an empty last line that did not fit. */
  lemma ScrollContent(g: string, rows: nat, cols: nat, lines: seq<string>, top: nat)
    requires |g| == Area(rows, cols) && rows > 0 && cols <= |g| && Content(g, rows, cols, lines, top)
    requires lines != [] && lines[|lines| - 1] == "" && |lines| - 1 == top + rows
    ensures Content(Scrolled(g, cols), rows, cols, lines, top + 1)
  {
    forall i, j | 0 <= i < rows && 0 <= j < cols
      ensures Cell(Scrolled(g, cols), rows, cols, i, j) == LineChar(lines, top + 1 + i, j)
    {
      CellOfScroll(g, rows, cols, i, j);
      if i + 1 < rows {
        assert Cell(g, rows, cols, i + 1, j) == LineChar(lines, top + (i + 1), j);
      }
    }
  }

  // ---------- What the keys do ----------

  lemma BlankShows(g: string, rows: nat, cols: nat)
    requires |g| == Area(rows, cols) && rows > 0 && cols > 0 && forall k :: 0 <= k < |g| ==> g[k] == '\0'
    ensures Shows(g, rows, cols, 0, 0, [""])
  {
    forall i, j | 0 <= i < rows && 0 <= j < cols
      ensures Cell(g, rows, cols, i, j) == LineChar([""], i, j)
    {
      OffsetBound(rows, cols, i, j);
    }
  }

  /** The cursor has gone down one row from `y`, to an empty last line; now the grid scrolls if it must. */
  lemma DownShows(g: string, rows: nat, cols: nat, y: nat, lines: seq<string>)
    requires |g| == Area(rows, cols) && rows > 0 && cols <= |g|
    requires |lines| > 1 && lines[|lines| - 1] == "" && y < rows
    requires y == |lines| - 2 - Top(lines[..|lines| - 1], rows)
    requires Content(g, rows, cols, lines, Top(lines[..|lines| - 1], rows))
    ensures if y + 1 < rows then Shows(g, rows, cols, 0, y + 1, lines)
            else Shows(Scrolled(g, cols), rows, cols, 0, rows - 1, lines)
  {
    if y + 1 == rows {
      ScrollContent(g, rows, cols, lines, Top(lines[..|lines| - 1], rows));
    }
  }

  lemma NewlineShows(g: string, rows: nat, cols: nat, x: nat, y: nat, lines: seq<string>)
    requires |g| == Area(rows, cols) && rows > 0 && cols <= |g| && lines != []
    requires Shows(g, rows, cols, x, y, lines)
    ensures if y + 1 < rows then Shows(g, rows, cols, 0, y + 1, lines + [""])
            else Shows(Scrolled(g, cols), rows, cols, 0, rows - 1, lines + [""])
  {
    EmptyLineContent(g, rows, cols, lines, Top(lines, rows));
    assert (lines + [""])[..|lines + [""]| - 1] == lines;
    DownShows(g, rows, cols, y, lines + [""]);
  }

  /** A character that does not reach the right edge, and the NUL behind it. */
  lemma TypeShows(g: string, rows: nat, cols: nat, x: nat, y: nat, lines: seq<string>, c: char)
    requires |g| == Area(rows, cols) && lines != [] && c != '\n'
    requires Shows(g, rows, cols, x, y, lines) && y < rows && x + 1 < cols
    ensures Shows(Put(Put(g, rows, cols, y, x, c), rows, cols, y, x + 1, '\0'),
                  rows, cols, x + 1, y, Type(lines, c, cols))
  {
    TypeContent(g, rows, cols, lines, Top(lines, rows), y, x, c);
    ClearContent(Put(g, rows, cols, y, x, c), rows, cols, Type(lines, c, cols), Top(lines, rows), y, x + 1);
  }

  /** A character that fills its line. */
  lemma WrapShows(g: string, rows: nat, cols: nat, x: nat, y: nat, lines: seq<string>, c: char)
    requires |g| == Area(rows, cols) && rows > 0 && cols <= |g| && lines != [] && c != '\n'
    requires Shows(g, rows, cols, x, y, lines) && y < rows && x + 1 == cols
    ensures var g' := Put(g, rows, cols, y, x, c);
            if y + 1 < rows then Shows(g', rows, cols, 0, y + 1, Type(lines, c, cols))
            else Shows(Scrolled(g', cols), rows, cols, 0, rows - 1, Type(lines, c, cols))
  {
    TypeContent(g, rows, cols, lines, Top(lines, rows), y, x, c);
    DownShows(Put(g, rows, cols, y, x, c), rows, cols, y, Type(lines, c, cols));
  }

  /** How many characters stand in a row before its first NUL. */
  function RowLength(g: string, rows: nat, cols: nat, i: nat, from: nat): (n: nat)
    requires |g| == Area(rows, cols) && i < rows && from <= cols
    ensures from <= n <= cols
    ensures forall j {:trigger Cell(g, rows, cols, i, j)} :: from <= j < n ==> Cell(g, rows, cols, i, j) != '\0'
    ensures n < cols ==> Cell(g, rows, cols, i, n) == '\0'
    decreases cols - from
  {
    if from == cols || Cell(g, rows, cols, i, from) == '\0' then from else RowLength(g, rows, cols, i, from + 1)
  }

  /** Grid and cursor row after going down one row from `y`. */
  function NextRow(g: string, rows: nat, cols: nat, y: nat): (string, nat)
    requires |g| == Area(rows, cols) && cols <= |g| && rows > 0
  {
    if y + 1 < rows then (g, y + 1) else (Scrolled(g, cols), rows - 1)
  }

  /** What one key does to grid and cursor. */
  ghost predicate Pressed(g: string, rows: nat, cols: nat, x: nat, y: nat, c: char, g': string, x': nat, y': nat)
    requires |g| == Area(rows, cols) == |g'| && rows > 0 && 0 < cols <= |g|
    requires y < rows && x <= cols && (x == cols ==> y + 1 < rows)
  {
    if c == '\n' then x' == 0 && (g', y') == NextRow(g, rows, cols, y)
    else if c == BACKSPACE then
      if x > 0 then x' == x - 1 && y' == y && g' == Put(g, rows, cols, y, x - 1, ' ')
      else g' == g && if y == 0 then x' == 0 && y' == 0 else y' == y - 1 && x' == RowLength(g, rows, cols, y', 0)
    else if x + 1 < cols then
      x' == x + 1 && y' == y && g' == Put(Put(g, rows, cols, y, x, c), rows, cols, y, x', '\0')
    else if x < cols then
      x' == 0 && (g', y') == NextRow(Put(g, rows, cols, y, x, c), rows, cols, y)
    else
      x' == 0 && y' == y + 1 && g' == Put(g, rows, cols, y', 0, c)
  }

  class Window {
    const cols: nat
    const rows: nat
    const grid: array<char>
    var x: nat
    var y: nat
    ghost var text: string   // every key since the window was made
    ghost var plain: bool    // none of them was a backspace

    /** What every key keeps, so that every access to the grid is in bounds. */
    ghost predicate InBounds()
      reads this
    {
      && grid.Length == Area(rows, cols)
      && (cols > 0 && rows > 0 ==> x <= cols && y < rows && (x == cols ==> y + 1 < rows))
    }

    ghost predicate Valid()
      reads this, grid
    {
      InBounds() && (plain && cols > 0 && rows > 0 ==> Shows(grid[..], rows, cols, x, y, Lines(text, cols)))
    }

    constructor (columns: nat, lines: nat)
      ensures Valid() && cols == columns && rows == lines && text == "" && plain && fresh(grid)
      ensures x == 0 && y == 0 && forall k :: 0 <= k < grid.Length ==> grid[k] == '\0'
    {
      cols, rows := columns, lines;
      grid := new char[Area(lines, columns)](_ => '\0');
      x, y := 0, 0;
      text, plain := "", true;
      new;
      if cols > 0 && rows > 0 {
        assert Lines("", cols) == [""];
        BlankShows(grid[..], rows, cols);
      }
    }

    /** `scroll_forward`, with the contracts of `memmove` and `memset` */
    method ScrollForward()
      requires grid.Length == Area(rows, cols) && rows > 0
      modifies this`y, grid
      ensures if old(y) >= rows then y == rows - 1 && cols <= grid.Length && grid[..] == Scrolled(old(grid[..]), cols)
              else y == old(y) && grid[..] == old(grid[..])
    {
      if y >= rows {
        var kept := Offset(cols, rows - 1, 0);
        ghost var g := grid[..];
        forall k | 0 <= k < kept {
          grid[k] := grid[k + cols];
        }
        forall k | kept <= k < grid.Length {
          grid[k] := '\0';
        }
        y := rows - 1;
        assert grid[..] == Scrolled(g, cols);
      }
    }

    /** The cursor goes to the start of the next row. */
    method Down()
      requires InBounds() && cols > 0 && rows > 0 && y < rows
      modifies this`x, this`y, grid
      ensures InBounds() && x == 0 && cols <= grid.Length
      ensures (grid[..], y) == NextRow(old(grid[..]), rows, cols, old(y))
    {
      assert cols <= grid.Length;
      x := 0;
      y := y + 1;
      ScrollForward();
    }

    /** `inject_key` for a newline */
    method InjectNewline()
      requires Valid() && cols > 0 && rows > 0
      modifies this, grid
      ensures Valid() && text == old(text) + "\n" && plain == old(plain)
      ensures x == 0 && cols <= grid.Length && (grid[..], y) == NextRow(old(grid[..]), rows, cols, old(y))
    {
      assert cols <= grid.Length;
      LinesSnoc(text, '\n', cols);
      if plain {
        NewlineShows(grid[..], rows, cols, x, y, Lines(text, cols));
      }
      Down();
      text := text + "\n";
    }

    /** `text_grid[i * cols + j] = c` */
    method SetCell(i: nat, j: nat, c: char)
      requires grid.Length == Area(rows, cols) && i < rows && j < cols
      modifies grid
      ensures grid[..] == Put(old(grid[..]), rows, cols, i, j, c)
    {
      OffsetBound(rows, cols, i, j);
      grid[Offset(cols, i, j)] := c;
    }

    /** `inject_key` for a character that stays left of the right edge */
    method InjectInside(c: char)
      requires Valid() && cols > 0 && rows > 0 && x + 1 < cols && c != '\n' && c != BACKSPACE
      modifies this, grid
      ensures Valid() && text == old(text) + [c] && plain == old(plain)
      ensures x == old(x) + 1 && y == old(y)
      ensures grid[..] == Put(Put(old(grid[..]), rows, cols, y, x - 1, c), rows, cols, y, x, '\0')
    {
      ghost var g, lines := grid[..], Lines(text, cols);
      LinesSnoc(text, c, cols);
      text := text + [c];
      SetCell(y, x, c);
      x := x + 1;
      SetCell(y, x, '\0');
      if plain {
        TypeShows(g, rows, cols, x - 1, y, lines, c);
      }
    }

    /** `inject_key` for a character that reaches the right edge */
    method InjectAtEdge(c: char)
      requires Valid() && cols > 0 && rows > 0 && x + 1 == cols && c != '\n' && c != BACKSPACE
      modifies this, grid
      ensures Valid() && text == old(text) + [c] && plain == old(plain)
      ensures x == 0 && cols <= grid.Length
      ensures (grid[..], y) == NextRow(Put(old(grid[..]), rows, cols, old(y), old(x), c), rows, cols, old(y))
    {
      assert cols <= grid.Length;
      LinesSnoc(text, c, cols);
      if plain {
        WrapShows(grid[..], rows, cols, x, y, Lines(text, cols), c);
      }
      SetCell(y, x, c);
      Down();
      text := text + [c];
    }

    /** `inject_key` for a character typed behind a full row, where a backspace had put the cursor */
    method InjectBehindRow(c: char)
      requires Valid() && cols > 0 && rows > 0 && x == cols && c != '\n' && c != BACKSPACE
      modifies this, grid
      ensures Valid() && text == old(text) + [c] && plain == old(plain)
      ensures x == 0 && y == old(y) + 1 && grid[..] == Put(old(grid[..]), rows, cols, y, 0, c)
    {
      OffsetShift(cols, y, 0, cols);
      OffsetBound(rows, cols, y + 1, 0);
      assert Offset(cols, y, x) == Offset(cols, y + 1, 0);
      grid[Offset(cols, y, x)] := c;
      Down();
      text := text + [c];
    }

    /** `inject_key` for a backspace */
    method InjectBackspace()
      requires Valid() && cols > 0 && rows > 0
      modifies this, grid
      ensures Valid() && text == old(text) + [BACKSPACE] && !plain
      ensures if old(x) > 0 then
                x == old(x) - 1 && y == old(y) && grid[..] == Put(old(grid[..]), rows, cols, y, x, ' ')
              else
                grid[..] == old(grid[..])
                && if old(y) == 0 then x == 0 && y == 0
                   else y == old(y) - 1 && x == RowLength(grid[..], rows, cols, y, 0)
    {
      plain := false;
      text := text + [BACKSPACE];
      if x > 0 {
        x := x - 1;
        SetCell(y, x, ' ');
      } else if y > 0 {
        y := y - 1;
        var col := 0;
        while col < cols
          invariant col <= cols && x == col && y == old(y) - 1 && !plain && text == old(text) + [BACKSPACE]
          invariant RowLength(grid[..], rows, cols, y, 0) == RowLength(grid[..], rows, cols, y, col)
          invariant grid[..] == old(grid[..])
        {
          OffsetBound(rows, cols, y, col);
          if grid[Offset(cols, y, col)] == '\0' {
            break;
          }
          x := x + 1;
          col := col + 1;
        }
      }
    }

    /** `inject_key`: as long as no backspace was typed, the grid shows the end of the text. */
    method InjectKey(c: char)
      requires Valid()
      modifies this, grid
      ensures Valid() && text == old(text) + [c] && plain == (old(plain) && c != BACKSPACE)
      ensures if cols == 0 || rows == 0 then x == old(x) && y == old(y) && grid[..] == old(grid[..])
              else cols <= grid.Length && Pressed(old(grid[..]), rows, cols, old(x), old(y), c, grid[..], x, y)
    {
      if cols == 0 || rows == 0 {
        text, plain := text + [c], plain && c != BACKSPACE;
        return;
      }
      assert cols <= grid.Length;
      if c == '\n' {
        InjectNewline();
      } else if c == BACKSPACE {
        InjectBackspace();
      } else if x + 1 < cols {
        InjectInside(c);
      } else if x < cols {
        InjectAtEdge(c);
      } else {
        InjectBehindRow(c);
      }
    }
  }
}
