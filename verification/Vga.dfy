/** The text screen of src/kernel/vga.h as a window on the last 25 rows of an unbounded terminal. */
module Vga {
  const WIDTH: nat := 80
  const HEIGHT: nat := 25

  type Cell = c: nat | c < 0x1_0000
  type Color = c: nat | c < 0x100
  type Row = r: seq<Cell> | |r| == 80 witness seq(80, _ => 0)
  type Char = c: int | -128 <= c < 128 // a signed char

  const NEWLINE: int := 10
  const RETURN: int := 13
  const TAB: int := 9
  const BACKSPACE: int := 8
  const SPACE: int := 32

  /** `vga_make_entry`; a negative character is sign-extended over the colour. */
  function MakeEntry(c: Char, color: Color): Cell {
    if c >= 0 then c + color * 0x100 else 0xFF00 + (c + 0x100)
  }

  function BlankRow(color: Color): (r: Row)
    ensures forall i | 0 <= i < WIDTH :: r[i] == MakeEntry(SPACE, color)
  {
    seq(80, _ => MakeEntry(SPACE, color))
  }

  // --------------------------------------------------------- the unbounded terminal

  /** Every row ever written, and a cursor in absolute rows. */
  datatype Terminal = Terminal(rows: seq<Row>, x: nat, y: nat)

  predicate TerminalOk(t: Terminal) {
    |t.rows| >= HEIGHT && t.x < WIDTH && Top(t) <= t.y < |t.rows|
  }

  /** The first visible row. */
  function Top(t: Terminal): int {
    |t.rows| - HEIGHT
  }

  function WriteAt(t: Terminal, x: nat, c: Char, color: Color): Terminal
    requires x < WIDTH && t.y < |t.rows|
  {
    t.(rows := t.rows[t.y := t.rows[t.y][x := MakeEntry(c, color)]])
  }

  /** What the character does to the line the cursor is in. */
  function Act(t: Terminal, c: Char, color: Color): Terminal
    requires TerminalOk(t)
  {
    if c == NEWLINE then t.(x := 0, y := t.y + 1)
    else if c == RETURN then t.(x := 0)
    else if c == TAB then t.(x := (t.x + 8) / 8 * 8)
    else if c == BACKSPACE then (if t.x > 0 then WriteAt(t, t.x - 1, SPACE, color).(x := t.x - 1) else t)
    else if c >= SPACE then WriteAt(t, t.x, c, color).(x := t.x + 1)
    else t
  }

  /** The cursor at the right margin moves to the next line. */
  function Wrap(t: Terminal): Terminal {
    if t.x >= WIDTH then t.(x := 0, y := t.y + 1) else t
  }

  /** A cursor below the last row adds a blank row; nothing above is ever lost. */
  function Extend(t: Terminal, color: Color): Terminal {
    if t.y >= |t.rows| then t.(rows := t.rows + [BlankRow(color)]) else t
  }

  /** One character. */
  function Put(t: Terminal, c: Char, color: Color): (r: Terminal)
    requires TerminalOk(t)
    ensures TerminalOk(r)
  {
    Extend(Wrap(Act(t, c, color)), color)
  }

  function PutAll(t: Terminal, s: seq<Char>, color: Color): (r: Terminal)
    requires TerminalOk(t)
    ensures TerminalOk(r)
    decreases |s|
  {
    if s == [] then t else PutAll(Put(t, s[0], color), s[1..], color)
  }

  /** A cleared screen: 25 black rows. */
  function Cleared(): (t: Terminal)
    ensures TerminalOk(t)
  {
    Terminal(seq(HEIGHT, _ => BlankRow(0)), 0, 0)
  }

  // ---------------------------------------------------------- what the terminal means

  /** Rows above the window are history: no character changes them, and rows are only added. */
  lemma HistoryIsStable(t: Terminal, c: Char, color: Color, i: nat)
    requires TerminalOk(t) && i < Top(t)
    ensures var n := Put(t, c, color); |t.rows| <= |n.rows| <= |t.rows| + 1 && i < Top(n) && n.rows[i] == t.rows[i]
  {
  }

  /** A cell in memory: the character in the low byte, the colour in the high byte. For a negative
      character the colour is lost. */
  lemma EntryBytes(c: Char, color: Color)
    ensures c >= 0 ==> MakeEntry(c, color) % 0x100 == c && MakeEntry(c, color) / 0x100 == color
    ensures c < 0 ==> MakeEntry(c, color) % 0x100 == c + 0x100 && MakeEntry(c, color) / 0x100 == 0xFF
  {
  }

  /** Every cell of a row added by scrolling is a space in the current colour. */
  predicate IsBlank(r: Row, color: Color) {
    forall i | 0 <= i < 80 :: r[i] % 0x100 == 0x20 && r[i] / 0x100 == color
  }

  /** n shows what t showed, with blank rows below it as far as the cursor needs them. */
  predicate SameCells(t: Terminal, n: Terminal, color: Color) {
    && |t.rows| <= |n.rows| && n.rows[..|t.rows|] == t.rows
    && |n.rows| == (if n.y < |t.rows| then |t.rows| else n.y + 1)
    && forall r | |t.rows| <= r < |n.rows| :: IsBlank(n.rows[r], color)
  }

  lemma AddedRowIsBlank(color: Color)
    ensures IsBlank(BlankRow(color), color)
  {
    EntryBytes(SPACE, color);
  }

  /** A cleared screen: 25 rows of black spaces, the cursor in the first cell. */
  lemma ClearedIsBlank()
    ensures var t := Cleared(); |t.rows| == 25 && t.x == 0 && t.y == 0 && forall r | 0 <= r < 25 :: IsBlank(t.rows[r], 0)
  {
    AddedRowIsBlank(0);
  }

  /** A newline goes to column 0 of the next row and keeps every cell. */
  lemma NewlineMoves(t: Terminal, color: Color)
    requires TerminalOk(t)
    ensures var n := Put(t, 10, color); n.x == 0 && n.y == t.y + 1 && SameCells(t, n, color)
  {
    AddedRowIsBlank(color);
  }

  /** A carriage return goes to column 0 of the same row and does nothing else. */
  lemma ReturnMoves(t: Terminal, color: Color)
    requires TerminalOk(t)
    ensures Put(t, 13, color) == t.(x := 0)
  {
  }

  /** A tab goes to the next multiple of 8, or from the last eight columns to the next row, and keeps
      every cell. */
  lemma TabMoves(t: Terminal, color: Color)
    requires TerminalOk(t)
    ensures var n := Put(t, 9, color);
            && SameCells(t, n, color)
            && (t.x < 72 ==> n.y == t.y && n.x % 8 == 0 && t.x < n.x <= t.x + 8)
            && (t.x >= 72 ==> n.x == 0 && n.y == t.y + 1)
  {
    AddedRowIsBlank(color);
  }

  /** Any other control character does nothing, nor does a backspace in column 0. */
  lemma ControlIsIgnored(t: Terminal, c: Char, color: Color)
    requires TerminalOk(t) && c < 32 && c != 10 && c != 13 && c != 9 && (c == 8 ==> t.x == 0)
    ensures Put(t, c, color) == t
  {
  }

  /** A backspace goes back one cell and leaves a space there, in the current colour. */
  lemma BackspaceMoves(t: Terminal, color: Color)
    requires TerminalOk(t) && t.x > 0
    ensures var n := Put(t, 8, color);
            && n.x == t.x - 1 && n.y == t.y && |n.rows| == |t.rows|
            && n.rows[t.y][t.x - 1] % 0x100 == 0x20 && n.rows[t.y][t.x - 1] / 0x100 == color
            && forall r: nat, col: nat | r < |t.rows| && col < 80 && (r, col) != (t.y, t.x - 1) :: n.rows[r][col] == t.rows[r][col]
  {
    EntryBytes(SPACE, color);
  }

  predicate Printable(s: seq<Char>) {
    forall i | 0 <= i < |s| :: s[i] >= SPACE
  }

  /** Where the k-th character printed from (x, y) goes. */
  function CellRow(t: Terminal, k: nat): nat { t.y + (t.x + k) / WIDTH }

  function CellColumn(t: Terminal, k: nat): nat { (t.x + k) % WIDTH }

  lemma PrintableMoves(t: Terminal, c: Char, color: Color)
    requires TerminalOk(t) && c >= SPACE
    ensures var n := Put(t, c, color);
            && n.y * WIDTH + n.x == t.y * WIDTH + t.x + 1
            && |n.rows| >= |t.rows|
            && n.rows[t.y][t.x] == MakeEntry(c, color)
            && forall r: nat, col: nat | r < |t.rows| && col < WIDTH && (r, col) != (t.y, t.x) :: n.rows[r][col] == t.rows[r][col]
  {
  }

  /** Plain text fills cells in reading order: the k-th character ends up k cells after the cursor,
      row by row, whatever scrolling happens on the way, and the cursor ends behind the text. */
  lemma {:induction false} PlainTextFills(t: Terminal, s: seq<Char>, color: Color, k: nat)
    requires TerminalOk(t) && Printable(s) && k < |s|
    ensures var n := PutAll(t, s, color);
            && CellRow(t, k) < |n.rows| && n.rows[CellRow(t, k)][CellColumn(t, k)] == MakeEntry(s[k], color)
            && n.y * WIDTH + n.x == t.y * WIDTH + t.x + |s|
    decreases |s|
  {
    hide Put, MakeEntry;
    var next := Put(t, s[0], color);
    PrintableMoves(t, s[0], color);
    assert s[1..] != [] ==> forall i | 0 <= i < |s[1..]| :: s[1..][i] == s[i + 1];
    if k == 0 {
      PlainTextSpares(next, s[1..], color, t.y, t.x);
    } else {
      PlainTextFills(next, s[1..], color, k - 1);
      SameCell(t, next, k);
    }
  }

  lemma SameCell(t: Terminal, n: Terminal, k: nat)
    requires k > 0 && t.x < WIDTH && n.x < WIDTH && n.y * WIDTH + n.x == t.y * WIDTH + t.x + 1
    ensures CellRow(n, k - 1) == CellRow(t, k) && CellColumn(n, k - 1) == CellColumn(t, k)
  {
  }

  /** Cells before the cursor keep their contents while plain text is printed. */
  lemma {:induction false} PlainTextSpares(t: Terminal, s: seq<Char>, color: Color, row: nat, col: nat)
    requires TerminalOk(t) && Printable(s) && row < |t.rows| && col < WIDTH
    requires row * WIDTH + col < t.y * WIDTH + t.x
    ensures var n := PutAll(t, s, color);
            row < |n.rows| && n.rows[row][col] == t.rows[row][col] && n.y * WIDTH + n.x == t.y * WIDTH + t.x + |s|
    decreases |s|
  {
    if s != [] {
      PrintableMoves(t, s[0], color);
      PlainTextSpares(Put(t, s[0], color), s[1..], color, row, col);
    }
  }

  /** A backspace right after a printable character that did not wrap restores the cursor and leaves a
      blank. */
  lemma BackspaceErases(t: Terminal, c: Char, color: Color)
    requires TerminalOk(t) && c >= SPACE && t.x + 1 < WIDTH
    ensures var n := Put(Put(t, c, color), BACKSPACE, color);
            n.x == t.x && n.y == t.y && n.rows == t.rows[t.y := t.rows[t.y][t.x := MakeEntry(SPACE, color)]]
  {
    var row := t.rows[t.y];
    assert row[t.x := MakeEntry(c, color)][t.x := MakeEntry(SPACE, color)] == row[t.x := MakeEntry(SPACE, color)];
    var n := Put(Put(t, c, color), BACKSPACE, color);
    assert n.rows == t.rows[t.y := row[t.x := MakeEntry(SPACE, color)]];
  }

  // ------------------------------------------------------------------ lines of text

  /** The lines with a newline between any two. */
  function Join(lines: seq<seq<Char>>): seq<Char>
    requires lines != []
  {
    if |lines| == 1 then lines[0] else lines[0] + [10] + Join(lines[1..])
  }

  /** Printable characters and newlines. */
  predicate IsText(s: seq<Char>) {
    forall i | 0 <= i < |s| :: s[i] >= SPACE || s[i] == 10
  }

  lemma {:induction false} PutAllConcat(t: Terminal, a: seq<Char>, b: seq<Char>, color: Color)
    requires TerminalOk(t)
    ensures PutAll(t, a + b, color) == PutAll(PutAll(t, a, color), b, color)
    decreases |a|
  {
    if a == [] {
      assert a + b == b;
    } else {
      assert (a + b)[0] == a[0] && (a + b)[1..] == a[1..] + b;
      PutAllConcat(Put(t, a[0], color), a[1..], b, color);
    }
  }

  /** Text never changes a cell before the cursor. */
  lemma {:induction false} TextSpares(t: Terminal, s: seq<Char>, color: Color, row: nat, col: nat)
    requires TerminalOk(t) && IsText(s) && row < |t.rows| && col < WIDTH
    requires row * WIDTH + col < t.y * WIDTH + t.x
    ensures var n := PutAll(t, s, color); row < |n.rows| && n.rows[row][col] == t.rows[row][col]
    decreases |s|
  {
    if s != [] {
      hide Put, MakeEntry;
      var next := Put(t, s[0], color);
      if s[0] == 10 {
        NewlineMoves(t, color);
        assert next.rows[row] == next.rows[..|t.rows|][row];
      } else {
        PrintableMoves(t, s[0], color);
      }
      TextSpares(next, s[1..], color, row, col);
    }
  }

  predicate ShortLines(t: Terminal, lines: seq<seq<Char>>) {
    && lines != [] && (forall i | 0 <= i < |lines| :: Printable(lines[i]) && |lines[i]| < WIDTH)
    && t.x + |lines[0]| < WIDTH
  }

  lemma {:induction false} JoinIsText(lines: seq<seq<Char>>)
    requires lines != [] && forall i | 0 <= i < |lines| :: Printable(lines[i])
    ensures IsText(Join(lines))
    decreases |lines|
  {
    if |lines| > 1 {
      JoinIsText(lines[1..]);
    }
  }

  /** One line that fits: its characters stand in the cells from the cursor on, and the cursor behind. */
  lemma LineStands(t: Terminal, s: seq<Char>, color: Color)
    requires TerminalOk(t) && Printable(s) && t.x + |s| < WIDTH
    ensures var n := PutAll(t, s, color);
            n.y == t.y && n.x == t.x + |s| && forall k: nat | k < |s| :: n.rows[t.y][t.x + k] == MakeEntry(s[k], color)
  {
    hide MakeEntry;
    var n := PutAll(t, s, color);
    if s != [] {
      PlainTextFills(t, s, color, 0);
    }
    assert n.y == t.y && n.x == t.x + |s|;
    forall k: nat | k < |s|
      ensures n.rows[t.y][t.x + k] == MakeEntry(s[k], color)
    {
      PlainTextFills(t, s, color, k);
    }
  }

  /** Text in lines shorter than the screen: line i stands in row t.y + i, the first from the cursor on,
      every other from column 0, whatever scrolls on the way, and the cursor ends behind the last. */
  lemma {:induction false} LinesStand(t: Terminal, lines: seq<seq<Char>>, color: Color, i: nat, k: nat)
    requires TerminalOk(t) && ShortLines(t, lines) && i < |lines| && k < |lines[i]|
    ensures var n := PutAll(t, Join(lines), color);
            var col := (if i == 0 then t.x else 0) + k;
            && t.y + i < |n.rows| && col < 80
            && n.rows[t.y + i][col] % 0x100 == lines[i][k] && n.rows[t.y + i][col] / 0x100 == color
            && n.y == t.y + |lines| - 1
    decreases |lines|
  {
    hide Put, MakeEntry;
    EntryBytes(lines[i][k], color);
    LineStands(t, lines[0], color);
    if |lines| > 1 {
      var a := PutAll(t, lines[0], color);
      var b := Put(a, 10, color);
      var rest := lines[1..];
      NewlineMoves(a, color);
      PutAllConcat(t, lines[0], [10] + Join(rest), color);
      assert lines[0] + [10] + Join(rest) == lines[0] + ([10] + Join(rest));
      assert ([10] + Join(rest))[1..] == Join(rest);
      assert PutAll(t, Join(lines), color) == PutAll(b, Join(rest), color);
      if i > 0 {
        LinesStand(b, rest, color, i - 1, k);
      } else {
        JoinIsText(rest);
        assert b.rows[t.y] == b.rows[..|a.rows|][t.y];
        TextSpares(b, Join(rest), color, t.y, t.x + k);
        LinesEnd(b, rest, color);
      }
    }
  }

  /** Where the cursor ends. */
  lemma {:induction false} LinesEnd(t: Terminal, lines: seq<seq<Char>>, color: Color)
    requires TerminalOk(t) && ShortLines(t, lines)
    ensures var n := PutAll(t, Join(lines), color);
            n.y == t.y + |lines| - 1 && n.x == (if |lines| == 1 then t.x else 0) + |lines[|lines| - 1]|
    decreases |lines|
  {
    hide Put, MakeEntry;
    LineStands(t, lines[0], color);
    if |lines| > 1 {
      var a := PutAll(t, lines[0], color);
      var rest := lines[1..];
      NewlineMoves(a, color);
      PutAllConcat(t, lines[0], [10] + Join(rest), color);
      assert lines[0] + [10] + Join(rest) == lines[0] + ([10] + Join(rest));
      assert ([10] + Join(rest))[1..] == Join(rest);
      LinesEnd(Put(a, 10, color), rest, color);
    }
  }

  // -------------------------------------------------------------------- the driver

  /** The frame buffer shows the last 25 rows, cell by cell. */
  predicate Shows(buffer: seq<Cell>, rows: seq<Row>)
    requires |rows| >= HEIGHT
  {
    |buffer| == WIDTH * HEIGHT && forall i | 0 <= i < WIDTH * HEIGHT :: buffer[i] == rows[|rows| - HEIGHT + i / WIDTH][i % WIDTH]
  }

  class Screen {
    const buffer: array<Cell>
    var cursorX: int
    var cursorY: int
    var color: Color
    ghost var terminal: Terminal

    ghost predicate Valid()
      reads this, buffer
    {
      && TerminalOk(terminal) && buffer.Length == WIDTH * HEIGHT
      && Shows(buffer[..], terminal.rows)
      && cursorX == terminal.x && cursorY == terminal.y - Top(terminal)
    }

    /** The screen after `vga_clear`, on a frame buffer with any contents. */
    constructor (buffer: array<Cell>)
      requires buffer.Length == WIDTH * HEIGHT
      modifies buffer
      ensures Valid() && this.buffer == buffer && terminal == Cleared() && color == 0x0F
    {
      this.buffer := buffer;
      color := 0x0F;
      cursorX := 0;
      cursorY := 0;
      terminal := Cleared();
      new;
      Clear();
    }

    /** `vga_clear` */
    method Clear()
      requires buffer.Length == WIDTH * HEIGHT
      modifies this`cursorX, this`cursorY, this`terminal, buffer
      ensures Valid() && terminal == Cleared()
    {
      var i := 0;
      while i < WIDTH * HEIGHT
        invariant 0 <= i <= WIDTH * HEIGHT
        invariant forall j | 0 <= j < i :: buffer[j] == MakeEntry(SPACE, 0)
      {
        buffer[i] := MakeEntry(SPACE, 0);
        i := i + 1;
      }
      cursorX := 0;
      cursorY := 0;
      terminal := Cleared();
    }

    /** `vga_scroll`: the cursor has moved below the last visible row. */
    method Scroll()
      requires buffer.Length == WIDTH * HEIGHT && |terminal.rows| >= HEIGHT && Shows(buffer[..], terminal.rows)
      modifies this`cursorY, this`terminal, buffer
      ensures terminal == old(terminal).(rows := old(terminal).rows + [BlankRow(color)])
      ensures Shows(buffer[..], terminal.rows) && cursorY == HEIGHT - 1
    {
      ghost var before := buffer[..];
      var i := 0;
      while i < (HEIGHT - 1) * WIDTH
        invariant 0 <= i <= (HEIGHT - 1) * WIDTH
        invariant forall j | 0 <= j < i :: buffer[j] == before[j + WIDTH]
        invariant forall j | i <= j < WIDTH * HEIGHT :: buffer[j] == before[j]
        modifies buffer
      {
        buffer[i] := buffer[i + WIDTH];
        i := i + 1;
      }
      var blank := MakeEntry(SPACE, color);
      while i < HEIGHT * WIDTH
        invariant (HEIGHT - 1) * WIDTH <= i <= HEIGHT * WIDTH
        invariant forall j | 0 <= j < (HEIGHT - 1) * WIDTH :: buffer[j] == before[j + WIDTH]
        invariant forall j | (HEIGHT - 1) * WIDTH <= j < i :: buffer[j] == blank
        modifies buffer
      {
        buffer[i] := blank;
        i := i + 1;
      }
      ghost var rows := terminal.rows;
      ScrolledShows(before, terminal, buffer[..], color);
      terminal := terminal.(rows := rows + [BlankRow(color)]);
      cursorY := HEIGHT - 1;
    }

    /** `vga_putchar_at` writes nothing outside the screen. */
    method PutCharAt(c: Char, x: int, y: int, color: Color)
      requires buffer.Length == WIDTH * HEIGHT
      modifies buffer
      ensures buffer[..] == if 0 <= x < WIDTH && 0 <= y < HEIGHT then old(buffer[..])[y * WIDTH + x := MakeEntry(c, color)]
                            else old(buffer[..])
    {
      if x >= 0 && x < WIDTH && y >= 0 && y < HEIGHT {
        buffer[y * WIDTH + x] := MakeEntry(c, color);
      }
    }

    /** Writes a character in the cursor's row. */
    method WriteCell(c: Char, x: nat)
      requires Valid() && x < WIDTH
      modifies this`terminal, buffer
      ensures Valid() && terminal == WriteAt(old(terminal), x, c, color)
    {
      hide Shows, MakeEntry;
      ghost var before := buffer[..];
      PutCharAt(c, x, cursorY, color);
      WrittenShows(before, terminal, x, c, color);
      terminal := WriteAt(terminal, x, c, color);
    }

    /** `vga_putchar`: the screen goes on showing the last 25 rows of the terminal. */
    method PutChar(c: Char)
      requires Valid()
      modifies this`cursorX, this`cursorY, this`terminal, buffer
      ensures Valid() && terminal == Put(old(terminal), c, color)
    {
      hide Shows, MakeEntry, BlankRow;
      if cursorY >= HEIGHT {
        assert false; // the scroll before writing is never needed: the cursor is always on the screen
      }
      if c == NEWLINE {
        cursorX := 0;
        cursorY := cursorY + 1;
        terminal := terminal.(x := 0, y := terminal.y + 1);
      } else if c == RETURN {
        cursorX := 0;
        terminal := terminal.(x := 0);
      } else if c == TAB {
        cursorX := (cursorX + 8) / 8 * 8;
        terminal := terminal.(x := (terminal.x + 8) / 8 * 8);
      } else if c == BACKSPACE {
        if cursorX > 0 {
          WriteCell(SPACE, cursorX - 1);
          cursorX := cursorX - 1;
          terminal := terminal.(x := terminal.x - 1);
        }
      } else if c >= SPACE {
        WriteCell(c, cursorX);
        cursorX := cursorX + 1;
        terminal := terminal.(x := terminal.x + 1);
      }
      assert terminal == Act(old(terminal), c, color);
      if cursorX >= WIDTH {
        cursorX := 0;
        cursorY := cursorY + 1;
        terminal := terminal.(x := 0, y := terminal.y + 1);
      }
      if cursorY >= HEIGHT {
        Scroll();
      }
    }

    /** `vga_print`, for the characters before the terminating zero. */
    method Print(s: seq<Char>)
      requires Valid()
      modifies this`cursorX, this`cursorY, this`terminal, buffer
      ensures Valid() && terminal == PutAll(old(terminal), s, color)
    {
      var i := 0;
      while i < |s|
        invariant 0 <= i <= |s| && Valid()
        invariant PutAll(terminal, s[i..], color) == PutAll(old(terminal), s, color)
      {
        assert s[i..][1..] == s[i + 1..];
        PutChar(s[i]);
        i := i + 1;
      }
    }
  }

  lemma ScrolledShows(before: seq<Cell>, t: Terminal, after: seq<Cell>, color: Color)
    requires |t.rows| >= HEIGHT && Shows(before, t.rows) && |after| == WIDTH * HEIGHT
    requires forall j | 0 <= j < (HEIGHT - 1) * WIDTH :: after[j] == before[j + WIDTH]
    requires forall j | (HEIGHT - 1) * WIDTH <= j < WIDTH * HEIGHT :: after[j] == MakeEntry(SPACE, color)
    ensures Shows(after, t.rows + [BlankRow(color)])
  {
    var n := t.(rows := t.rows + [BlankRow(color)]);
    forall i | 0 <= i < WIDTH * HEIGHT
      ensures after[i] == n.rows[Top(n) + i / WIDTH][i % WIDTH]
    {
      if i < (HEIGHT - 1) * WIDTH {
        assert (i + WIDTH) / WIDTH == i / WIDTH + 1 && (i + WIDTH) % WIDTH == i % WIDTH;
      }
    }
  }

  lemma WrittenShows(before: seq<Cell>, t: Terminal, x: nat, c: Char, color: Color)
    requires TerminalOk(t) && Shows(before, t.rows) && x < WIDTH
    ensures Shows(before[(t.y - Top(t)) * WIDTH + x := MakeEntry(c, color)], WriteAt(t, x, c, color).rows)
  {
    var y := t.y - Top(t);
    assert (y * WIDTH + x) / WIDTH == y && (y * WIDTH + x) % WIDTH == x;
    forall i | 0 <= i < WIDTH * HEIGHT && i / WIDTH == y && i % WIDTH == x
      ensures i == y * WIDTH + x
    {
    }
  }
}
