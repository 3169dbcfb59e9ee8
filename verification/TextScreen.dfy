/** The text-mode screen: an 80x25 buffer that scrolls, as a window on a terminal that does not. */
module TextScreen {
  import opened Words

  const WIDTH: nat := 80
  const HEIGHT: nat := 25

  const NEWLINE: U8 := 10
  const RETURN: U8 := 13
  const TAB: U8 := 9
  const BACKSPACE: U8 := 8
  const SPACE: U8 := 32
  const TILDE: U8 := 126

  /** A signed character widened to 16 bits. */
  function Widened(c: U8): nat { if c < 128 then c else 0xFF00 + c }

  /** `make_entry`: character in the low byte, color in the high byte. */
  function MakeEntry(c: U8, color: U8): nat { Or(Widened(c), color * 256) }

  /** The character can always be read back from the entry; the color can exactly for characters below
      128, or when the sign that overwrites it makes no difference. */
  lemma EntryBytes(c: U8, color: U8)
    ensures MakeEntry(c, color) % 256 == c
    ensures MakeEntry(c, color) / 256 == if c < 128 then color else 0xFF
    ensures MakeEntry(c, color) / 256 == color <==> c < 128 || color == 0xFF
  {
    if c < 128 { PlainEntry(c, color); } else { SignedEntry(c, color); }
  }

  lemma PlainEntry(c: U8, color: U8)
    ensures Or(c, color * 256) == color * 256 + c
  {
    assert Pow2(8) == 256 by { Pow2Values(); }
    OrSymmetric(c, color * 256);
    OrLow(color, 0, c, 8);
  }

  lemma SignedEntry(c: U8, color: U8)
    ensures Or(0xFF00 + c, color * 256) == 0xFF * 256 + c
  {
    assert Pow2(8) == 256 by { Pow2Values(); }
    OrSymmetric(0xFF00 + c, color * 256);
    ShiftedIs(color, 8);
    ShiftedIs(0xFF, 8);
    OrHigh(color, 0xFF, c, 8);
    OrOnes(color, 8);
  }

  predicate Printable(c: U8) { SPACE <= c <= TILDE }

  // ---- The unbounded terminal ----

  /** Every row ever reached, the cursor in absolute coordinates, and the current color. */
  datatype Terminal = Terminal(rows: seq<seq<nat>>, x: nat, y: nat, color: U8)

  function BlankRow(color: U8): (r: seq<nat>)
    ensures |r| == WIDTH
  {
    seq(WIDTH, _ => MakeEntry(SPACE, color))
  }

  ghost predicate Proper(t: Terminal) {
    && |t.rows| >= HEIGHT && (forall r :: 0 <= r < |t.rows| ==> |t.rows[r]| == WIDTH)
    && t.x < WIDTH && |t.rows| - HEIGHT <= t.y < |t.rows|
  }

  function Cleared(color: U8): Terminal {
    Terminal(seq(HEIGHT, _ => BlankRow(color)), 0, 0, color)
  }

  function SetCell(t: Terminal, x: nat, entry: nat): Terminal
    requires t.y < |t.rows| && x < |t.rows[t.y]|
  {
    var row: seq<nat> := t.rows[t.y];
    var row': seq<nat> := row[x := entry];
    t.(rows := t.rows[t.y := row'])
  }

  /** What a character does before wrapping: the cursor may be one column too far right or one
      row below the last. */
  function Typed(t: Terminal, c: U8): Terminal
    requires t.y < |t.rows| && t.x < |t.rows[t.y]|
  {
    if c == NEWLINE then t.(x := 0, y := t.y + 1)
    else if c == RETURN then t.(x := 0)
    else if c == TAB then t.(x := (t.x / 8 + 1) * 8)
    else if c == BACKSPACE then
      if t.x > 0 then SetCell(t, t.x - 1, MakeEntry(SPACE, t.color)).(x := t.x - 1) else t
    else if Printable(c) then SetCell(t, t.x, MakeEntry(c, t.color)).(x := t.x + 1)
    else t
  }

  function Wrapped(t: Terminal): Terminal {
    if t.x >= WIDTH then t.(x := 0, y := t.y + 1) else t
  }

  /** A row below the last one comes into being blank. */
  function Grown(t: Terminal): Terminal {
    if t.y >= |t.rows| then t.(rows := t.rows + [BlankRow(t.color)]) else t
  }

  function Put(t: Terminal, c: U8): Terminal
    requires t.y < |t.rows| && t.x < |t.rows[t.y]|
  {
    Grown(Wrapped(Typed(t, c)))
  }

  lemma PutProper(t: Terminal, c: U8)
    requires Proper(t)
    ensures Proper(Put(t, c))
  {
  }

  ghost function PutAll(t: Terminal, s: seq<U8>): (t': Terminal)
    requires Proper(t)
    ensures Proper(t')
    decreases |s|
  {
    if s == [] then t
    else
      PutProper(t, s[0]);
      PutAll(Put(t, s[0]), s[1..])
  }

  // ---- The driver ----

  class VgaText {
    const buffer: array<nat>
    var cursorX: nat
    var cursorY: nat
    var color: U8

    ghost predicate Valid()
      reads `cursorX, `cursorY
    {
      buffer.Length == 2000 && cursorX < WIDTH && cursorY < HEIGHT
    }

    constructor (color: U8)
      ensures Valid() && this.color == color && fresh(buffer)
    {
      buffer := new nat[2000](_ => 0);
      cursorX, cursorY, this.color := 0, 0, color;
    }

    ghost function Cell(r: int, c: int): nat
      requires buffer.Length == 2000 && 0 <= r < HEIGHT && 0 <= c < WIDTH
      reads buffer
    {
      buffer[r * 80 + c]
    }

    /** The buffer is the last 25 rows of a terminal. */
    ghost predicate Window(rows: seq<seq<nat>>)
      requires buffer.Length == 2000 && |rows| >= HEIGHT && forall r :: 0 <= r < |rows| ==> |rows[r]| == WIDTH
      reads buffer
    {
      forall r, c {:trigger Cell(r, c)} :: 0 <= r < HEIGHT && 0 <= c < WIDTH ==>
        Cell(r, c) == rows[|rows| - HEIGHT + r][c]
    }

    ghost predicate Shows(t: Terminal)
      reads this, buffer
    {
      && Valid() && Proper(t)
      && cursorX == t.x && cursorY == t.y - (|t.rows| - HEIGHT) && color == t.color
      && Window(t.rows)
    }

    /** `vga_text_clear`. */
    method Clear()
      requires Valid()
      modifies `cursorX, `cursorY, buffer
      ensures Shows(Cleared(color))
    {
      var blank := MakeEntry(SPACE, color);
      var y := 0;
      while y < HEIGHT
        invariant 0 <= y <= HEIGHT
        invariant forall k :: 0 <= k < y * 80 ==> buffer[k] == blank
      {
        var x := 0;
        while x < WIDTH
          invariant 0 <= x <= WIDTH
          invariant forall k :: 0 <= k < y * 80 + x ==> buffer[k] == blank
        {
          buffer[y * 80 + x] := blank;
          x := x + 1;
        }
        y := y + 1;
      }
      cursorX, cursorY := 0, 0;
    }

    /** `vga_text_scroll`: every row moves up by one, the bottom row is blank. */
    method Scroll()
      requires buffer.Length == 2000
      modifies buffer
      ensures forall k :: 0 <= k < 1920 ==> buffer[k] == old(buffer[k + 80])
      ensures forall k :: 1920 <= k < 2000 ==> buffer[k] == MakeEntry(SPACE, color)
    {
      var y := 0;
      while y < HEIGHT - 1
        invariant 0 <= y <= HEIGHT - 1
        invariant forall k :: 0 <= k < y * 80 ==> buffer[k] == old(buffer[k + 80])
        invariant forall k :: y * 80 <= k < 2000 ==> buffer[k] == old(buffer[k])
      {
        var x := 0;
        while x < WIDTH
          invariant 0 <= x <= WIDTH
          invariant forall k :: 0 <= k < y * 80 + x ==> buffer[k] == old(buffer[k + 80])
          invariant forall k :: y * 80 + x <= k < 2000 ==> buffer[k] == old(buffer[k])
        {
          var src := (y + 1) * 80 + x;
          var dst := y * 80 + x;
          buffer[dst] := buffer[src];
          x := x + 1;
        }
        y := y + 1;
      }
      var blank := MakeEntry(SPACE, color);
      var x := 0;
      while x < WIDTH
        invariant 0 <= x <= WIDTH
        invariant forall k :: 0 <= k < 1920 ==> buffer[k] == old(buffer[k + 80])
        invariant forall k :: 1920 <= k < 1920 + x ==> buffer[k] == blank
      {
        buffer[(HEIGHT - 1) * 80 + x] := blank;
        x := x + 1;
      }
    }

    /** `vga_text_putchar_at`: out of bounds is ignored. */
    method PutcharAt(c: U8, x: nat, y: nat)
      requires buffer.Length == 2000
      modifies buffer
      ensures forall k :: 0 <= k < 2000 ==>
        buffer[k] == if x < WIDTH && y < HEIGHT && k == y * 80 + x then MakeEntry(c, color) else old(buffer[k])
    {
      if x >= WIDTH || y >= HEIGHT {
        return;
      }
      buffer[y * 80 + x] := MakeEntry(c, color);
    }

    /** As `Shows`, but the cursor may have left the screen to the right or below. */
    ghost predicate Follows(t: Terminal)
      reads this, buffer
    {
      && buffer.Length == 2000
      && |t.rows| >= HEIGHT && (forall r :: 0 <= r < |t.rows| ==> |t.rows[r]| == WIDTH)
      && |t.rows| - HEIGHT <= t.y <= |t.rows|
      && cursorX == t.x && cursorY == t.y - (|t.rows| - HEIGHT) && color == t.color
      && Window(t.rows)
    }

    /** Writing a cell of the cursor's row is the same on screen and terminal. */
    method TypeAt(c: U8, x: nat, ghost t: Terminal)
      requires Shows(t) && x < WIDTH
      modifies buffer
      ensures Shows(SetCell(t, x, MakeEntry(c, t.color)))
    {
      PutcharAt(c, x, cursorY);
      ghost var t' := SetCell(t, x, MakeEntry(c, t.color));
      forall r, k | 0 <= r < HEIGHT && 0 <= k < WIDTH ensures Cell(r, k) == t'.rows[|t'.rows| - HEIGHT + r][k] {
        assert old(Cell(r, k)) == t.rows[|t.rows| - HEIGHT + r][k];
      }
    }

    method Type(c: U8, ghost t: Terminal)
      requires Shows(t)
      modifies `cursorX, `cursorY, buffer
      ensures Follows(Typed(t, c))
    {
      if c == NEWLINE {
        cursorX := 0;
        cursorY := cursorY + 1;
      } else if c == RETURN {
        cursorX := 0;
      } else if c == TAB {
        TabStop(cursorX);
        cursorX := And(cursorX + 8, 0xFFF8);
      } else if c == BACKSPACE {
        if cursorX > 0 {
          TypeAt(SPACE, cursorX - 1, t);
          cursorX := cursorX - 1;
        }
      } else if SPACE <= c <= TILDE {
        TypeAt(c, cursorX, t);
        cursorX := cursorX + 1;
      }
    }

    /** Scrolling when the cursor is below the screen is growing the terminal by a row. */
    method ScrollIfNeeded(ghost t: Terminal)
      requires Follows(t) && t.x < WIDTH
      modifies `cursorY, buffer
      ensures Shows(Grown(t))
    {
      if cursorY >= HEIGHT {
        Scroll();
        cursorY := HEIGHT - 1;
        ghost var rows := Grown(t).rows;
        forall r, k | 0 <= r < HEIGHT && 0 <= k < WIDTH ensures Cell(r, k) == rows[|rows| - HEIGHT + r][k] {
          if r < HEIGHT - 1 { assert old(Cell(r + 1, k)) == t.rows[|t.rows| - HEIGHT + (r + 1)][k]; }
        }
      }
    }

    /** `vga_text_putchar`: the screen shows what the terminal shows. */
    method Putchar(c: U8, ghost t: Terminal)
      requires Shows(t)
      modifies `cursorX, `cursorY, buffer
      ensures Shows(Put(t, c))
    {
      Type(c, t);
      if cursorX >= WIDTH {
        cursorX := 0;
        cursorY := cursorY + 1;
      }
      ScrollIfNeeded(Wrapped(Typed(t, c)));
    }

    /** `vga_text_write`. */
    method Write(s: seq<U8>, ghost t: Terminal)
      requires Shows(t)
      modifies `cursorX, `cursorY, buffer
      ensures Shows(PutAll(t, s))
    {
      var i := 0;
      ghost var now := t;
      while i < |s|
        invariant 0 <= i <= |s| && Shows(now) && PutAll(now, s[i..]) == PutAll(t, s)
      {
        PutProper(now, s[i]);
        Putchar(s[i], now);
        now := Put(now, s[i]);
        assert s[i..][1..] == s[i + 1..];
        i := i + 1;
      }
    }

    /** `vga_text_set_color`: only later characters and rows are affected. */
    method SetColor(fg: U8, bg: U8, ghost t: Terminal)
      requires fg < 16 && bg < 16 && Shows(t)
      modifies `color
      ensures Shows(t.(color := color)) && color == fg + 16 * bg
    {
      ColorValue(fg, bg);
      color := Or(fg, bg * 16);
    }
  }

  /** `(x + 8) & ~7` is the next multiple of eight. */
  lemma TabStop(x: nat)
    requires x < WIDTH
    ensures And(x + 8, 0xFFF8) == (x / 8 + 1) * 8
  {
    assert Pow2(3) == 8;
    assert Pow2(16) == 0x1_0000 by { assert Pow2(8) == 256; assert Pow2(12) == 4096; }
    AndHighMask((x + 8) / 8, (x + 8) % 8, 3, 16);
  }

  lemma ColorValue(fg: U8, bg: U8)
    requires fg < 16 && bg < 16
    ensures Or(fg, bg * 16) == fg + 16 * bg
  {
    assert Pow2(4) == 16;
    OrLow(bg, 0, fg, 4);
    OrSymmetric(fg, bg * 16);
  }

  // ---- What the terminal means for plain text ----

  /** After a clear, printable character number `k` is at row `k / 80`, column `k % 80`, in the
      row's color, and the cursor is where the next one goes. */
  ghost predicate LaidOut(t: Terminal, s: seq<U8>, color: U8) {
    && Proper(t) && t.color == color && t.x == |s| % 80 && t.y == |s| / 80
    && forall k :: 0 <= k < |s| ==> k / 80 < |t.rows| && t.rows[k / 80][k % 80] == MakeEntry(s[k], color)
  }

  lemma LaidOutStep(t: Terminal, s: seq<U8>, c: U8, color: U8)
    requires LaidOut(t, s, color) && Printable(c)
    ensures LaidOut(Put(t, c), s + [c], color)
  {
    PutProper(t, c);
    var t' := Put(t, c);
    forall k | 0 <= k < |s| + 1
      ensures k / 80 < |t'.rows| && t'.rows[k / 80][k % 80] == MakeEntry((s + [c])[k], color)
    {
      if k < |s| { assert k / 80 < |t.rows| && t.rows[k / 80][k % 80] == MakeEntry(s[k], color); }
    }
  }

  lemma {:induction false} PlainText(t: Terminal, done: seq<U8>, s: seq<U8>, color: U8)
    requires LaidOut(t, done, color) && forall c :: c in s ==> Printable(c)
    ensures LaidOut(PutAll(t, s), done + s, color)
    decreases |s|
  {
    if s == [] {
      assert done + s == done;
    } else {
      LaidOutStep(t, done, s[0], color);
      PlainText(Put(t, s[0]), done + [s[0]], s[1..], color);
      assert done + [s[0]] + s[1..] == done + s;
    }
  }

  /** Printable text written after a clear reads row by row from the top left corner. */
  lemma PlainTextAfterClear(s: seq<U8>, color: U8)
    requires forall c :: c in s ==> Printable(c)
    ensures Proper(Cleared(color)) && LaidOut(PutAll(Cleared(color), s), s, color)
  {
    PlainText(Cleared(color), [], s, color);
    assert [] + s == s;
  }

  // ---- The control characters ----

  /** A blank cell: a space in the low byte, the color in the high byte. */
  lemma BlankIs(color: U8)
    ensures BlankRow(color) == seq(80, _ => 32 + 256 * color)
    ensures Cleared(color).x == 0 && Cleared(color).y == 0 && |Cleared(color).rows| == 25
    ensures forall r :: 0 <= r < 25 ==> Cleared(color).rows[r] == seq(80, _ => 32 + 256 * color)
  {
    PlainEntry(32, color);
  }

  /** The row below, in column 0; rows there are stay as they are, and a new last row is blank. */
  ghost predicate NextRow(t: Terminal, t': Terminal) {
    && t'.x == 0 && t'.y == t.y + 1 && t'.color == t.color
    && t'.rows == if t.y + 1 < |t.rows| then t.rows else t.rows + [BlankRow(t.color)]
  }

  /** What each of the 256 characters does. Newline (10) goes to the start of the next row, carriage
      return (13) to the start of this one, tab (9) to the next multiple of 8 or, past column 72, like
      a newline, backspace (8) blanks the cell before the cursor and goes there, or does nothing at the
      start of a row; the characters from 32 to 126 are written and the cursor goes on, at the end of
      a row like a newline; all others do nothing. */
  lemma CharacterEffects(t: Terminal, c: U8)
    requires Proper(t)
    ensures c == 10 ==> NextRow(t, Put(t, c))
    ensures c == 13 ==> Put(t, c) == t.(x := 0)
    ensures c == 9 ==> if t.x < 72 then Put(t, c) == t.(x := t.x - t.x % 8 + 8) else NextRow(t, Put(t, c))
    ensures c == 8 && t.x == 0 ==> Put(t, c) == t
    ensures c == 8 && t.x > 0 ==>
      Put(t, c) == t.(x := t.x - 1, rows := WithCell(t.rows, t.y, t.x - 1, 32 + 256 * t.color))
    ensures 32 <= c <= 126 ==>
      var written := t.(rows := WithCell(t.rows, t.y, t.x, c + 256 * t.color));
      if t.x < 79 then Put(t, c) == written.(x := t.x + 1) else NextRow(written, Put(t, c))
    ensures c != 8 && c != 9 && c != 10 && c != 13 && !(32 <= c <= 126) ==> Put(t, c) == t
  {
    PlainEntry(32, t.color);
    if c < 128 { PlainEntry(c, t.color); }
  }

  /** One cell of one row replaced. */
  function WithCell(rows: seq<seq<nat>>, y: nat, x: nat, cell: nat): seq<seq<nat>>
    requires y < |rows| && x < |rows[y]|
  {
    var row: seq<nat> := rows[y];
    var row': seq<nat> := row[x := cell];
    rows[y := row']
  }

  // ---- Lines ----

  lemma {:induction false} PutAllSplit(t: Terminal, a: seq<U8>, b: seq<U8>)
    requires Proper(t)
    ensures PutAll(t, a + b) == PutAll(PutAll(t, a), b)
    decreases |a|
  {
    if a == [] {
      assert a + b == b;
    } else {
      PutProper(t, a[0]);
      PutAllSplit(Put(t, a[0]), a[1..], b);
      assert (a + b)[0] == a[0] && (a + b)[1..] == a[1..] + b;
    }
  }

  ghost predicate Plain(s: seq<U8>) { forall i :: 0 <= i < |s| ==> 32 <= s[i] <= 126 }

  /** Cell number `k` from the start of row `y` on, 80 to a row, holds `v`. */
  ghost predicate Holds(t: Terminal, y: nat, k: nat, v: nat)
    requires Proper(t)
  {
    y + k / 80 < |t.rows| && t.rows[y + k / 80][k % 80] == v
  }

  /** The characters `s` stand from the start of row `y` on. */
  ghost predicate Stands(t: Terminal, y: nat, s: seq<U8>, color: U8)
    requires Proper(t)
  {
    forall k {:trigger s[k]} :: 0 <= k < |s| ==> Holds(t, y, k, s[k] + 256 * color)
  }

  /** ... and the cursor is where the next one goes. */
  ghost predicate Typing(t: Terminal, y: nat, s: seq<U8>, color: U8) {
    Proper(t) && t.color == color && t.x == |s| % 80 && t.y == y + |s| / 80 && Stands(t, y, s, color)
  }

  /** Rows above `y` are the same. */
  ghost predicate Above(t: Terminal, t': Terminal, y: nat) {
    |t.rows| <= |t'.rows| && forall r :: 0 <= r < y && r < |t.rows| ==> t'.rows[r] == t.rows[r]
  }

  lemma TypeOne(t: Terminal, y: nat, s: seq<U8>, c: U8, color: U8)
    requires Typing(t, y, s, color) && 32 <= c <= 126
    ensures Typing(Put(t, c), y, s + [c], color) && Above(t, Put(t, c), y)
  {
    PutProper(t, c);
    PlainEntry(c, color);
    var t' := Put(t, c);
    forall k | 0 <= k < |s| + 1 ensures Holds(t', y, k, (s + [c])[k] + 256 * color) {
      if k < |s| { assert Holds(t, y, k, s[k] + 256 * color); }
    }
  }

  lemma {:induction false} TypeLine(t: Terminal, y: nat, done: seq<U8>, s: seq<U8>, color: U8)
    requires Typing(t, y, done, color) && Plain(s)
    ensures Typing(PutAll(t, s), y, done + s, color) && Above(t, PutAll(t, s), y)
    decreases |s|
  {
    if s == [] {
      assert done + s == done;
    } else {
      TypeOne(t, y, done, s[0], color);
      TypeLine(Put(t, s[0]), y, done + [s[0]], s[1..], color);
      assert done + [s[0]] + s[1..] == done + s;
    }
  }

  /** The lines, each followed by a newline. */
  function Text(lines: seq<seq<U8>>): seq<U8> {
    if lines == [] then [] else Text(lines[..|lines| - 1]) + lines[|lines| - 1] + [10]
  }

  /** The row line number `n` starts in: each line before takes a row for every 80 characters and one
      for the rest. */
  function RowOf(lines: seq<seq<U8>>, n: nat): nat
    requires n <= |lines|
  {
    if n == 0 then 0 else RowOf(lines, n - 1) + |lines[n - 1]| / 80 + 1
  }

  lemma {:induction false} RowOfPrefix(lines: seq<seq<U8>>, m: nat, n: nat)
    requires n <= m <= |lines|
    ensures RowOf(lines[..m], n) == RowOf(lines, n)
    decreases n
  {
    if n > 0 { RowOfPrefix(lines, m, n - 1); }
  }

  lemma {:induction false} RowOfGrows(lines: seq<seq<U8>>, m: nat, n: nat)
    requires m < n <= |lines|
    ensures RowOf(lines, m) + |lines[m]| / 80 < RowOf(lines, n)
    decreases n
  {
    if m + 1 < n { RowOfGrows(lines, m, n - 1); }
  }

  /** Every line stands in its rows, and the cursor is at the start of the row after the last. */
  ghost predicate LinesStand(t: Terminal, lines: seq<seq<U8>>, color: U8) {
    && Proper(t) && t.color == color && t.x == 0 && t.y == RowOf(lines, |lines|)
    && forall n :: 0 <= n < |lines| ==> Stands(t, RowOf(lines, n), lines[n], color)
  }

  /** A line typed from the start of row `y`, and a newline. */
  lemma LineAndBreak(t: Terminal, y: nat, line: seq<U8>, color: U8) returns (t1: Terminal, t2: Terminal)
    requires Typing(t, y, [], color) && Plain(line)
    ensures Proper(t1) && Stands(t1, y, line, color) && Above(t, t1, y) && Above(t1, t2, |t1.rows|)
    ensures t2 == PutAll(t, line + [10])
    ensures Proper(t2) && t2.color == color && t2.x == 0 && t2.y == y + |line| / 80 + 1
  {
    TypeLine(t, y, [], line, color);
    assert [] + line == line;
    t1 := PutAll(t, line);
    PutProper(t1, 10);
    t2 := Put(t1, 10);
    CharacterEffects(t1, 10);
    PutAllSplit(t, line, [10]);
    PutOne(t1, 10);
  }

  lemma PutOne(t: Terminal, c: U8)
    requires Proper(t)
    ensures PutAll(t, [c]) == Put(t, c)
  {
    PutProper(t, c);
    assert [c][1..] == [];
  }

  /** One more line leaves those above it alone. */
  lemma OneMoreLine(t: Terminal, lines: seq<seq<U8>>, line: seq<U8>, color: U8)
    requires LinesStand(t, lines, color) && Plain(line)
    ensures LinesStand(PutAll(t, line + [10]), lines + [line], color)
  {
    var all := lines + [line];
    var t1, t2 := LineAndBreak(t, RowOf(lines, |lines|), line, color);
    assert all[..|lines|] == lines;
    RowOfPrefix(all, |lines|, |lines|);
    forall n | 0 <= n < |all| ensures Stands(t2, RowOf(all, n), all[n], color) {
      RowOfPrefix(all, |lines|, n);
      LineKept(t, t1, t2, lines, line, n, color);
    }
  }

  lemma LineKept(t: Terminal, t1: Terminal, t2: Terminal, lines: seq<seq<U8>>, line: seq<U8>, n: nat, color: U8)
    requires LinesStand(t, lines, color) && n <= |lines| && Proper(t1) && Proper(t2)
    requires Stands(t1, RowOf(lines, |lines|), line, color) && Above(t, t1, RowOf(lines, |lines|))
    requires Above(t1, t2, |t1.rows|)
    ensures Stands(t2, RowOf(lines, n), (lines + [line])[n], color)
  {
    if n < |lines| {
      RowOfGrows(lines, n, |lines|);
      assert Stands(t, RowOf(lines, n), lines[n], color);
      AboveStands(t, t1, RowOf(lines, n), lines[n], RowOf(lines, |lines|), color);
      AboveStands(t1, t2, RowOf(lines, n), lines[n], |t1.rows|, color);
    } else {
      AboveStands(t1, t2, RowOf(lines, n), line, |t1.rows|, color);
    }
  }

  lemma AboveStands(t: Terminal, t': Terminal, y: nat, s: seq<U8>, top: nat, color: U8)
    requires Proper(t) && Proper(t') && Stands(t, y, s, color) && Above(t, t', top)
    requires y + |s| / 80 < top || top == |t.rows|
    ensures Stands(t', y, s, color)
  {
    forall k | 0 <= k < |s| ensures Holds(t', y, k, s[k] + 256 * color) {
      assert Holds(t, y, k, s[k] + 256 * color);
      DivMono(k, |s|);
    }
  }

  lemma DivMono(k: nat, n: nat)
    requires k <= n
    ensures k / 80 <= n / 80
  {
  }

  /** Text with line breaks after a clear: character `k` of line `n` stands `k / 80` rows below the row
      the line starts in, in column `k % 80`; for lines shorter than 80 characters that is row `n`,
      column `k`. */
  lemma {:induction false} LinesAfterClear(lines: seq<seq<U8>>, color: U8)
    requires forall n :: 0 <= n < |lines| ==> Plain(lines[n])
    ensures Proper(Cleared(color)) && LinesStand(PutAll(Cleared(color), Text(lines)), lines, color)
    decreases |lines|
  {
    if lines != [] {
      var n := |lines| - 1;
      var before := lines[..n];
      LinesAfterClear(before, color);
      OneMoreLine(PutAll(Cleared(color), Text(before)), before, lines[n], color);
      assert before + [lines[n]] == lines;
      PutAllSplit(Cleared(color), Text(before), lines[n] + [10]);
      assert Text(before) + (lines[n] + [10]) == Text(lines);
    }
  }

  lemma {:induction false} ShortLines(lines: seq<seq<U8>>, n: nat)
    requires n <= |lines| && forall i :: 0 <= i < n ==> |lines[i]| < 80
    ensures RowOf(lines, n) == n
  {
    if n > 0 { ShortLines(lines, n - 1); }
  }
}
