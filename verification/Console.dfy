/** The 80 by 25 text screen as a window onto an unbounded log. */
module Console {
  import opened CStrings

  const COLUMNS := 80
  const SCREEN := 2000

  type Color = c: nat | c < 256

  /** A 16-bit screen cell: character in the low byte, attribute in the high byte. */
  datatype Cell = Cell(ch: char, attr: Color)

  /** `(unsigned short)c | (color << 8)`: a character with its high bit set is negative and fills the attribute. */
  function CellOf(c: char, color: Color): Cell
  {
    Cell(c, if c as int >= 128 then 255 else color)
  }

  function Blank(color: Color): Cell
  {
    Cell(' ', color)
  }

  function Blanks(n: nat, color: Color): (s: seq<Cell>)
    ensures |s| == n && forall i | 0 <= i < n :: s[i] == Blank(color)
  {
    seq(n, _ => Blank(color))
  }

  // ---------- the log ----------

  /** Every cell ever printed, the position of the next one, and where the window begins. */
  datatype Log = Log(cells: seq<Cell>, pos: nat, base: nat)
  {
    /** The window is the last 25 rows, and the position lies in it or just behind it. */
    ghost predicate Window()
    {
      && base % COLUMNS == 0
      && |cells| == base + SCREEN
      && base <= pos <= base + SCREEN
    }

    /** Moreover, from the position on there are only spaces. */
    ghost predicate Valid()
    {
      Window() && forall i | pos <= i < |cells| :: cells[i].ch == ' '
    }

    /** Only a character that finds the window full moves it on, by one row. */
    function Room(color: Color): Log
    {
      if pos >= base + SCREEN then Log(cells + Blanks(COLUMNS, color), pos, base + COLUMNS) else this
    }

    function Put(c: char, color: Color): Log
    {
      var l := Room(color);
      if c == '\n' then l.(pos := (l.pos / COLUMNS + 1) * COLUMNS)
      else if c == BACKSPACE then
        if l.base < l.pos <= |l.cells| then l.(cells := l.cells[l.pos - 1 := Blank(color)], pos := l.pos - 1) else l
      else if l.pos < |l.cells| then l.(cells := l.cells[l.pos := CellOf(c, color)], pos := l.pos + 1)
      else l
    }

    function Print(s: string, color: Color): Log
      decreases |s|
    {
      if s == [] then this else Put(s[0], color).Print(s[1..], color)
    }
  }

  function Cleared(color: Color): Log
  {
    Log(Blanks(SCREEN, color), 0, 0)
  }

  lemma PutKeepsWindow(l: Log, c: char, color: Color)
    requires l.Window()
    ensures l.Put(c, color).Window()
  {}

  lemma PutKeepsValid(l: Log, c: char, color: Color)
    requires l.Valid()
    ensures l.Put(c, color).Valid()
  {}

  /** From a cleared screen on, whatever is printed. */
  lemma {:induction false} PrintKeepsValid(l: Log, s: string, color: Color)
    requires l.Valid()
    ensures l.Print(s, color).Valid()
    decreases |s|
  {
    if s != [] {
      PutKeepsValid(l, s[0], color);
      PrintKeepsValid(l.Put(s[0], color), s[1..], color);
    }
  }

  /** The window only moves on, and rows that have left it never change again. */
  lemma {:induction false} ScrolledRowsAreFrozen(l: Log, s: string, color: Color)
    requires l.Window()
    ensures l.Print(s, color).Window()
    ensures l.Print(s, color).base >= l.base && |l.Print(s, color).cells| >= |l.cells|
    ensures l.Print(s, color).cells[..l.base] == l.cells[..l.base]
    decreases |s|
  {
    if s != [] {
      var m := l.Put(s[0], color);
      PutKeepsWindow(l, s[0], color);
      ScrolledRowsAreFrozen(m, s[1..], color);
      assert m.cells[..l.base] == l.cells[..l.base];
      assert m.Print(s[1..], color).cells[..l.base] == m.cells[..m.base][..l.base];
    }
  }

  lemma {:induction false} PrintConcat(l: Log, s: string, t: string, color: Color)
    ensures l.Print(s + t, color) == l.Print(s, color).Print(t, color)
    decreases |s|
  {
    if s == [] {
      assert s + t == t;
    } else {
      assert (s + t)[1..] == s[1..] + t;
      PrintConcat(l.Put(s[0], color), s[1..], t, color);
    }
  }

  /** The cells from the position on are blank in this colour. */
  ghost predicate BlankAhead(l: Log, color: Color)
  {
    forall i | l.pos <= i < |l.cells| :: l.cells[i] == Cell(' ', color)
  }

  lemma PutKeepsBlankAhead(l: Log, c: char, color: Color)
    requires l.Valid() && BlankAhead(l, color)
    ensures BlankAhead(l.Put(c, color), color)
  {}

  /** "\b \b" does exactly what "\b" does, at the window's first cell too, while the colour stays the same. */
  lemma RubOutIsBackspace(l: Log, color: Color)
    requires l.Valid() && BlankAhead(l, color)
    ensures l.Print([BACKSPACE, ' ', BACKSPACE], color) == l.Print([BACKSPACE], color)
  {
    var l1 := l.Put(BACKSPACE, color);
    PutKeepsValid(l, BACKSPACE, color);
    PutKeepsBlankAhead(l, BACKSPACE, color);
    var l2 := l1.Put(' ', color);
    assert l1.pos < l1.base + SCREEN;
    assert l2.cells == l1.cells && l2.pos == l1.pos + 1;
    assert l2.Put(BACKSPACE, color) == l1;
    assert [BACKSPACE, ' ', BACKSPACE][1..] == [' ', BACKSPACE] && [' ', BACKSPACE][1..] == [BACKSPACE];
    assert l2.Print([BACKSPACE], color) == l2.Put(BACKSPACE, color);
    assert l1.Print([' ', BACKSPACE], color) == l2.Print([BACKSPACE], color);
  }

  predicate Plain(c: char)
  {
    c != '\n' && c != BACKSPACE && c != NUL
  }

  /**
   * The cells show the text: its characters one by one, in the colour; the attribute of a character above
   * 127 is all ones.
   */
  ghost predicate Shows(cells: seq<Cell>, text: string, color: Color)
  {
    && |cells| == |text|
    && forall i | 0 <= i < |text| :: && cells[i].ch == text[i]
                                     && cells[i].attr == if text[i] as int < 128 then color else 0xFF
  }

  lemma ShowsConcat(a: seq<Cell>, b: seq<Cell>, s: string, t: string, color: Color)
    requires Shows(a, s, color) && Shows(b, t, color)
    ensures Shows(a + b, s + t, color)
  {}

  lemma HeadShows(cells: seq<Cell>, text: string, n: nat, color: Color)
    requires Shows(cells, text, color) && n <= |text|
    ensures Shows(cells[..n], text[..n], color)
  {}

  /** The last cells before the cursor show the end of the text, as far as it is still on the screen. */
  ghost predicate EndsWith(cells: seq<Cell>, text: string, color: Color)
  {
    var n := if |text| < |cells| then |text| else |cells|;
    Shows(cells[|cells| - n..], text[|text| - n..], color)
  }

  /** A plain character lands at the position, wherever the window is. */
  lemma PutPlain(l: Log, c: char, color: Color)
    requires l.Window() && Plain(c)
    ensures var m := l.Put(c, color);
            && m.Window() && (l.Valid() ==> m.Valid())
            && m.pos == l.pos + 1 <= |m.cells|
            && Shows([m.cells[l.pos]], [c], color)
            && m.cells[..l.pos] == l.cells[..l.pos]
  {}

  /** A newline goes to the start of the next row and prints nothing. */
  lemma PutNewline(l: Log, color: Color)
    requires l.Window()
    ensures var m := l.Put('\n', color);
            && m.pos % COLUMNS == 0 && l.pos < m.pos <= l.pos + COLUMNS
            && m.cells[..|l.cells|] == l.cells
  {}

  /** A backspace takes back the last position of the window, if it has one, and blanks its cell. */
  lemma PutBackspace(l: Log, color: Color)
    requires l.Window()
    ensures var m := l.Put(BACKSPACE, color);
            if l.pos == l.base then m == l
            else && m.pos == l.pos - 1 && m.cells[m.pos] == Cell(' ', color)
                 && m.cells[..m.pos] == l.cells[..m.pos]
  {}

  /** Plain text of any length lands in the log as it is, however often the screen scrolls meanwhile. */
  lemma {:induction false} PrintPlainText(l: Log, s: string, color: Color)
    requires l.Window() && forall c | c in s :: Plain(c)
    ensures var m := l.Print(s, color);
            && m.Window() && (l.Valid() ==> m.Valid())
            && m.pos == l.pos + |s| <= |m.cells|
            && l.pos <= |l.cells|
            && m.cells[..l.pos] == l.cells[..l.pos]
            && Shows(m.cells[l.pos..m.pos], s, color)
    decreases |s|
  {
    if s != [] {
      var k := l.Put(s[0], color);
      PutPlain(l, s[0], color);
      PrintPlainText(k, s[1..], color);
      var m := k.Print(s[1..], color);
      assert m.cells[..l.pos] == m.cells[..k.pos][..l.pos];
      assert m.cells[l.pos] == m.cells[..k.pos][l.pos] == k.cells[l.pos];
      assert m.cells[l.pos..m.pos] == [m.cells[l.pos]] + m.cells[k.pos..m.pos];
      ShowsConcat([m.cells[l.pos]], m.cells[k.pos..m.pos], [s[0]], s[1..], color);
      assert s == [s[0]] + s[1..];
    }
  }

  /** Writing a cell of the window writes that cell of the log. */
  lemma WindowUpdate(l: Log, i: nat, cell: Cell)
    requires |l.cells| == l.base + SCREEN && i < SCREEN
    ensures l.cells[l.base + i := cell][l.base..] == l.cells[l.base..][i := cell]
  {}

  lemma NextRow(base: nat, cursor: nat)
    requires base % COLUMNS == 0
    ensures ((base + cursor) / COLUMNS + 1) * COLUMNS == base + (cursor / COLUMNS + 1) * COLUMNS
  {}

  lemma PrintStep(l: Log, text: string, i: nat, color: Color)
    requires i <= |text|
    ensures l.Print(text[i..], color) ==
            if i == |text| then l else l.Put(text[i], color).Print(text[i + 1..], color)
    ensures text[0..] == text
  {
    if i < |text| {
      assert text[i..][1..] == text[i + 1..];
    }
  }

  /** Text in front of the log's position is in front of the cursor of its window. */
  lemma WindowEndsWith(before: Log, l: Log, text: string, color: Color)
    requires l.Window() && before.pos + |text| == l.pos && Shows(l.cells[before.pos..l.pos], text, color)
    ensures EndsWith(l.cells[l.base..][..l.pos - l.base], text, color)
  {
    hide Shows;
    var window, shown := l.cells[l.base..][..l.pos - l.base], l.cells[before.pos..l.pos];
    var n := if |text| < |window| then |text| else |window|;
    assert window == l.cells[l.base..l.pos];
    TailOfSlice(l.cells, l.base, l.pos, n);
    TailOfSlice(l.cells, before.pos, l.pos, n);
    TailShows(shown, text, |text| - n, color);
  }

  lemma TailOfSlice(s: seq<Cell>, a: nat, b: nat, n: nat)
    requires a <= b <= |s| && n <= b - a
    ensures s[a..b][b - a - n..] == s[b - n..b]
  {}

  lemma TailShows(cells: seq<Cell>, text: string, i: nat, color: Color)
    requires Shows(cells, text, color) && i <= |text|
    ensures Shows(cells[i..], text[i..], color)
  {}

  // ---------- video.c ----------

  class Screen {
    const vgaBuffer: array<Cell>
    var vgaCursor: nat
    var charColor: Color
    ghost var log: Log

    /** The screen is the window of the log, and the cursor is the position within it. */
    ghost predicate Valid()
      reads this, vgaBuffer
    {
      && vgaBuffer.Length == SCREEN
      && log.Window()
      && vgaCursor == log.pos - log.base
      && vgaBuffer[..] == log.cells[log.base..]
    }

    /** The text memory as the boot loader leaves it, with the cursor in its first cell. */
    constructor (memory: seq<Cell>, color: Color)
      requires |memory| == SCREEN
      ensures Valid() && fresh(vgaBuffer)
      ensures charColor == color && log == Log(memory, 0, 0)
    {
      vgaBuffer := new Cell[SCREEN](i requires 0 <= i < |memory| => memory[i]);
      vgaCursor, charColor := 0, color;
      log := Log(memory, 0, 0);
      new;
      assert vgaBuffer[..] == memory;
    }

    method Scroll()
      requires Valid() && vgaCursor >= SCREEN
      modifies `vgaCursor, `log, vgaBuffer
      ensures Valid() && log == old(log).Room(charColor)
      ensures vgaBuffer[..SCREEN - 80] == old(vgaBuffer[80..])
      ensures forall k | SCREEN - 80 <= k < SCREEN :: vgaBuffer[k] == Cell(' ', charColor)
    {
      for i := 0 to 80 * 24
        invariant forall k | 0 <= k < i :: vgaBuffer[k] == old(vgaBuffer[k + 80])
        invariant forall k | i <= k < SCREEN :: vgaBuffer[k] == old(vgaBuffer[k])
        modifies vgaBuffer
      {
        vgaBuffer[i] := vgaBuffer[i + 80];
      }
      for i := 80 * 24 to 80 * 25
        invariant forall k | 0 <= k < 80 * 24 :: vgaBuffer[k] == old(vgaBuffer[k + 80])
        invariant forall k | 80 * 24 <= k < i :: vgaBuffer[k] == Blank(charColor)
        modifies vgaBuffer
      {
        vgaBuffer[i] := Blank(charColor);
      }
      vgaCursor := 80 * 24;
      log := log.Room(charColor);
      assert old(vgaBuffer[..]) == old(log.cells[log.base..]);
      assert vgaBuffer[..] == log.cells[log.base..];
    }

    method PutChar(c: char)
      requires Valid()
      modifies `vgaCursor, `log, vgaBuffer
      ensures Valid() && log == old(log).Put(c, charColor)
      ensures vgaCursor <= SCREEN
    {
      if vgaCursor >= 80 * 25 {
        Scroll();
      }
      ghost var l := log;
      assert l == old(log).Room(charColor) == l.Room(charColor);
      PutKeepsWindow(l, c, charColor);
      if c == '\n' {
        NextRow(l.base, vgaCursor);
        vgaCursor := (vgaCursor / 80 + 1) * 80;
      } else if c == BACKSPACE {
        if vgaCursor > 0 {
          vgaCursor := vgaCursor - 1;
          SetCell(vgaCursor, Blank(charColor));
        }
      } else {
        SetCell(vgaCursor, CellOf(c, charColor));
        vgaCursor := vgaCursor + 1;
      }
      log := l.Put(c, charColor);
    }

    /** One store into the buffer, which is a store into the window of the log. */
    method SetCell(i: nat, cell: Cell)
      requires vgaBuffer.Length == SCREEN && i < SCREEN
      requires |log.cells| == log.base + SCREEN && vgaBuffer[..] == log.cells[log.base..]
      modifies vgaBuffer
      ensures vgaBuffer[..] == log.cells[log.base + i := cell][log.base..]
    {
      WindowUpdate(log, i, cell);
      ghost var window := vgaBuffer[..];
      vgaBuffer[i] := cell;
      assert vgaBuffer[..] == window[i := cell];
    }

    method KPrint(str: seq<char>)
      requires Valid() && IsCString(str)
      modifies `vgaCursor, `log, vgaBuffer
      ensures Valid() && log == old(log).Print(Text(str), charColor)
      ensures (forall c | c in Text(str) :: Plain(c)) ==> EndsWith(Before(), Text(str), charColor)
    {
      assert log.Window();
      hide Log.Print, EndsWith, Valid, Before, Text;
      PrintStep(log, Text(str), 0, charColor);
      var i := 0;
      while str[i] != NUL
        invariant 0 <= i <= |Text(str)| && Valid()
        invariant log.Print(Text(str)[i..], charColor) == old(log).Print(Text(str), charColor)
        decreases |Text(str)| - i
      {
        PrintStep(log, Text(str), i, charColor);
        PutChar(str[i]);
        i := i + 1;
      }
      PrintStep(log, Text(str), i, charColor);
      if forall c | c in Text(str) :: Plain(c) {
        PlainTextIsShown(old(log), Text(str));
      }
    }

    /** The cells in front of the cursor. */
    function Before(): seq<Cell>
      requires Valid()
      reads this, vgaBuffer
    {
      vgaBuffer[..vgaCursor]
    }

    lemma PlainTextIsShown(before: Log, text: string)
      requires Valid() && before.Window() && log == before.Print(text, charColor)
      requires forall c | c in text :: Plain(c)
      ensures EndsWith(Before(), text, charColor)
    {
      PrintPlainText(before, text, charColor);
      WindowEndsWith(before, log, text, charColor);
    }

    /** `kprint` of a literal, given by its characters. */
    method KPrintText(text: string)
      requires Valid()
      modifies `vgaCursor, `log, vgaBuffer
      ensures Valid() && log == old(log).Print(text, charColor)
    {
      for i := 0 to |text|
        invariant Valid()
        invariant log.Print(text[i..], charColor) == old(log).Print(text, charColor)
      {
        assert text[i..][1..] == text[i + 1..];
        PutChar(text[i]);
      }
    }

    /** Whatever the screen showed, and wherever the cursor was. */
    method KClear()
      requires vgaBuffer.Length == SCREEN
      modifies `vgaCursor, `log, vgaBuffer
      ensures Valid() && log == Cleared(charColor)
      ensures vgaCursor == 0 && forall k | 0 <= k < SCREEN :: vgaBuffer[k] == Cell(' ', charColor)
    {
      for i := 0 to 80 * 25
        invariant forall k | 0 <= k < i :: vgaBuffer[k] == Blank(charColor)
      {
        vgaBuffer[i] := Blank(charColor);
      }
      vgaCursor := 0;
      log := Cleared(charColor);
      assert vgaBuffer[..] == log.cells[0..];
    }
  }
}
