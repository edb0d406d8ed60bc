/** The VGA text terminal as a window onto an endless log: src/term/vga.c. */
module Terminal {
  import opened Machine
  import opened Bytes
  import opened CStrings

  const WIDTH: nat := 80
  const HEIGHT: nat := 25
  const CELLS: nat := 2000

  const NEWLINE: Byte := 10
  const RETURN: Byte := 13
  const BACKSPACE: Byte := 8
  const SPACE: Byte := 32

  // Colours of the source's enumeration that the code uses.
  const BLACK: nat := 0
  const WHITE: nat := 15

  function MakeColor(fg: nat, bg: nat): Byte
    requires fg < 16 && bg < 16
  {
    fg + 16 * bg
  }

  /** The foreground is the low nibble, the background the high one. */
  lemma ColorNibbles(fg: nat, bg: nat)
    requires fg < 16 && bg < 16
    ensures MakeColor(fg, bg) % 16 == fg && MakeColor(fg, bg) / 16 == bg
  {
  }

  /** `make_vga_entry`; `char` is signed, so a character from 128 on sets the whole colour byte. */
  function MakeEntry(c: Byte, color: Byte): nat {
    if c < 128 then c + 256 * color else c + 0xFF00
  }

  /** The character always survives in the entry, the colour exactly when the character is ASCII or the colour
      is 255. */
  lemma EntryFields(c: Byte, color: Byte)
    ensures MakeEntry(c, color) % 256 == c
    ensures MakeEntry(c, color) / 256 == color <==> c < 128 || color == 255
    ensures 128 <= c ==> MakeEntry(c, color) / 256 == 255
  {
  }

  // ---------------------------------------------------------------- the log

  /** An endless strip of cells, 80 to a line: the cells written so far, the cursor, and the
      number of lines that have scrolled off the screen. */
  datatype Log = Log(cells: map<nat, nat>, at: nat, top: nat)

  /** Lines of the first screen are blank in white, all later ones in black. */
  function Blank(p: nat): nat {
    if p < CELLS then MakeEntry(SPACE, MakeColor(WHITE, BLACK)) else MakeEntry(SPACE, MakeColor(BLACK, BLACK))
  }

  function Cell(log: Log, p: nat): nat {
    if p in log.cells then log.cells[p] else Blank(p)
  }

  /** Move the cursor; the window follows it down, never up. */
  function MoveTo(log: Log, at: nat): Log {
    log.(at := at, top := if log.top + HEIGHT <= at / WIDTH then at / WIDTH - (HEIGHT - 1) else log.top)
  }

  /** One character. None is a backspace at the top left cell of the screen. */
  function Put(log: Log, c: Byte, color: Byte): Option<Log> {
    if c == NEWLINE then Some(MoveTo(log, (log.at / WIDTH + 1) * WIDTH))
    else if c == RETURN then Some(MoveTo(log, log.at / WIDTH * WIDTH))
    else if c == BACKSPACE then
      if log.at <= log.top * WIDTH then None else Some(MoveTo(log, log.at - 1))
    else Some(MoveTo(log.(cells := log.cells[log.at := MakeEntry(c, color)]), log.at + 1))
  }

  function PutAll(log: Log, s: seq<Byte>, color: Byte): Option<Log>
    decreases |s|
  {
    if s == [] then Some(log)
    else
      match Put(log, s[0], color)
      case None => None
      case Some(l) => PutAll(l, s[1..], color)
  }

  /** A string is its characters one after the other. */
  lemma {:induction false} PutAllParts(log: Log, s: seq<Byte>, t: seq<Byte>, color: Byte)
    ensures PutAll(log, s + t, color) ==
      if PutAll(log, s, color).None? then None else PutAll(PutAll(log, s, color).value, t, color)
    ensures |s| == 1 ==> PutAll(log, s, color) == Put(log, s[0], color)
    decreases |s|
  {
    hide Put;
    if s == [] {
      assert s + t == t;
    } else {
      assert (s + t)[1..] == s[1..] + t;
      if Put(log, s[0], color).Some? {
        PutAllParts(Put(log, s[0], color).value, s[1..], t, color);
      }
    }
  }

  /** Every line of a screen of 25 lines of 80 has moved up one, and the last is blank in black. */
  ghost predicate Scrolled(before: seq<nat>, after: seq<nat>) {
    && |before| == |after| == 2000
    && (forall k :: 0 <= k < 1920 ==> after[k] == before[k + 80])
    && forall k :: 1920 <= k < 2000 ==> after[k] == 0x0020
  }

  /** The cursor goes from row `y` to the start of the next line, and the screen scrolls if it must. */
  ghost predicate NextLine(before: seq<nat>, y: nat, after: seq<nat>, x': nat, y': nat) {
    && x' == 0
    && (y < 24 ==> y' == y + 1 && after == before)
    && (y == 24 ==> y' == 24 && Scrolled(before, after))
  }

  /** The cell at the cursor becomes `e` and the cursor goes to the next, in the next line from the last. */
  ghost predicate Typed(before: seq<nat>, x: nat, y: nat, e: nat, after: seq<nat>, x': nat, y': nat) {
    && 80 * y + x < |before|
    && (x < 79 ==> x' == x + 1 && y' == y && after == before[80 * y + x := e])
    && (x == 79 ==> NextLine(before[80 * y + x := e], y, after, x', y'))
  }

  /** The cursor is in the window, and nothing is written below it. */
  ghost predicate Inside(log: Log) {
    && log.top * WIDTH <= log.at < (log.top + HEIGHT) * WIDTH
    && forall p :: p in log.cells ==> p < (log.top + HEIGHT) * WIDTH
  }

  lemma PutInside(log: Log, c: Byte, color: Byte)
    requires Inside(log) && Put(log, c, color).Some?
    ensures Inside(Put(log, c, color).value)
    ensures log.top <= Put(log, c, color).value.top <= log.top + 1
  {
  }

  /** `screen` is the window onto `log`. */
  ghost predicate Window(screen: seq<nat>, log: Log) {
    |screen| == CELLS && forall k :: 0 <= k < CELLS ==> screen[k] == Cell(log, log.top * WIDTH + k)
  }

  /** Moving the cursor inside the window changes nothing that shows. */
  lemma WindowMoved(screen: seq<nat>, log: Log, row: nat, col: nat)
    requires Inside(log) && col < WIDTH && row < HEIGHT
    ensures var at := (log.top + row) * WIDTH + col;
      && MoveTo(log, at) == log.(at := at) && Inside(MoveTo(log, at))
      && (Window(screen, log) ==> Window(screen, MoveTo(log, at)))
  {
    RowOf(log.top + row, col);
  }

  /** Writing the cell under the cursor. */
  lemma WindowWritten(screen: seq<nat>, log: Log, k: nat, e: nat)
    requires Window(screen, log) && Inside(log) && k < CELLS && log.at == log.top * WIDTH + k
    ensures var l := log.(cells := log.cells[log.at := e]); Window(screen[k := e], l) && Inside(l)
  {
  }

  // ---------------------------------------------------------------- the terminal

  class Term {
    const buffer: array<nat>
    var currX: nat
    var currY: nat
    var color: Byte

    /** The cursor is on the screen. */
    ghost predicate OnScreen()
      reads this
    {
      currX < WIDTH && currY < HEIGHT
    }

    /** The screen is the window onto `log`. */
    ghost predicate Shows(log: Log)
      reads this, buffer
    {
      && buffer.Length == CELLS && OnScreen() && Inside(log)
      && log.at == (log.top + currY) * WIDTH + currX
      && Window(buffer[..], log)
    }

    /** `init_term`. */
    constructor ()
      ensures fresh(buffer) && color == 0x0F && currX == 0 && currY == 0
      ensures buffer.Length == 2000 && forall k :: 0 <= k < 2000 ==> buffer[k] == 0x0F20
      ensures Shows(Log(map[], 0, 0))
    {
      var fill := MakeColor(WHITE, BLACK);
      color := fill;
      currX, currY := 0, 0;
      buffer := new nat[CELLS](_ => MakeEntry(SPACE, fill));
    }

    method SetColor(c: Byte)
      modifies this`color
      ensures color == c
    {
      color := c;
    }

    /** `term_scroll`. */
    method Scroll()
      requires buffer.Length == CELLS
      modifies this`currX, this`currY, buffer
      ensures currX == 0 && currY == HEIGHT - 1
      ensures forall k :: 0 <= k < CELLS ==>
        buffer[k] == if k < CELLS - WIDTH then old(buffer[k + WIDTH]) else MakeEntry(SPACE, MakeColor(BLACK, BLACK))
    {
      var y := 0;
      while y < HEIGHT - 1
        invariant y <= HEIGHT - 1
        invariant forall k :: 0 <= k < CELLS ==>
          buffer[k] == if k < y * WIDTH then old(buffer[k + WIDTH]) else old(buffer[k])
      {
        var x := 0;
        while x < WIDTH
          invariant x <= WIDTH
          invariant forall k :: 0 <= k < CELLS ==>
            buffer[k] == if k < y * WIDTH + x then old(buffer[k + WIDTH]) else old(buffer[k])
        {
          buffer[y * WIDTH + x] := buffer[(y + 1) * WIDTH + x];
          x := x + 1;
        }
        y := y + 1;
      }
      var x := 0;
      while x < WIDTH
        invariant x <= WIDTH
        invariant forall k :: 0 <= k < CELLS ==>
          buffer[k] == if k < CELLS - WIDTH then old(buffer[k + WIDTH])
                       else if k < CELLS - WIDTH + x then MakeEntry(SPACE, MakeColor(BLACK, BLACK))
                       else old(buffer[k])
      {
        buffer[(HEIGHT - 1) * WIDTH + x] := MakeEntry(SPACE, MakeColor(BLACK, BLACK));
        x := x + 1;
      }
      currX := 0;
      currY := HEIGHT - 1;
    }

    /** The newline of `term_putchar`, also taken when a line is full and `currX` has reached its end. */
    method NewLine(ghost log: Log)
      requires buffer.Length == CELLS && currX <= WIDTH && currY < HEIGHT && Inside(log.(at := log.top * WIDTH))
      requires Window(buffer[..], log)
      modifies this`currX, this`currY, buffer
      ensures Shows(MoveTo(log, (log.top + old(currY) + 1) * WIDTH))
      ensures NextLine(old(buffer[..]), old(currY), buffer[..], currX, currY)
    {
      currX := 0;
      currY := currY + 1;
      if currY == HEIGHT {
        Scroll();
      }
    }

    /** An ordinary character. */
    method PutPlain(c: Byte, ghost log: Log)
      requires Shows(log)
      modifies this`currX, this`currY, buffer
      ensures Shows(MoveTo(log.(cells := log.cells[log.at := MakeEntry(c, color)]), log.at + 1))
      ensures Typed(old(buffer[..]), old(currX), old(currY), MakeEntry(c, color), buffer[..], currX, currY)
    {
      hide MakeEntry, Window, Inside, NextLine;
      ghost var e, screen := MakeEntry(c, color), buffer[..];
      ghost var l := log.(cells := log.cells[log.at := e]);
      WindowWritten(screen, log, currY * WIDTH + currX, e);
      buffer[currY * WIDTH + currX] := MakeEntry(c, color);
      assert buffer[..] == screen[currY * WIDTH + currX := e];
      currX := currX + 1;
      InsideFacts(l);
      if currX == WIDTH {
        NewLine(l);
      } else {
        WindowMoved(buffer[..], l, currY, currX);
      }
    }

    /** The backspace of `term_putchar`; the row is counted down in 32 bits. */
    method StepBack(ghost log: Log)
      requires Shows(log)
      modifies this`currX, this`currY
      ensures currX == if old(currX) == 0 then 79 else old(currX) - 1
      ensures currY == if 0 < old(currX) then old(currY) else if old(currY) == 0 then 0xFFFF_FFFF else old(currY) - 1
      ensures log.top * WIDTH < log.at <==> 0 < old(currX) || 0 < old(currY)
      ensures log.top * WIDTH < log.at ==> Shows(MoveTo(log, log.at - 1))
    {
      hide Window, Inside;
      InsideFacts(log);
      if currX == 0 {
        currX := WIDTH - 1;
        currY := (currY + U32 - 1) % U32;
      } else {
        currX := currX - 1;
      }
      if currY < HEIGHT {
        WindowMoved(buffer[..], log, currY, currX);
      }
    }

    /** `term_putchar`: the cursor leaves the screen exactly at a backspace in its top left cell. */
    method PutChar(c: Byte, ghost log: Log)
      requires Shows(log)
      modifies this`currX, this`currY, buffer
      ensures OnScreen() <==> Put(log, c, color).Some?
      ensures Put(log, c, color).None? <==> c == BACKSPACE && old(currX) == 0 && old(currY) == 0
      ensures Put(log, c, color).Some? ==> Shows(Put(log, c, color).value)
      ensures c == 10 ==> NextLine(old(buffer[..]), old(currY), buffer[..], currX, currY)
      ensures c == 13 ==> currX == 0 && currY == old(currY) && buffer[..] == old(buffer[..])
      ensures c == 8 ==> buffer[..] == old(buffer[..])
      ensures c == 8 && 0 < old(currX) ==> currX == old(currX) - 1 && currY == old(currY)
      ensures c == 8 && old(currX) == 0 ==>
        currX == 79 && currY == if old(currY) == 0 then 0xFFFF_FFFF else old(currY) - 1
      ensures c != 10 && c != 13 && c != 8 ==>
        Typed(old(buffer[..]), old(currX), old(currY), MakeEntry(c, color), buffer[..], currX, currY)
    {
      hide MakeEntry, Window, Inside, NextLine, Typed;
      RowOf(log.top + currY, currX);
      InsideFacts(log);
      if c == NEWLINE {
        NewLine(log);
      } else if c == RETURN {
        currX := 0;
        WindowMoved(buffer[..], log, currY, currX);
      } else if c == BACKSPACE {
        StepBack(log);
      } else {
        PutPlain(c, log);
      }
    }

    /** `term_putsn`. */
    method PutString(s: seq<Byte>, ghost log: Log)
      requires Shows(log) && 0 in s && PutAll(log, CString(s), color).Some?
      modifies this`currX, this`currY, buffer
      ensures Shows(PutAll(log, CString(s), color).value)
    {
      hide Put, CString, Shows;
      CStringFits(s);
      ghost var text := CString(s);
      ghost var l := log;
      var i := 0;
      assert text[0..] == text;
      while s[i] != 0
        invariant i <= |text| && color == old(color) && Shows(l)
        invariant PutAll(l, text[i..], color) == PutAll(log, text, color)
        decreases |text| - i
      {
        InString(s, i);
        assert text[i..][1..] == text[i + 1..] && text[i..][0] == text[i];
        PutChar(s[i], l);
        l := Put(l, s[i], color).value;
        i := i + 1;
      }
      InString(s, i);
    }
  }

  lemma InsideFacts(log: Log)
    requires Inside(log)
    ensures log.top * WIDTH <= log.at < (log.top + HEIGHT) * WIDTH && Inside(log.(at := log.top * WIDTH))
  {
  }

  lemma RowOf(r: nat, x: nat)
    requires x < WIDTH
    ensures (r * WIDTH + x) / WIDTH == r
  {
  }

  lemma InString(s: seq<Byte>, i: nat)
    requires 0 in s && i <= |CString(s)| < |s|
    ensures s[i] == 0 <==> i == |CString(s)|
    ensures i < |CString(s)| ==> CString(s)[i] == s[i]
  {
    if i < |CString(s)| { assert CString(s)[i] in CString(s); }
  }
}
