/** The text console: the VGA cell buffer of src/drivers/vga.c driven by src/kernel/screen.c. */
module Console {
  import opened Bits
  import opened Division
  import opened CString
  import opened Words

  const VGA_MAX := 64000
  const VGA_WIDTH := 80
  const VGA_HEIGHT := 24       // the index of the last row
  const COLOR_WHITE := 15
  const NEWLINE: Byte := 10
  type Cell = c: int | 0 <= c < 0x1_0000
  type Color = c: int | 0 <= c < 16

  // ---------------------------------------------------------------------------
  // Specification: the last 25 lines of the text
  // ---------------------------------------------------------------------------

  /** The lines with one more character; a NUL shows nothing. */
  function LinesWith(ls: seq<seq<Byte>>, c: Byte): (r: seq<seq<Byte>>)
    requires |ls| >= 1
    ensures |r| >= |ls|
  {
    if c == NEWLINE then ls + [[]]
    else if c == 0 then ls
    else ls[|ls| - 1 := ls[|ls| - 1] + [c]]
  }

  /** The lines of a text; a NUL shows nothing. The last line is the one being written. */
  function Lines(text: seq<Byte>): (ls: seq<seq<Byte>>)
    ensures |ls| >= 1
  {
    if text == [] then [[]] else LinesWith(Lines(text[..|text| - 1]), text[|text| - 1])
  }

  predicate Fits(ls: seq<seq<Byte>>) {
    forall i | 0 <= i < |ls| :: |ls[i]| <= VGA_WIDTH
  }

  /** White on `bg`. */
  function Paint(bg: Color, c: Byte): Cell {
    bg * 4096 + COLOR_WHITE * 256 + c
  }

  lemma PaintBits(bg: Color, c: Byte)
    ensures Paint(bg, c) % 256 == c && Paint(bg, c) / 256 % 16 == 15 && Paint(bg, c) / 4096 == bg
  {
    var w := Paint(bg, c);
    DivModUnique(w, 256, bg * 16 + 15, c);
    DivModUnique(bg * 16 + 15, 16, bg, 15);
    DivModUnique(w, 4096, bg, 15 * 256 + c);
  }

  /** `vga_clear` stores the bare colour number. */
  function Blank(bg: Color): Cell { bg }

  /** The first line on the screen. */
  function Top(ls: seq<seq<Byte>>): nat {
    if |ls| <= 25 then 0 else |ls| - 25
  }

  /** What row `row`, column `col` should hold. */
  function Shown(ls: seq<seq<Byte>>, bg: Color, row: nat, col: nat): Cell {
    var i := Top(ls) + row;
    if row < 25 && i < |ls| && col < |ls[i]| then Paint(bg, ls[i][col]) else Blank(bg)
  }

  /** The buffer shows the last 25 lines, padded with blanks, and is blank from cell 2000 on. */
  predicate Shows(cells: seq<Cell>, ls: seq<seq<Byte>>, bg: Color) {
    && |cells| == VGA_MAX
    && forall k | 0 <= k < VGA_MAX :: cells[k] == Shown(ls, bg, k / VGA_WIDTH, k % VGA_WIDTH)
  }

  function LastRow(ls: seq<seq<Byte>>): nat
    requires |ls| >= 1
  {
    if |ls| <= 25 then |ls| - 1 else 24
  }

  /** Where the next character goes. */
  function Position(ls: seq<seq<Byte>>): nat
    requires |ls| >= 1
  {
    LastRow(ls) * VGA_WIDTH + |ls[|ls| - 1]|
  }

  function Join(ls: seq<seq<Byte>>): seq<Byte>
    requires |ls| >= 1
  {
    if |ls| == 1 then ls[0] else Join(ls[..|ls| - 1]) + [NEWLINE] + ls[|ls| - 1]
  }

  /** The text without the NULs, which show nothing. */
  function Visible(text: seq<Byte>): seq<Byte> {
    if text == [] then []
    else if text[|text| - 1] == 0 then Visible(text[..|text| - 1])
    else Visible(text[..|text| - 1]) + [text[|text| - 1]]
  }

  predicate Cut(ls: seq<seq<Byte>>) {
    forall i | 0 <= i < |ls| :: NEWLINE !in ls[i]
  }

  /** Everything before the last line. */
  function Front(ls: seq<seq<Byte>>): seq<Byte>
    requires |ls| >= 1
  {
    if |ls| == 1 then [] else Join(ls[..|ls| - 1]) + [NEWLINE]
  }

  /** The last line comes last. */
  lemma {:induction false} JoinLast(ls: seq<seq<Byte>>, last: seq<Byte>)
    requires |ls| >= 1
    ensures Join(ls[|ls| - 1 := last]) == Front(ls) + last
  {
    assert ls[|ls| - 1 := last][..|ls| - 1] == ls[..|ls| - 1];
  }

  lemma {:induction false} JoinWith(ls: seq<seq<Byte>>, c: Byte)
    requires |ls| >= 1 && Cut(ls)
    ensures Cut(LinesWith(ls, c))
    ensures Join(LinesWith(ls, c)) == if c == 0 then Join(ls) else Join(ls) + [c]
  {
    var n, ls' := |ls| - 1, LinesWith(ls, c);
    if c == NEWLINE {
      assert ls'[..|ls|] == ls;
      assert Join(ls') == Join(ls) + [NEWLINE] + [];
    } else if c != 0 {
      JoinLast(ls, ls[n]);
      JoinLast(ls, ls[n] + [c]);
      assert ls[n := ls[n]] == ls;
    }
  }

  /** `Lines` cuts the text at its newlines and loses nothing. */
  lemma {:induction false} LinesCutTheText(text: seq<Byte>)
    ensures Join(Lines(text)) == Visible(text)
    ensures Cut(Lines(text))
  {
    if text != [] {
      var t, c := text[..|text| - 1], text[|text| - 1];
      LinesCutTheText(t);
      JoinWith(Lines(t), c);
    }
  }

  // ---------------------------------------------------------------------------
  // The three ways a character changes the screen
  // ---------------------------------------------------------------------------

  lemma ShowsWrite(cells: seq<Cell>, ls: seq<seq<Byte>>, bg: Color, c: Byte)
    requires |ls| >= 1 && Shows(cells, ls, bg) && |ls[|ls| - 1]| < VGA_WIDTH
    ensures Position(ls) < VGA_MAX
    ensures Shows(cells[Position(ls) := Paint(bg, c)], ls[|ls| - 1 := ls[|ls| - 1] + [c]], bg)
  {
    var n := |ls| - 1;
    var ls' := ls[n := ls[n] + [c]];
    var cells' := cells[Position(ls) := Paint(bg, c)];
    forall k | 0 <= k < VGA_MAX ensures cells'[k] == Shown(ls', bg, k / VGA_WIDTH, k % VGA_WIDTH) {
      var row, col := k / VGA_WIDTH, k % VGA_WIDTH;
      assert cells[k] == Shown(ls, bg, row, col);
      assert k == Position(ls) <==> row == LastRow(ls) && col == |ls[n]|;
    }
  }

  lemma ShowsNewline(cells: seq<Cell>, ls: seq<seq<Byte>>, bg: Color)
    requires 1 <= |ls| < 25 && Shows(cells, ls, bg)
    ensures Shows(cells, ls + [[]], bg)
  {
    forall k | 0 <= k < VGA_MAX ensures cells[k] == Shown(ls + [[]], bg, k / VGA_WIDTH, k % VGA_WIDTH) {
      assert cells[k] == Shown(ls, bg, k / VGA_WIDTH, k % VGA_WIDTH);
    }
  }

  /** The buffer after `scroll`: everything below cell 2120 moves up one row. */
  predicate Scrolled(cells: seq<Cell>, cells': seq<Cell>) {
    && |cells| == |cells'| == VGA_MAX
    && (forall k | 0 <= k < 2120 :: cells'[k] == cells[k + 80])
    && (forall k | 2120 <= k < VGA_MAX :: cells'[k] == cells[k])
  }

  lemma ShowsScroll(cells: seq<Cell>, cells': seq<Cell>, ls: seq<seq<Byte>>, bg: Color)
    requires |ls| >= 25 && Shows(cells, ls, bg) && Scrolled(cells, cells')
    ensures Shows(cells', ls + [[]], bg)
  {
    forall k | 0 <= k < VGA_MAX ensures cells'[k] == Shown(ls + [[]], bg, k / VGA_WIDTH, k % VGA_WIDTH) {
      var row, col := k / VGA_WIDTH, k % VGA_WIDTH;
      assert cells[k] == Shown(ls, bg, row, col);
      if k < 2120 {
        assert (k + 80) / VGA_WIDTH == row + 1 && (k + 80) % VGA_WIDTH == col;
        assert cells[k + 80] == Shown(ls, bg, row + 1, col);
      }
    }
  }

  lemma {:induction false} FitsPrefix(text: seq<Byte>, more: seq<Byte>)
    requires Fits(Lines(text + more))
    ensures Fits(Lines(text))
    decreases |more|
  {
    if more != [] {
      var n := |more| - 1;
      var t := text + more;
      assert t[..|t| - 1] == text + more[..n];
      var ls := Lines(text + more[..n]);
      forall i | 0 <= i < |ls| ensures |ls[i]| <= VGA_WIDTH {
        assert |ls[i]| <= |Lines(t)[i]|;
      }
      FitsPrefix(text, more[..n]);
    } else {
      assert text + more == text;
    }
  }

  lemma {:induction false} FitsNext(before: seq<Byte>, t: seq<Byte>, j: nat, next: nat)
    requires j < |t| && next == j + 1 && Fits(Lines(before + t))
    ensures before + t[..j] + [t[j]] == before + t[..next]
    ensures Fits(Lines(before + t[..j] + [t[j]]))
  {
    assert t[..next] == t[..j] + [t[j]];
    assert before + t == (before + t[..next]) + t[next..];
    FitsPrefix(before + t[..next], t[next..]);
    assert before + t[..j] + [t[j]] == before + t[..next];
  }

  /** Appending one character. */
  lemma {:induction false} LinesSnoc(text: seq<Byte>, c: Byte)
    ensures Lines(text + [c]) == LinesWith(Lines(text), c)
  {
    var t := text + [c];
    assert t[..|t| - 1] == text;
  }

  // ---------------------------------------------------------------------------
  // vga.c
  // ---------------------------------------------------------------------------

  /** OR-ing onto cleared low bits adds. */
  lemma {:induction false} OrJoin4(a: nat, b: nat)
    requires a % 16 == 0 && b < 16
    ensures Or(a, b) == a + b
  {
    var r := Or(a, b);
    OrSplits(a, b, 4);
    Shift4(a); Shift4(b); Shift4(r);
    assert r / 16 == a / 16 && r % 16 == b;
  }

  /** The attribute byte `ah` of `vga_item_entry`. */
  function Attribute(fore: Color, back: Color): (ah: Byte)
    ensures ah == back * 16 + fore
  {
    var high := back * 16 % 256;
    assert high == back * 16;
    OrJoin4(high, fore);
    Or(high, fore)
  }

  lemma {:induction false} OrJoin8(a: nat, b: nat)
    requires a % 256 == 0 && b < 256
    ensures Or(a, b) == a + b
  {
    var r := Or(a, b);
    OrSplits(a, b, 8);
    Shift8(a); Shift8(b); Shift8(r);
    assert r / 256 == a / 256 && r % 256 == b;
  }

  /** `ax = ah; ax <<= 8; ax |= al`. */
  function JoinBytes(ah: Byte, al: Byte): (ax: Cell)
    ensures ax == ah * 256 + al
  {
    var shifted := ah * 256 % 0x1_0000;
    assert shifted == ah * 256;
    OrJoin8(shifted, al);
    Or(shifted, al)
  }

  /** `vga_item_entry`: background, foreground and character in their own bits. */
  function ItemEntry(ch: Byte, fore: Color, back: Color): (ax: Cell)
    ensures ax == back * 4096 + fore * 256 + ch
  {
    JoinBytes(Attribute(fore, back), ch)
  }

  /** The 16-bit position that the CRT controller is given. */
  function CursorAt(x: Byte, y: Byte): int {
    (y * VGA_WIDTH + x) % 0x1_0000
  }

  /** The driver state of src/drivers/vga.c. */
  class Vga {
    const buff: array<Cell>
    var x: Byte
    var y: Byte
    var pos: nat
    var cursor: Option<int>    // what was last sent to the CRT controller

    constructor (buff: array<Cell>)
      requires buff.Length == VGA_MAX
      ensures this.buff == buff && cursor == None
    {
      this.buff := buff;
      x, y, pos, cursor := 0, 0, 0, None;
    }

    /** `vga_position_cursor`. */
    method PositionCursor()
      modifies `cursor
      ensures cursor == Some(CursorAt(x, y))
    {
      cursor := Some(CursorAt(x, y));
    }

    /** `vga_clear`. */
    method Clear(bg: Color)
      requires buff.Length == VGA_MAX
      modifies buff
      ensures forall k | 0 <= k < VGA_MAX :: buff[k] == Blank(bg)
    {
      for i := 0 to VGA_MAX
        invariant forall k | 0 <= k < i :: buff[k] == Blank(bg)
      {
        buff[i] := bg;
      }
    }

    /** `vga_init`. */
    method Init(bg: Color)
      requires buff.Length == VGA_MAX
      modifies this, buff
      ensures x == 0 && y == 0 && pos == 0 && cursor == old(cursor)
      ensures Shows(buff[..], Lines([]), bg)
    {
      Clear(bg);
      x, y, pos := 0, 0, 0;
    }

    /** `vga_write_b`. */
    method WriteByte(ch: Byte, fore: Color, back: Color)
      requires pos < buff.Length
      modifies this, buff
      ensures buff[..] == old(buff[..])[old(pos) := back * 4096 + fore * 256 + ch]
      ensures pos == old(pos) + 1 && x == (old(x) + 1) % 256 && y == old(y)
      ensures cursor == Some(CursorAt(x, y))
    {
      buff[pos] := ItemEntry(ch, fore, back);
      pos := pos + 1;
      x := (x + 1) % 256;
      PositionCursor();
    }

    /** `scroll`. */
    method Scroll()
      requires buff.Length == VGA_MAX
      modifies this, buff
      ensures Scrolled(old(buff[..]), buff[..])
      ensures x == 0 && y == VGA_HEIGHT && pos == old(y) * VGA_WIDTH && cursor == old(cursor)
    {
      for i := 0 to 2200 - 80
        modifies buff
        invariant forall k | 0 <= k < i :: buff[k] == old(buff[k + 80])
        invariant forall k | i <= k < VGA_MAX :: buff[k] == old(buff[k])
      {
        buff[i] := buff[i + VGA_WIDTH];
      }
      x := 0;
      pos := y * VGA_WIDTH;
      y := VGA_HEIGHT;
    }

    /** `vga_newline`. */
    method NewLine()
      requires buff.Length == VGA_MAX && y <= VGA_HEIGHT
      modifies this, buff
      ensures if old(y) >= VGA_HEIGHT then Scrolled(old(buff[..]), buff[..]) else buff[..] == old(buff[..])
      ensures x == 0 && y == (if old(y) >= VGA_HEIGHT then VGA_HEIGHT else old(y) + 1) && pos == y * VGA_WIDTH
      ensures cursor == Some(CursorAt(x, y))
    {
      if y >= VGA_HEIGHT {
        Scroll();
        PositionCursor();
        return;
      }
      pos := (y + 1) * VGA_WIDTH;
      x := 0;
      y := y + 1;
      PositionCursor();
    }
  }

  // ---------------------------------------------------------------------------
  // screen.c
  // ---------------------------------------------------------------------------

  class Screen {
    const vga: Vga
    var bg: Color
    ghost var text: seq<Byte>      // everything put on the screen since it was initialised

    /** The driver shows the last 25 of the lines `ls` and writes at their end. */
    ghost predicate At(ls: seq<seq<Byte>>)
      requires |ls| >= 1
      reads this, vga, vga.buff
    {
      && Shows(vga.buff[..], ls, bg)
      && vga.y == LastRow(ls) && vga.x == |ls[|ls| - 1]| && vga.pos == Position(ls)
    }

    /** The screen shows the last 25 lines of the text, the write position follows the text, and the
        hardware cursor, once something moved it, is at the write position. */
    ghost predicate Valid()
      reads this, vga, vga.buff
    {
      && Fits(Lines(text)) && At(Lines(text))
      && (vga.cursor.Some? ==> vga.cursor.value == vga.pos)
    }

    /** `screen_init`, on a machine whose cursor has not been programmed yet. */
    constructor (buff: array<Cell>, bg: Color)
      requires buff.Length == VGA_MAX
      modifies buff
      ensures Valid() && text == [] && this.bg == bg && vga.buff == buff && fresh(vga)
    {
      vga := new Vga(buff);
      this.bg := bg;
      text := [];
      new;
      vga.Init(bg);
    }

    method PutNewline()
      requires Valid()
      modifies vga, vga.buff
      ensures At(Lines(text) + [[]]) && vga.cursor == Some(vga.pos)
    {
      ghost var ls := Lines(text);
      ghost var cells := vga.buff[..];
      vga.NewLine();
      if |ls| >= 25 {
        ShowsScroll(cells, vga.buff[..], ls, bg);
      } else {
        ShowsNewline(cells, ls, bg);
      }
    }

    method PutGlyph(c: Byte)
      requires Valid() && |Lines(text)[|Lines(text)| - 1]| < VGA_WIDTH
      modifies vga, vga.buff
      ensures var ls := Lines(text); At(ls[|ls| - 1 := ls[|ls| - 1] + [c]])
      ensures vga.cursor == Some(vga.pos)
    {
      ghost var ls := Lines(text);
      ShowsWrite(vga.buff[..], ls, bg, c);
      vga.WriteByte(c, COLOR_WHITE, bg);
    }

    /** What `char_process` does with the driver, where `next` are the lines with `c`. */
    method PutChar(c: Byte, ghost next: seq<seq<Byte>>)
      requires Valid() && next == LinesWith(Lines(text), c) && Fits(next)
      modifies vga, vga.buff
      ensures At(next) && (vga.cursor.Some? ==> vga.cursor.value == vga.pos)
      ensures c != 0 ==> vga.cursor == Some(vga.pos)
      ensures old(vga.cursor.Some?) ==> vga.cursor.Some?
    {
      ghost var n := |Lines(text)| - 1;
      if c == NEWLINE {
        PutNewline();
      } else if c != 0 {
        assert |next[n]| <= VGA_WIDTH;
        PutGlyph(c);
      }
    }

    /** `char_process`, which is also `screen_put`. */
    method Put(c: Byte)
      requires Valid() && Fits(Lines(text + [c]))
      modifies this, vga, vga.buff
      ensures Valid() && text == old(text) + [c] && bg == old(bg)
      ensures c != 0 ==> vga.cursor == Some(vga.pos)
      ensures old(vga.cursor.Some?) ==> vga.cursor.Some?
    {
      ghost var longer := text + [c];
      ghost var next := Lines(longer);
      LinesSnoc(text, c);
      PutChar(c, next);
      text := longer;
      assert At(next);
    }

    /** `screen_put_text`: for every text whose lines fit, the screen then shows the last 25 lines. */
    method PutText(s: seq<Byte>, p: nat)
      requires Valid() && Terminated(s, p)
      requires forall i | 0 <= i < |Lines(text + Text(s, p))| :: |Lines(text + Text(s, p))[i]| <= 80
      modifies this, vga, vga.buff
      ensures Valid() && text == old(text) + Text(s, p) && bg == old(bg)
      ensures Text(s, p) != [] ==> vga.cursor == Some(vga.pos)
    {
      ghost var t := Text(s, p);
      TextChars(s, p);
      var j := 0;
      assert old(text) + t[..0] == text;
      while s[p + j] != 0
        invariant 0 <= j <= |t| && text == old(text) + t[..j] && bg == old(bg)
        invariant Valid()
        invariant j > 0 ==> vga.cursor.Some?
        decreases |t| - j
      {
        assert s[p + j] == t[j];
        var next := j + 1;
        FitsNext(old(text), t, j, next);
        Put(s[p + j]);
        j := next;
      }
      assert t[..j] == t;
    }
  }

  /** Character 10 starts a line, character 0 shows nothing, and any other joins the last line. */
  lemma {:induction false} LinesByCharacter(text: seq<Byte>, c: Byte)
    ensures Lines([]) == [[]]
    ensures c == 10 ==> Lines(text + [c]) == Lines(text) + [[]]
    ensures c == 0 ==> Lines(text + [c]) == Lines(text)
    ensures c != 10 && c != 0 ==>
              var ls := Lines(text); Lines(text + [c]) == ls[..|ls| - 1] + [ls[|ls| - 1] + [c]]
  {
    LinesSnoc(text, c);
    var ls := Lines(text);
    assert ls[|ls| - 1 := ls[|ls| - 1] + [c]] == ls[..|ls| - 1] + [ls[|ls| - 1] + [c]];
  }

  /** The cells of a valid screen, bit by bit: white characters on the background, row 0 holding the first of
      the last 25 lines; every other cell, and all from 2000 on, hold the bare colour number. */
  lemma ScreenCells(s: Screen, row: nat, col: nat)
    requires s.Valid() && col < 80 && row * 80 + col < 64000
    ensures var ls := Lines(s.text);
            var i := if |ls| <= 25 then row else |ls| - 25 + row;
            var cell := s.vga.buff[row * 80 + col];
            if row < 25 && i < |ls| && col < |ls[i]|
            then cell % 256 == ls[i][col] && cell / 256 % 16 == 15 && cell / 4096 == s.bg
            else cell == s.bg
  {
    var ls, k := Lines(s.text), row * 80 + col;
    assert k / 80 == row && k % 80 == col;
    assert s.vga.buff[..][k] == Shown(ls, s.bg, row, col);
    assert s.vga.buff[k] == s.vga.buff[..][k];
    if row < 25 && Top(ls) + row < |ls| && col < |ls[Top(ls) + row]| {
      PaintBits(s.bg, ls[Top(ls) + row][col]);
    }
  }

  /** The write position and the cursor of a valid screen: behind the last line, which is in row 24 at most. */
  lemma ScreenPosition(s: Screen)
    requires s.Valid()
    ensures var ls := Lines(s.text);
            && s.vga.x == |ls[|ls| - 1]| && s.vga.y == (if |ls| <= 25 then |ls| - 1 else 24)
            && s.vga.pos == s.vga.y * 80 + s.vga.x
            && (s.vga.cursor.Some? ==> s.vga.cursor.value == s.vga.y * 80 + s.vga.x)
  {
  }
}
