/** The functions of src/libc/stdio.c: `outchar`, `prints`, `printi` and `print`. */
module PrintfEngine {
  import opened Printf
  import opened PrintfFormat

  /** Where characters go: the buffer of `sprintf`, or the screen. */
  class Out {
    var text: string

    constructor ()
      ensures text == ""
    {
      text := "";
    }

    /** `outchar`. */
    method OutChar(c: char) returns (n: int)
      modifies this
      ensures text == old(text) + [c] && n == 1
    {
      text := text + [c];
      n := 1;
    }
  }

  /** `while(*s) cw += outchar(out, *s++)`. */
  method Emit(out: Out, s: string) returns (cw: int)
    modifies out
    ensures out.text == old(out.text) + s && cw == |s|
  {
    cw := 0;
    for i := 0 to |s|
      invariant out.text == old(out.text) + s[..i] && cw == i
    {
      var n := out.OutChar(s[i]);
      cw := cw + n;
    }
    assert s[..|s|] == s;
  }

  /** `while(width--) cw += outchar(out, padc)`. */
  method Pad(out: Out, padc: char, width: nat) returns (cw: int)
    modifies out
    ensures out.text == old(out.text) + Repeat(padc, width) && cw == width
  {
    cw := 0;
    var left := width;
    while left > 0
      invariant 0 <= left <= width && cw == width - left
      invariant out.text == old(out.text) + Repeat(padc, width - left)
    {
      left := left - 1;
      var n := out.OutChar(padc);
      cw := cw + n;
      assert Repeat(padc, width - left) == Repeat(padc, width - left - 1) + [padc];
    }
  }

  method EmitPrefix(out: Out, f: Flags) returns (cw: int)
    modifies out
    ensures out.text == old(out.text) + Prefix(f) && cw == |Prefix(f)|
  {
    cw := 0;
    if f.hex {
      cw := Emit(out, "0x");
    }
  }

  /** The left-justified half of `prints`. */
  method PrintLeft(out: Out, s: string, width: nat, padc: char, f: Flags) returns (cw: int)
    requires width > 0 ==> padc == if f.zero then '0' else ' '
    modifies out
    ensures var r := if f.zero then Prefix(f) + Repeat('0', width) + s else Prefix(f) + s + Repeat(' ', width);
            out.text == old(out.text) + r && cw == |r|
  {
    var a := EmitPrefix(out, f);
    var b, c := 0, 0;
    if width > 0 {
      if f.zero {
        b := Pad(out, padc, width);
        c := Emit(out, s);
      } else {
        b := Emit(out, s);
        c := Pad(out, padc, width);
      }
    } else {
      b := Emit(out, s);
    }
    cw := a + b + c;
  }

  /** The right-justified half of `prints`. */
  method PrintRight(out: Out, s: string, width: nat, padc: char, f: Flags) returns (cw: int)
    requires width > 0 ==> padc == if f.zero then '0' else ' '
    modifies out
    ensures var r := if f.zero then Prefix(f) + Repeat('0', width) + s else Repeat(' ', width) + Prefix(f) + s;
            out.text == old(out.text) + r && cw == |r|
  {
    var a, b := 0, 0;
    if width > 0 && !f.zero {
      a := Pad(out, padc, width);
      b := EmitPrefix(out, f);
    } else if width > 0 && f.zero {
      a := EmitPrefix(out, f);
      b := Pad(out, padc, width);
    } else {
      a := EmitPrefix(out, f);
    }
    var c := Emit(out, s);
    cw := a + b + c;
  }

  /** `prints`. */
  method PrintString(out: Out, s: string, minWidth: int, f: Flags) returns (cw: int)
    modifies out
    ensures out.text == old(out.text) + Padded(s, minWidth, f) && cw == |Padded(s, minWidth, f)|
  {
    var len := |s|;
    var padc := ' ';
    var width := minWidth;
    if len >= width {
      width := 0;
    } else {
      if f.zero {
        padc := '0';
      }
      width := width - len;
    }
    assert width == Padding(s, minWidth);
    if f.left {
      cw := PrintLeft(out, s, width, padc, f);
    } else {
      cw := PrintRight(out, s, width, padc, f);
    }
  }

  /** `u / base` and `u % base`. */
  method DivRem(u: nat, base: int) returns (q: nat, r: nat)
    requires base >= 2
    ensures q == Quot(u, base) && r == Rem(u, base)
  {
    QuotRem(u, base);
    q, r := u / base, u % base;
  }

  method PutDigit(buffer: array<char>, iter: int, c: char)
    requires buffer.Length == PRINT_BUF_LEN && 0 <= iter < 64
    modifies buffer
    ensures buffer[iter..64] == [c] + old(buffer[iter + 1..64]) && buffer[64] == old(buffer[64])
  {
    buffer[iter] := c;
  }

  /** One round of the digit loop. */
  method NextDigit(buffer: array<char>, iter: int, u: nat, base: int, conv: Letters) returns (next: nat)
    requires buffer.Length == PRINT_BUF_LEN && base >= 2 && 0 <= iter < 64
    modifies buffer
    ensures next == Quot(u, base)
    ensures buffer[iter..64] == [DigitChar(Rem(u, base), conv)] + old(buffer[iter + 1..64])
    ensures buffer[64] == old(buffer[64])
  {
    var rem;
    next, rem := DivRem(u, base);
    PutDigit(buffer, iter, DigitChar(rem, conv));
  }

  /** The last digit of `u` moves from the digits still to come to those in the buffer. */
  lemma {:induction false} DigitsStep(u: nat, base: int, conv: Letters, all: string, tail: string)
    requires base >= 2 && u > 0 && all == Digits(u, base, conv) + tail
    ensures |all| > |tail| && Quot(u, base) < u
    ensures all == Digits(Quot(u, base), base, conv) + ([DigitChar(Rem(u, base), conv)] + tail)
  {
  }

  lemma {:induction false} LongDigits(u: nat, base: int, conv: Letters)
    requires base >= 2 && u < 0x1_0000_0000_0000_0000
    ensures |Digits(u, base, conv)| <= 64
  {
    Power64();
    DigitsFit(u, base, conv, 64);
  }

  /** The digit loop of `printi`, from the last digit to the first. It stays inside the buffer for every base of at
      least two and every word of up to 64 bits. */
  method WriteDigits(buffer: array<char>, value: nat, base: int, conv: Letters) returns (iter: int)
    requires buffer.Length == PRINT_BUF_LEN && base >= 2
    requires value < 0x1_0000_0000_0000_0000
    modifies buffer
    ensures -1 <= iter < 64 && buffer[iter + 1..64] == Digits(value, base, conv) && buffer[64] == '\0'
  {
    ghost var all := Digits(value, base, conv);
    ghost var tail := "";
    LongDigits(value, base, conv);
    var u: nat := value;
    buffer[64] := '\0';
    iter := 63;
    while u > 0
      invariant -1 <= iter < 64 && |tail| == 63 - iter && tail == buffer[iter + 1..64] && buffer[64] == '\0'
      invariant all == Digits(u, base, conv) + tail
      decreases u
    {
      DigitsStep(u, base, conv, all, tail);
      tail := [DigitChar(Rem(u, base), conv)] + tail;
      u := NextDigit(buffer, iter, u, base, conv);
      iter := iter - 1;
    }
  }

  predicate SignShown(s: string, neg: bool, base: int, f: Flags) {
    s == if f.hide || base != 10 then "" else if neg then "-" else if f.show then "+" else ""
  }

  /** What is printed for a number other than zero. */
  lemma {:induction false} NumberFramed(num: int, base: int, sign: bool, width: int, f: Flags, conv: Letters)
    requires base >= 2 && LongOk(num, base, sign) && num != 0
    ensures SignShown(SignText(num, base, sign, f), IsNeg(num, base, sign), base, f)
    ensures var d := UpToNul(Digits(Magnitude(num, base, sign), base, conv));
            Number(num, base, sign, width, f, conv) ==
            Framed(SignText(num, base, sign, f), d, width, NumberFlags(f, base))
  {
  }

  /** `char buffer[PRINT_BUF_LEN] = {0}`. */
  method NewBuffer() returns (buffer: array<char>)
    ensures fresh(buffer) && buffer.Length == PRINT_BUF_LEN
  {
    buffer := new char[PRINT_BUF_LEN](_ => '\0');
  }

  lemma {:induction false} ShortDigits(u: nat, base: int, conv: Letters)
    requires base >= 2 && u < WORD
    ensures |Digits(u, base, conv)| <= 32
  {
    Power64();
    DigitsFit(u, base, conv, 32);
  }

  /** A fresh buffer with the digits of a 32-bit word at its end. */
  method FillBuffer(u: nat, base: int, conv: Letters) returns (buffer: array<char>, iter: int)
    requires base >= 2 && u < WORD
    ensures fresh(buffer) && buffer.Length == PRINT_BUF_LEN && 0 <= iter < 64
    ensures buffer[iter + 1..64] == Digits(u, base, conv) && buffer[64] == '\0'
  {
    buffer := NewBuffer();
    iter := WriteDigits(buffer, u, base, conv);
    ShortDigits(u, base, conv);
  }

  /** The string that starts at `k` in a buffer whose last byte is the terminator. */
  lemma {:induction false} BufferText(b: string, k: nat, d: string)
    requires |b| == PRINT_BUF_LEN && k <= 64 && b[k..64] == d && b[64] == '\0'
    ensures UpToNul(b[k..]) == UpToNul(d)
  {
    assert b[k..] == d + ['\0'] + "";
    UpToNulEnds(d, "");
  }

  /** The string that `prints` finds at `buffer + k`. */
  method TextAt(buffer: array<char>, k: nat, ghost d: string) returns (text: string)
    requires buffer.Length == PRINT_BUF_LEN && k <= 64 && buffer[k..64] == d && buffer[64] == '\0'
    ensures text == UpToNul(d)
  {
    BufferText(buffer[..], k, d);
    assert buffer[k..] == buffer[..][k..];
    text := UpToNul(buffer[k..]);
  }

  /** With zero padding the sign goes out before the padding. */
  method PrintSignFirst(out: Out, d: string, neg: bool, base: int, minWidth: int, f: Flags, g: Flags, ghost s: string)
    returns (cw: int)
    requires SignShown(s, neg, base, f)
    modifies out
    ensures out.text == old(out.text) + (s + Padded(d, minWidth - |s|, g))
    ensures cw == |s| + |Padded(d, minWidth - |s|, g)|
  {
    var width := minWidth;
    cw := 0;
    if !f.hide && base == 10 {
      if f.show && !neg {
        cw := out.OutChar('+');
        width := width - 1;
      }
      if neg {
        cw := out.OutChar('-');
        width := width - 1;
      }
    }
    assert out.text == old(out.text) + s && width == minWidth - |s| && cw == |s|;
    var n := PrintString(out, d, width, g);
    cw := cw + n;
  }

  /** Without zero padding the sign becomes part of the string: it goes into the buffer, in front of the digits. */
  method PutSign(buffer: array<char>, last: int, neg: bool, base: int, f: Flags, ghost s: string) returns (iter: int)
    requires buffer.Length == PRINT_BUF_LEN && 0 <= last < 64 && SignShown(s, neg, base, f)
    modifies buffer
    ensures -1 <= iter < 64 && buffer[iter + 1..64] == s + old(buffer[last + 1..64]) && buffer[64] == old(buffer[64])
  {
    iter := last;
    if !f.hide && base == 10 {
      if f.show && !neg {
        PutDigit(buffer, iter, '+');
        iter := iter - 1;
      }
      if neg {
        PutDigit(buffer, iter, '-');
        iter := iter - 1;
      }
    }
  }

  /** The end of `printi`: the two places where the sign can go. */
  method PrintSigned(out: Out, buffer: array<char>, last: int, neg: bool, base: int, width: int, f: Flags, g: Flags,
                     ghost s: string, ghost d: string) returns (cw: int)
    requires buffer.Length == PRINT_BUF_LEN && 0 <= last < 64 && buffer[last + 1..64] == d && buffer[64] == '\0'
    requires SignShown(s, neg, base, f) && g.zero == f.zero
    modifies out, buffer
    ensures var r := Framed(s, UpToNul(d), width, g); out.text == old(out.text) + r && cw == |r|
  {
    if f.zero {
      var text := TextAt(buffer, last + 1, d);
      cw := PrintSignFirst(out, text, neg, base, width, f, g, s);
    } else {
      var iter := PutSign(buffer, last, neg, base, f, s);
      UpToNulAppend(s, d);
      var text := TextAt(buffer, iter + 1, s + d);
      cw := PrintString(out, text, width, g);
    }
  }

  method PrintDigits(out: Out, u: nat, base: int, neg: bool, width: int, f: Flags, g: Flags, conv: Letters,
                     ghost s: string)
    returns (cw: int)
    requires base >= 2 && u < WORD && SignShown(s, neg, base, f) && g.zero == f.zero
    modifies out
    ensures var r := Framed(s, UpToNul(Digits(u, base, conv)), width, g); out.text == old(out.text) + r && cw == |r|
  {
    var buffer, iter := FillBuffer(u, base, conv);
    cw := PrintSigned(out, buffer, iter, neg, base, width, f, g, s, Digits(u, base, conv));
  }

  method PrintNonZero(out: Out, num: int, base: int, sign: bool, width: int, f: Flags, conv: Letters) returns (cw: int)
    requires base >= 2 && LongOk(num, base, sign) && num != 0
    modifies out
    ensures out.text == old(out.text) + Number(num, base, sign, width, f, conv)
    ensures cw == |Number(num, base, sign, width, f, conv)|
  {
    var neg := sign && base == 10 && num < 0;
    var u := if neg then -num else if num < 0 then num + WORD else num;
    var g := if base != 16 then f.(hex := false) else f;
    NumberFramed(num, base, sign, width, f, conv);
    cw := PrintDigits(out, u, base, neg, width, f, g, conv, SignText(num, base, sign, f));
  }

  lemma ZeroNumber(base: int, sign: bool, width: int, f: Flags, conv: Letters)
    requires base >= 2
    ensures Number(0, base, sign, width, f, conv) == Padded("0", width, NumberFlags(f, base))
  {
    assert "" + "0" == "0";
    assert "" + Padded("0", width, NumberFlags(f, base)) == Padded("0", width, NumberFlags(f, base));
  }

  /** `printi`. */
  method PrintNumber(out: Out, num: int, base: int, sign: bool, width: int, f: Flags, conv: Letters) returns (cw: int)
    requires base >= 2 ==> LongOk(num, base, sign)
    modifies out
    ensures base < 2 ==> out.text == old(out.text) && cw == 0
    ensures base >= 2 ==> out.text == old(out.text) + Number(num, base, sign, width, f, conv)
    ensures base >= 2 ==> cw == |Number(num, base, sign, width, f, conv)|
  {
    if base < 2 {
      return 0;
    }
    if num == 0 {
      ZeroNumber(base, sign, width, f, conv);
      cw := PrintString(out, "0", width, if base != 16 then f.(hex := false) else f);
    } else {
      cw := PrintNonZero(out, num, base, sign, width, f, conv);
    }
  }

  // ---------------------------------------------------------------------------
  // print
  // ---------------------------------------------------------------------------

  lemma FlagsSnoc(s: string, i: nat)
    requires i < |s|
    ensures FlagsOf(s[..i + 1]) == AddFlag(FlagsOf(s[..i]), s[i])
  {
    assert s[..i + 1][..i] == s[..i];
  }

  /** The flags stage: returns the flags and how many characters they took. */
  method ParseFlags(s: string) returns (flags: Flags, i: nat)
    requires LenEnd(s) < |s|
    ensures i == FlagEnd(s) && flags == FlagsOf(s[..i])
  {
    flags, i := NoFlags, 0;
    while IsFlag(s[i])
      invariant i <= FlagEnd(s) && flags == FlagsOf(s[..i])
      decreases FlagEnd(s) - i
    {
      FlagsSnoc(s, i);
      flags := AddFlag(flags, s[i]);
      i := i + 1;
    }
  }

  lemma WidthEndFacts(s: string)
    requires LenEnd(s) < |s|
    ensures forall k | FlagEnd(s) <= k < WidthEnd(s) :: IsDec(s[k])
    ensures !IsDec(s[WidthEnd(s)])
  {
    var a := FlagEnd(s);
    var t := s[a..];
    forall k | a <= k < WidthEnd(s) ensures IsDec(s[k]) {
      assert IsDec(t[k - a]);
    }
    assert !IsDec(t[WidthEnd(s) - a]);
  }

  lemma WidthSnoc(s: string, a: nat, i: nat, next: nat)
    requires a <= i < |s| && next == i + 1 && IsDec(s[i])
    ensures Value(s[a..next], 10) == 10 * Value(s[a..i], 10) + (s[i] as int - '0' as int)
  {
    assert s[a..next] == s[a..i] + [s[i]];
    ValueSnoc(s[a..i], s[i], 10);
  }

  /** The width stage: the sum is multiplied by ten only when another digit follows. */
  method ParseWidth(s: string, a: nat) returns (width: int, i: nat)
    requires a == FlagEnd(s) && LenEnd(s) < |s|
    ensures i == WidthEnd(s) && width == Value(s[a..i], 10)
  {
    width, i := 0, a;
    WidthEndFacts(s);
    while IsDec(s[i])
      invariant a <= i <= WidthEnd(s)
      invariant width == if IsDec(s[i]) then 10 * Value(s[a..i], 10) else Value(s[a..i], 10)
      decreases WidthEnd(s) - i
    {
      var next := i + 1;
      WidthSnoc(s, a, i, next);
      width := width + (s[i] as int - '0' as int);
      i := next;
      if IsDec(s[i]) {
        width := width * 10;
      }
    }
  }

  lemma LenEndFacts(s: string)
    requires LenEnd(s) < |s|
    ensures forall k | WidthEnd(s) <= k < LenEnd(s) :: IsLen(s[k])
    ensures !IsLen(s[LenEnd(s)])
  {
    var b := WidthEnd(s);
    var t := s[b..];
    forall k | b <= k < LenEnd(s) ensures IsLen(s[k]) {
      assert IsLen(t[k - b]);
    }
    assert !IsLen(t[LenEnd(s) - b]);
  }

  lemma LenSnoc(s: string, b: nat, i: nat, next: nat)
    requires b <= i < |s| && next == i + 1
    ensures LenOf(s[b..next]) == AddLen(LenOf(s[b..i]), s[i])
  {
    assert s[b..next][..i - b] == s[b..i];
  }

  /** The bit length stage. */
  method ParseLen(s: string, b: nat) returns (len: Len, i: nat)
    requires b == WidthEnd(s) && LenEnd(s) < |s|
    ensures i == LenEnd(s) && len == LenOf(s[b..i])
  {
    len, i := Len(false, false, false), b;
    LenEndFacts(s);
    while IsLen(s[i])
      invariant b <= i <= LenEnd(s) && len == LenOf(s[b..i])
      decreases LenEnd(s) - i
    {
      var next := i + 1;
      LenSnoc(s, b, i, next);
      len := AddLen(len, s[i]);
      i := next;
    }
  }

  /** The stages between the percent sign and the conversion character, and the sanity checks. */
  method ParseDirective(s: string) returns (d: Directive, n: nat)
    requires LenEnd(s) < |s|
    ensures n == LenEnd(s) && d == DirectiveOf(s)
  {
    var flags, a := ParseFlags(s);
    var width, b := ParseWidth(s, a);
    var len, c := ParseLen(s, b);
    if flags.hide && flags.show {
      flags := flags.(hide := false, show := false);
    }
    if len.short && (len.long || len.llong) {
      len := Len(false, false, false);
    }
    if flags.hex && flags.show {
      flags := flags.(hex := false, show := false);
    }
    n := c;
    d := Directive(flags, width, len, s[n]);
  }

  /** The format specifier stage, for a directive that takes an argument. */
  method PrintArgument(out: Out, d: Directive, a: Arg) returns (cw: int)
    requires Accepts(d, a) && Takes(Conversion(d))
    modifies out
    ensures out.text == old(out.text) + RenderDirective(d, a) && cw == |RenderDirective(d, a)|
  {
    var onlyLeft := NoFlags.(left := d.flags.left);
    match d.conv {
      case 's' =>
        cw := PrintString(out, if a.Str? then a.s else "(null)", d.width, onlyLeft);
      case 'c' =>
        cw := PrintString(out, CharText(a.w), d.width, onlyLeft);
      case 'u' =>
        cw := PrintNumber(out, LongOf(d, a.w), 10, false, d.width, d.flags, 'a');
      case 'x' =>
        cw := PrintNumber(out, LongOf(d, a.w), 16, false, d.width, d.flags, 'a');
      case 'X' =>
        cw := PrintNumber(out, LongOf(d, a.w), 16, false, d.width, d.flags, 'A');
      case 'p' =>
        var width := if d.len.llong then 8 else if d.len.short then 4 else 8;
        cw := PrintNumber(out, LongOf(d, a.w), 16, false, width, PointerFlags, 'A');
      case _ =>
        cw := PrintNumber(out, LongOf(d, a.w), 10, true, d.width, d.flags, 'a');
    }
  }

  /** With `done` out, what `rest` and `left` still print completes `total`. */
  predicate Pending(total: string, rest: string, left: seq<Arg>, done: string) {
    Printable(rest, left) && total == done + Output(rest, left)
  }

  lemma EmptyEnds(s: string)
    ensures "" + s == s && s + "" == s
  {
  }

  lemma PendingStart(fmt: string, args: seq<Arg>)
    requires Printable(fmt, args)
    ensures Pending(Output(fmt, args), fmt, args, "")
  {
    EmptyEnds(Output(fmt, args));
  }

  lemma NothingLeft(fmt: string)
    requires fmt == "" || fmt == "%"
    ensures Parse(fmt) == []
  {
  }

  lemma PendingEnd(total: string, rest: string, left: seq<Arg>, done: string)
    requires Pending(total, rest, left, done) && (rest == "" || rest == "%")
    ensures total == done
  {
    NothingLeft(rest);
    EmptyEnds(done);
  }

  /** Printing the first item moves its text from what is to come to what is done. */
  lemma RenderStep(items: seq<Item>, args: seq<Arg>, done: string, todo: string) returns (after: string)
    requires items != [] && Matches(items, args) && todo == Render(items, args)
    ensures Takes(items[0]) ==> args != [] && Accepts(items[0].d, args[0])
    ensures Matches(items[1..], ItemRest(items[0], args)) && after == Render(items[1..], ItemRest(items[0], args))
    ensures done + todo == (done + ItemText(items[0], args)) + after
  {
    after := Render(items[1..], ItemRest(items[0], args));
  }

  /** A format that is not used up starts with an item. */
  lemma PieceFound(fmt: string)
    requires Ending(fmt) != Overrun && fmt != "" && fmt != "%"
    ensures var r := First(fmt);
            && r.Piece? && 0 < r.n <= |fmt| && Parse(fmt) == [r.item] + Parse(fmt[r.n..])
            && Ending(fmt) == Ending(fmt[r.n..])
  {
    if |fmt| == 1 { assert fmt == [fmt[0]]; }
  }

  /** The part of the loop of `print` after a percent sign. */
  method PrintConversion(out: Out, s: string, args: seq<Arg>, ghost expected: Directive)
    returns (n: nat, left: seq<Arg>, cw: int, ghost text: string)
    requires LenEnd(s) < |s| && DirectiveOf(s) == expected
    requires Takes(Conversion(expected)) ==> args != [] && Accepts(expected, args[0])
    modifies out
    ensures n == LenEnd(s)
    ensures text == ItemText(Conversion(expected), args) && left == ItemRest(Conversion(expected), args)
    ensures out.text == old(out.text) + text && cw == |text|
  {
    var d;
    d, n := ParseDirective(s);
    if d.conv == 's' || d.conv == 'c' || IsNumeric(d.conv) {
      cw := PrintArgument(out, d, args[0]);
      left, text := args[1..], RenderDirective(d, args[0]);
    } else {
      cw := out.OutChar(d.conv);
      left, text := args, [d.conv];
    }
  }

  /** A character, `%%` or a directive. */
  method PrintPiece(out: Out, fmt: string, args: seq<Arg>, ghost item: Item)
    returns (rest: string, left: seq<Arg>, cw: int, ghost text: string)
    requires First(fmt).Piece? && First(fmt).item == item
    requires Takes(item) ==> args != [] && Accepts(item.d, args[0])
    modifies out
    ensures rest == fmt[First(fmt).n..]
    ensures text == ItemText(item, args) && left == ItemRest(item, args)
    ensures out.text == old(out.text) + text && cw == |text|
  {
    if fmt[0] != '%' {
      cw := out.OutChar(fmt[0]);
      rest, left, text := fmt[1..], args, [fmt[0]];
    } else if fmt[1] == '%' {
      cw := out.OutChar('%');
      rest, left, text := fmt[2..], args, "%";
    } else {
      var n;
      n, left, cw, text := PrintConversion(out, fmt[1..], args, item.d);
      var end := n + 2;
      assert First(fmt) == FirstDirective(fmt[1..]) && First(fmt).n == end;
      rest := fmt[end..];
    }
  }

  /** One turn of the loop of `print`. */
  method Turn(out: Out, fmt: string, args: seq<Arg>, ghost total: string, ghost done: string)
    returns (rest: string, left: seq<Arg>, cw: int, ghost text: string)
    requires Pending(total, fmt, args, done) && fmt != "" && fmt != "%"
    modifies out
    ensures |rest| < |fmt| && Pending(total, rest, left, done + text)
    ensures out.text == old(out.text) + text && cw == |text|
  {
    ghost var items := Parse(fmt);
    PieceFound(fmt);
    ghost var after := RenderStep(items, args, done, Output(fmt, args));
    rest, left, cw, text := PrintPiece(out, fmt, args, items[0]);
  }

  /** `print`: on every format that does not end inside a directive, and arguments that match it, it
      terminates, emits exactly `Output(fmt, args)` and returns its length. */
  method Print(out: Out, fmt: string, args: seq<Arg>) returns (cw: int)
    requires Printable(fmt, args)
    modifies out
    ensures out.text == old(out.text) + Output(fmt, args) && cw == |Output(fmt, args)|
  {
    var rest, left := fmt, args;
    ghost var total, done := Output(fmt, args), "";
    PendingStart(fmt, args);
    cw := 0;
    while rest != ""
      invariant Pending(total, rest, left, done)
      invariant out.text == old(out.text) + done && cw == |done|
      decreases |rest|
    {
      if rest == "%" {
        break;
      }
      ghost var text;
      var n: int;
      rest, left, n, text := Turn(out, rest, left, total, done);
      done := done + text;
      cw := cw + n;
    }
    PendingEnd(total, rest, left, done);
  }
}
