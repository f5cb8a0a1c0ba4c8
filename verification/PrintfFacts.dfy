/** What formats print, told of their text: plain characters, and each conversion through a reader of numbers that knows
    nothing of the engine. */
module PrintfFacts {
  import opened Division
  import opened Printf
  import opened PrintfFormat

  // ---------------------------------------------------------------------------
  // Plain text
  // ---------------------------------------------------------------------------

  /** The first character of a text is its first item. */
  lemma PlainFirst(t: string)
    requires t != "" && t[0] != '%'
    ensures Parse(t) == [Literal(t[0])] + Parse(t[1..]) && Ending(t) == Ending(t[1..])
  {
    assert First(t) == Piece(Literal(t[0]), 1);
  }

  /** A text without percent signs prints itself and takes no arguments. */
  lemma {:induction false} PlainText(t: string)
    requires '%' !in t && '\0' !in t
    ensures Ending(t) == Closed && Count(Parse(t)) == 0 && Printable(t, [])
    ensures Output(t, []) == t
    decreases |t|
  {
    if t != "" {
      var rest := t[1..];
      assert t[0] in t && forall c <- rest :: c in t;
      PlainText(rest);
      PlainFirst(t);
      assert [t[0]] + rest == t;
    }
  }

  /** `%%` prints a percent sign, and a lone percent sign at the end prints nothing. */
  lemma PercentSigns()
    ensures Printable("%%", []) && Ending("%%") == Closed && Count(Parse("%%")) == 0 && Output("%%", []) == "%"
    ensures Printable("%", []) && Output("%", []) == ""
  {
    assert First("%%") == Piece(Literal('%'), 2) && "%%"[2..] == "";
    assert First("") == Stop(Closed);
    assert Parse("%%") == [Literal('%')] + Parse("");
    assert First("%") == Stop(LonePercent);
  }

  /** Text in front of a format is printed in front. */
  lemma TextThen(t: string, g: string, b: seq<Arg>)
    requires '%' !in t && '\0' !in t && Printable(g, b)
    ensures Printable(t + g, b) && Output(t + g, b) == t + Output(g, b)
  {
    PlainText(t);
    OutputConcat(t, g, [], b);
    assert [] + b == b;
  }

  // ---------------------------------------------------------------------------
  // One directive
  // ---------------------------------------------------------------------------

  predicate FlagText(fs: string) {
    forall c <- fs :: c == '-' || c == '+' || c == ' ' || c == '#' || c == '0'
  }

  /** A width in decimal, without a leading zero, that fits an int. */
  predicate WidthDigits(ws: string) {
    (forall c <- ws :: '0' <= c <= '9') && (ws != "" ==> ws[0] != '0') && Value(ws, 10) < 0x8000_0000
  }

  predicate LengthText(l: string) {
    l == "" || l == "h" || l == "l" || l == "ll"
  }

  lemma {:induction false} DecimalValue(ws: string)
    requires forall c <- ws :: '0' <= c <= '9'
    ensures Value(ws, 10) >= 0
  {
    if ws != "" {
      var t := ws[..|ws| - 1];
      assert forall c <- t :: c in ws;
      assert ws[|ws| - 1] in ws;
      DecimalValue(t);
    }
  }

  /** A character that ends a directive. */
  predicate EndsDirective(c: char) {
    && c != '\0' && c != '%' && c != 'h' && c != 'l' && !('0' <= c <= '9')
    && c != '-' && c != '+' && c != ' ' && c != '#'
  }

  predicate Written(fs: string, ws: string, l: string, c: char) {
    FlagText(fs) && WidthDigits(ws) && LengthText(l) && EndsDirective(c)
  }

  function DirectiveText(fs: string, ws: string, l: string, c: char): string {
    "%" + (fs + (ws + (l + [c])))
  }

  /** What is left of the flags after conflicts: both of a pair go. */
  predicate Hides(fs: string) { ' ' in fs && '+' !in fs }

  predicate ShowsPlus(fs: string) { '+' in fs && ' ' !in fs && '#' !in fs }

  predicate ShowsHex(fs: string) { '#' in fs && ('+' in fs ==> ' ' in fs) }

  function Meant(fs: string, ws: string, l: string, c: char): Directive {
    Directive(Flags('-' in fs, ShowsPlus(fs), Hides(fs), ShowsHex(fs), '0' in fs), Value(ws, 10),
              Len(l == "l" || l == "ll", l == "ll", l == "h"), c)
  }

  /** The stages of the parser find the directive that is written. */
  lemma DirectiveParsed(fs: string, ws: string, l: string, c: char)
    requires Written(fs, ws, l, c)
    ensures var s := fs + (ws + (l + [c]));
            LenEnd(s) == |s| - 1 && DirectiveOf(s) == Meant(fs, ws, l, c)
  {
    LenOfCanonical(l);
    assert forall i | 0 <= i < |fs| :: fs[i] in fs;
    assert forall i | 0 <= i < |ws| :: ws[i] in ws;
    DecimalValue(ws);
    CanonicalDirective(fs, ws, Value(ws, 10), l, c, "");
    assert [c] + "" == [c];
  }

  lemma DirectiveStart(fs: string, ws: string, l: string, c: char)
    requires Written(fs, ws, l, c)
    ensures var t := DirectiveText(fs, ws, l, c);
            |t| > 1 && t[0] == '%' && t[1] != '%' && t[1..] == fs + (ws + (l + [c])) && '\0' !in t
  {
    var s := fs + (ws + (l + [c]));
    assert s[0] == if fs != "" then fs[0] else if ws != "" then ws[0] else if l != "" then l[0] else c;
    assert fs != "" ==> fs[0] in fs;
    assert ws != "" ==> ws[0] in ws;
  }

  lemma NothingScanned(t: string, i: Item)
    requires t != "" && First(t) == Piece(i, |t|)
    ensures Parse(t) == [i] && Ending(t) == Closed
  {
    assert First("") == Stop(Closed);
    assert t[|t|..] == "";
    assert Scan(First, "") == [] && ScanEnd(First, "") == Closed;
    assert Scan(First, t) == [i] + Scan(First, "");
    assert ScanEnd(First, t) == ScanEnd(First, "");
  }

  lemma DirectiveFound(fs: string, ws: string, l: string, c: char)
    requires Written(fs, ws, l, c)
    ensures var t := DirectiveText(fs, ws, l, c);
            Parse(t) == [Conversion(Meant(fs, ws, l, c))] && Ending(t) == Closed && '\0' !in t
  {
    var t := DirectiveText(fs, ws, l, c);
    DirectiveStart(fs, ws, l, c);
    DirectiveParsed(fs, ws, l, c);
    FirstPercent(t);
    assert First(t) == Piece(Conversion(Meant(fs, ws, l, c)), |t|);
    NothingScanned(t, Conversion(Meant(fs, ws, l, c)));
  }

  lemma {:induction false} OneItem(i: Item, args: seq<Arg>)
    requires i.Conversion? && i.d.width < 0x8000_0000
    requires if Takes(i) then |args| == 1 && Accepts(i.d, args[0]) else args == []
    ensures Matches([i], args) && Count([i]) == |args| && Render([i], args) == ItemText(i, args)
  {
    assert [i][1..] == [];
    assert Matches([], ItemRest(i, args));
    assert Render([], ItemRest(i, args)) == "";
    assert ItemText(i, args) + "" == ItemText(i, args);
  }

  /** What a directive with an argument prints. */
  lemma DirectivePrints(fs: string, ws: string, l: string, c: char, a: Arg)
    requires Written(fs, ws, l, c) && (c == 's' || c == 'c' || IsNumeric(c)) && Accepts(Meant(fs, ws, l, c), a)
    ensures var t := DirectiveText(fs, ws, l, c);
            && Printable(t, [a]) && Ending(t) == Closed && Count(Parse(t)) == 1
            && Output(t, [a]) == RenderDirective(Meant(fs, ws, l, c), a)
  {
    var t, i := DirectiveText(fs, ws, l, c), Conversion(Meant(fs, ws, l, c));
    DirectiveFound(fs, ws, l, c);
    OneItem(i, [a]);
  }

  /** A directive in front of a format is printed in front, with its argument. */
  lemma DirectiveThen(fs: string, ws: string, l: string, c: char, a: Arg, g: string, b: seq<Arg>)
    requires Written(fs, ws, l, c) && (c == 's' || c == 'c' || IsNumeric(c)) && Accepts(Meant(fs, ws, l, c), a)
    requires Printable(g, b)
    ensures var t := DirectiveText(fs, ws, l, c);
            Printable(t, [a]) && Printable(t + g, [a] + b) && Output(t + g, [a] + b) == Output(t, [a]) + Output(g, b)
  {
    DirectivePrints(fs, ws, l, c, a);
    OutputConcat(DirectiveText(fs, ws, l, c), g, [a], b);
  }

  // ---------------------------------------------------------------------------
  // The text of a number
  // ---------------------------------------------------------------------------

  /** `d` is `u` written in base 10 or 16, in small letters or capitals, without a leading zero. */
  predicate Numeral(d: string, base: int, conv: Letters, u: int) {
    && d != "" && (d[0] == '0' ==> d == "0") && AllDigits(d, base) && Value(d, base) == u
    && forall i | 0 <= i < |d| :: InCase(d[i], conv)
  }

  /** `t` is sign, prefix and numeral in a field: with zeros in front of the numeral, or spaces behind it, or
      spaces in front of everything. The prefix does not count in the width. */
  predicate InNumberField(t: string, sgn: string, px: string, d: string, width: int, zero: bool, left: bool) {
    var n := |sgn| + |d|;
    var pad := if width > n then width - n else 0;
    var p, z, q := if zero || left then 0 else pad, if zero then pad else 0, if left && !zero then pad else 0;
    t == Repeat(' ', p) + (sgn + (px + ((Repeat('0', z) + d) + Repeat(' ', q))))
  }

  /** `t` is `v` with its sign in such a field. */
  ghost predicate Shows(t: string, base: int, conv: Letters, v: int, sgn: string, px: string, width: int,
                        zero: bool, left: bool)
  {
    exists d: string ::
      Numeral(d, base, conv, if v < 0 then -v else v) && InNumberField(t, sgn, px, d, width, zero, left)
  }

  lemma {:induction false} DigitsHead(u: nat, base: int, conv: Letters)
    requires BaseOk(base) && u > 0
    ensures Digits(u, base, conv) != "" && Digits(u, base, conv)[0] != '0'
    decreases u
  {
    var q, r := Quot(u, base), Rem(u, base);
    QuotRem(u, base);
    if q > 0 {
      DigitsHead(q, base, conv);
    } else {
      assert q * base == 0 && r == u && Digits(q, base, conv) == "";
      assert DigitValue(DigitChar(r, conv)) == r;
    }
  }

  lemma DigitTextNumeral(num: int, base: int, sign: bool, conv: Letters)
    requires BaseOk(base) && LongOk(num, base, sign)
    ensures Numeral(DigitText(num, base, sign, conv), base, conv, Magnitude(num, base, sign))
  {
    var d, u := DigitText(num, base, sign, conv), Magnitude(num, base, sign);
    DigitTextReads(num, base, sign, conv);
    if num != 0 {
      DigitsHead(u, base, conv);
      DigitsWhole(u, base, conv);
    }
    forall i | 0 <= i < |d| ensures InCase(d[i], conv) {
      DigitTextCase(num, base, sign, conv, d[i]);
    }
  }

  lemma NumberInField(num: int, base: int, sign: bool, width: int, f: Flags, conv: Letters)
    requires base >= 2 && LongOk(num, base, sign)
    ensures InNumberField(Number(num, base, sign, width, f, conv), SignText(num, base, sign, f),
                          Prefix(NumberFlags(f, base)), DigitText(num, base, sign, conv), width, f.zero, f.left)
  {
    var p, z, q := NumberShape(num, base, sign, width, f, conv);
  }

  /** The sign and the prefix. */
  lemma SignAndPrefix(num: int, base: int, sign: bool, f: Flags)
    ensures SignText(num, base, sign, f) ==
            if base != 10 || num == 0 || f.hide then ""
            else if sign && num < 0 then "-" else if f.show then "+" else ""
    ensures Prefix(NumberFlags(f, base)) == if base == 16 && f.hex then "0x" else ""
  {
  }

  /** Every printed number, in base 10 with its sign, and in base 16 with its prefix. */
  lemma NumberShows(num: int, base: int, sign: bool, width: int, f: Flags, conv: Letters, sgn: string, px: string)
    requires (base == 10 || base == 16) && LongOk(num, base, sign)
    requires sgn == if base != 10 || num == 0 || f.hide then ""
                    else if sign && num < 0 then "-" else if f.show then "+" else ""
    requires px == if base == 16 && f.hex then "0x" else ""
    ensures Shows(Number(num, base, sign, width, f, conv), base, conv, Magnitude(num, base, sign), sgn, px, width,
                  f.zero, f.left)
  {
    NumberInField(num, base, sign, width, f, conv);
    SignAndPrefix(num, base, sign, f);
    DigitTextNumeral(num, base, sign, conv);
  }

  // ---------------------------------------------------------------------------
  // Numbers
  // ---------------------------------------------------------------------------

  /** The size of the argument that is read, as a number of values. */
  function Values(l: string): int {
    if l == "h" then 0x1_0000 else 0x1_0000_0000
  }

  /** `v` is the signed reading of the low bits of `x`. */
  predicate SignedReading(l: string, x: int, v: int) {
    (v - x) % Values(l) == 0 && -Values(l) <= 2 * v < Values(l)
  }

  predicate UnsignedReading(l: string, x: int, v: int) {
    (v - x) % Values(l) == 0 && 0 <= v < Values(l)
  }

  lemma SignedIsLong(fs: string, ws: string, l: string, c: char, x: int, v: int)
    requires 0 <= x < WORD && SignedReading(l, x, v) && (c == 'd' || c == 'i')
    ensures LongOf(Meant(fs, ws, l, c), x) == v
  {
    if l == "h" {
      assert v - x == 0x1_0000 * ((v - x) / 0x1_0000);
    } else {
      assert v - x == WORD * ((v - x) / WORD);
    }
  }

  lemma SignedRendered(d: Directive, x: int, v: int)
    requires (d.conv == 'd' || d.conv == 'i') && Accepts(d, Num(x)) && LongOf(d, x) == v
    ensures LongOk(v, 10, true) && RenderDirective(d, Num(x)) == Number(v, 10, true, d.width, d.flags, 'a')
  {
  }

  lemma SignedText(v: int, width: int, f: Flags)
    requires LongOk(v, 10, true)
    ensures var t := Number(v, 10, true, width, f, 'a');
            && Readable(t, 10) && Read(t, 10) == (if f.hide && v < 0 then -v else v)
            && ('-' in t <==> v < 0 && !f.hide) && ('+' in t <==> v > 0 && f.show && !f.hide)
    ensures var sgn := if v == 0 || f.hide then "" else if v < 0 then "-" else if f.show then "+" else "";
            Shows(Number(v, 10, true, width, f, 'a'), 10, 'a', v, sgn, "", width, f.zero, f.left)
  {
    NumberReadsBack(v, 10, true, width, f, 'a');
    NumberMarks(v, 10, true, width, f, 'a');
    var sgn := if v == 0 || f.hide then "" else if v < 0 then "-" else if f.show then "+" else "";
    NumberShows(v, 10, true, width, f, 'a', sgn, "");
  }

  /** `%d` and `%i` print the signed reading of the argument in decimal. */
  lemma {:induction false} SignedDirective(fs: string, ws: string, l: string, c: char, x: int, v: int)
    requires Written(fs, ws, l, c) && (c == 'd' || c == 'i')
    requires 0 <= x < 0x1_0000_0000 && SignedReading(l, x, v) && v != -0x8000_0000
    ensures Printable(DirectiveText(fs, ws, l, c), [Num(x)])
    ensures var t := Output(DirectiveText(fs, ws, l, c), [Num(x)]);
            && Readable(t, 10) && Read(t, 10) == (if Hides(fs) && v < 0 then -v else v)
            && ('-' in t <==> v < 0 && !Hides(fs)) && ('+' in t <==> v > 0 && ShowsPlus(fs))
    ensures var sgn := if v == 0 || Hides(fs) then "" else if v < 0 then "-" else if ShowsPlus(fs) then "+" else "";
            Shows(Output(DirectiveText(fs, ws, l, c), [Num(x)]), 10, 'a', v, sgn, "", Value(ws, 10),
                  '0' in fs, '-' in fs)
  {
    var d := Meant(fs, ws, l, c);
    SignedIsLong(fs, ws, l, c, x, v);
    DirectivePrints(fs, ws, l, c, Num(x));
    SignedRendered(d, x, v);
    SignedText(v, d.width, d.flags);
  }

  lemma UnsignedIsLong(fs: string, ws: string, l: string, c: char, x: int, v: int)
    requires 0 <= x < WORD && UnsignedReading(l, x, v) && c != 'd' && c != 'i'
    ensures var n := LongOf(Meant(fs, ws, l, c), x);
            && LongOk(n, 10, false) && LongOk(n, 16, false) && (n == 0 <==> v == 0)
            && Magnitude(n, 10, false) == v && Magnitude(n, 16, false) == v
  {
    if l == "h" {
      assert v - x == 0x1_0000 * ((v - x) / 0x1_0000);
    } else {
      assert v - x == WORD * ((v - x) / WORD);
    }
  }

  /** `%u` prints the unsigned reading of the argument in decimal. */
  lemma {:induction false} UnsignedDirective(fs: string, ws: string, l: string, x: int, v: int)
    requires Written(fs, ws, l, 'u') && 0 <= x < 0x1_0000_0000 && UnsignedReading(l, x, v)
    ensures Printable(DirectiveText(fs, ws, l, 'u'), [Num(x)])
    ensures var t := Output(DirectiveText(fs, ws, l, 'u'), [Num(x)]);
            && Readable(t, 10) && Read(t, 10) == v && '-' !in t && ('+' in t <==> v > 0 && ShowsPlus(fs))
            && Shows(t, 10, 'a', v, if v > 0 && ShowsPlus(fs) then "+" else "", "", Value(ws, 10), '0' in fs, '-' in fs)
  {
    var d := Meant(fs, ws, l, 'u');
    var n := LongOf(d, x);
    UnsignedIsLong(fs, ws, l, 'u', x, v);
    DirectivePrints(fs, ws, l, 'u', Num(x));
    NumberReadsBack(n, 10, false, d.width, d.flags, 'a');
    NumberMarks(n, 10, false, d.width, d.flags, 'a');
    NumberShows(n, 10, false, d.width, d.flags, 'a', if v > 0 && ShowsPlus(fs) then "+" else "", "");
  }

  /** `%x` and `%X` print it in base 16, in small letters and in capitals; the prefix is `0x` in both. */
  lemma {:induction false} HexDirective(fs: string, ws: string, l: string, c: char, x: int, v: int)
    requires Written(fs, ws, l, c) && (c == 'x' || c == 'X') && 0 <= x < 0x1_0000_0000 && UnsignedReading(l, x, v)
    ensures Printable(DirectiveText(fs, ws, l, c), [Num(x)])
    ensures var t := Output(DirectiveText(fs, ws, l, c), [Num(x)]);
            && Readable(t, 16) && Read(t, 16) == v && '-' !in t && '+' !in t && ('x' in t <==> ShowsHex(fs))
            && (c == 'x' ==> forall k <- t :: !('A' <= k <= 'Z'))
            && (c == 'X' ==> forall k <- t :: 'a' <= k <= 'z' ==> k == 'x')
            && Shows(t, 16, if c == 'x' then 'a' else 'A', v, "", if ShowsHex(fs) then "0x" else "", Value(ws, 10),
                     '0' in fs, '-' in fs)
  {
    var d, conv: Letters := Meant(fs, ws, l, c), if c == 'x' then 'a' else 'A';
    var n := LongOf(d, x);
    UnsignedIsLong(fs, ws, l, c, x, v);
    DirectivePrints(fs, ws, l, c, Num(x));
    NumberReadsBack(n, 16, false, d.width, d.flags, conv);
    NumberMarks(n, 16, false, d.width, d.flags, conv);
    NumberShows(n, 16, false, d.width, d.flags, conv, "", if ShowsHex(fs) then "0x" else "");
    forall k <- Number(n, 16, false, d.width, d.flags, conv)
      ensures conv == 'a' ==> !('A' <= k <= 'Z')
      ensures conv == 'A' ==> 'a' <= k <= 'z' ==> k == 'x'
    {
      NumberCase(n, 16, false, d.width, d.flags, conv, k);
    }
  }

  // ---------------------------------------------------------------------------
  // Pointers
  // ---------------------------------------------------------------------------

  lemma {:induction false} QuotBelow(u: nat, base: int, p: nat)
    requires base >= 2 && u < base * p
    ensures Quot(u, base) < p
  {
    var q := Quot(u, base);
    QuotRem(u, base);
    if q >= p { TimesMonotone(base, p, q); }
  }

  lemma {:induction false} DigitsWithin(u: nat, base: int, conv: Letters, k: nat)
    requires base >= 2 && u < Power(base, k)
    ensures |Digits(u, base, conv)| <= k
    decreases k
  {
    if u > 0 {
      assert Power(base, k) == base * Power(base, k - 1);
      QuotBelow(u, base, Power(base, k - 1));
      DigitsWithin(Quot(u, base), base, conv, k - 1);
    }
  }

  lemma HexPowers()
    ensures Power(16, 4) == 0x1_0000 && Power(16, 8) == 0x1_0000_0000
  {
    assert Power(16, 0) == 1 && Power(16, 1) == 16;
    assert Power(16, 2) == 0x100;
    PowerAdd(16, 2, 2);
    PowerAdd(16, 4, 4);
  }

  /** The digits of a pointer fit its width. */
  lemma PointerDigits(n: int, width: int, v: int)
    requires LongOk(n, 16, false) && Magnitude(n, 16, false) == v
    requires (width == 4 && v < 0x1_0000) || (width == 8 && v < 0x1_0000_0000)
    ensures var d := DigitText(n, 16, false, 'A');
            |d| <= width && forall i | 0 <= i < |d| :: '0' <= d[i] <= '9' || 'A' <= d[i] <= 'F'
  {
    var d := DigitText(n, 16, false, 'A');
    HexPowers();
    DigitsWithin(v, 16, 'A', width);
    DigitsWhole(v, 16, 'A');
    DigitTextReads(n, 16, false, 'A');
    forall i | 0 <= i < |d| ensures '0' <= d[i] <= '9' || 'A' <= d[i] <= 'F' {
      assert d[i] in d && IsDigitOf(d[i], 16);
      DigitTextCase(n, 16, false, 'A', d[i]);
    }
  }

  lemma PointerPlaces(n: int, width: int, d: string)
    requires LongOk(n, 16, false) && d == DigitText(n, 16, false, 'A') && |d| <= width
    ensures var t := Number(n, 16, false, width, PointerFlags, 'A');
            && |t| == 2 + width && t[..2] == "0x"
            && (forall i | 2 <= i < 2 + width - |d| :: t[i] == '0') && t[2 + width - |d|..] == d
  {
    PaddedPlaces(d, width, PointerFlags);
    assert "" + Padded(d, width, PointerFlags) == Padded(d, width, PointerFlags);
  }

  /** `0x` and capital hex digits, `length` characters in all, that read as `v`. */
  predicate PointerLike(t: string, length: nat, v: int) {
    && |t| == length >= 2 && t[..2] == "0x" && Readable(t, 16) && Read(t, 16) == v
    && forall i | 2 <= i < |t| :: '0' <= t[i] <= '9' || 'A' <= t[i] <= 'F'
  }

  lemma PointerText(n: int, width: int, v: int)
    requires LongOk(n, 16, false) && Magnitude(n, 16, false) == v
    requires (width == 4 && v < 0x1_0000) || (width == 8 && v < 0x1_0000_0000)
    ensures var t := Number(n, 16, false, width, PointerFlags, 'A');
            PointerLike(t, 2 + width, v)
  {
    var d, t := DigitText(n, 16, false, 'A'), Number(n, 16, false, width, PointerFlags, 'A');
    PointerDigits(n, width, v);
    PointerPlaces(n, width, d);
    NumberReadsBack(n, 16, false, width, PointerFlags, 'A');
    var first := 2 + width - |d|;
    forall i | 2 <= i < |t| ensures '0' <= t[i] <= '9' || 'A' <= t[i] <= 'F' {
      if i >= first { assert t[i] == t[first..][i - first]; }
    }
  }

  lemma PointerRendered(d: Directive, x: int, n: int, width: int)
    requires d.conv == 'p' && Accepts(d, Num(x)) && LongOf(d, x) == n && LongOk(n, 16, false)
    requires width == if d.len.short && !d.len.llong then 4 else 8
    ensures RenderDirective(d, Num(x)) == Number(n, 16, false, width, PointerFlags, 'A')
  {
  }

  /** `%p` prints `0x` and then eight capital hex digits, or four for a short argument, whatever flags and width are
      written. */
  lemma PointerDirective(fs: string, ws: string, l: string, x: int, v: int)
    requires Written(fs, ws, l, 'p') && 0 <= x < 0x1_0000_0000 && UnsignedReading(l, x, v)
    ensures Printable(DirectiveText(fs, ws, l, 'p'), [Num(x)])
    ensures var t := Output(DirectiveText(fs, ws, l, 'p'), [Num(x)]);
            PointerLike(t, if l == "h" then 6 else 10, v)
  {
    var d, width := Meant(fs, ws, l, 'p'), if l == "h" then 4 else 8;
    var n := LongOf(d, x);
    UnsignedIsLong(fs, ws, l, 'p', x, v);
    DirectivePrints(fs, ws, l, 'p', Num(x));
    PointerRendered(d, x, n, width);
    PointerText(n, width, v);
  }

  // ---------------------------------------------------------------------------
  // Strings, characters and the rest
  // ---------------------------------------------------------------------------

  /** `t` is `s` with spaces up to the width: behind it with the flag `-`, and in front without. */
  predicate InField(t: string, s: string, fs: string, ws: string) {
    var w := Value(ws, 10);
    var pad := if w > |s| then w - |s| else 0;
    && |t| == |s| + pad
    && ('-' in fs ==> t[..|s|] == s && forall i | |s| <= i < |t| :: t[i] == ' ')
    && ('-' !in fs ==> t[pad..] == s && forall i | 0 <= i < pad :: t[i] == ' ')
  }

  /** `%s` prints the string, or `(null)`, in its field; of the flags only `-` counts. */
  lemma StringDirective(fs: string, ws: string, l: string, s: string)
    requires Written(fs, ws, l, 's') && '\0' !in s
    ensures var f := DirectiveText(fs, ws, l, 's');
            && Printable(f, [Str(s)]) && InField(Output(f, [Str(s)]), s, fs, ws)
            && Printable(f, [Null]) && InField(Output(f, [Null]), "(null)", fs, ws)
  {
    var d := Meant(fs, ws, l, 's');
    DirectivePrints(fs, ws, l, 's', Str(s));
    DirectivePrints(fs, ws, l, 's', Null);
    PaddedPlaces(s, d.width, NoFlags.(left := d.flags.left));
    PaddedPlaces("(null)", d.width, NoFlags.(left := d.flags.left));
  }

  /** `%c` prints the low byte of the argument in its field, and for a NUL only the field. */
  lemma CharDirective(fs: string, ws: string, l: string, x: int)
    requires Written(fs, ws, l, 'c') && 0 <= x < 0x1_0000_0000
    ensures var f := DirectiveText(fs, ws, l, 'c');
            Printable(f, [Num(x)]) &&
            InField(Output(f, [Num(x)]), if x % 256 == 0 then "" else [(x % 256) as char], fs, ws)
  {
    var d := Meant(fs, ws, l, 'c');
    DirectivePrints(fs, ws, l, 'c', Num(x));
    PaddedPlaces(CharText(x), d.width, NoFlags.(left := d.flags.left));
  }

  /** Any other character prints itself and takes no argument. */
  lemma UnknownDirective(fs: string, ws: string, l: string, c: char)
    requires Written(fs, ws, l, c)
    requires c != 's' && c != 'c' && c != 'd' && c != 'i' && c != 'u' && c != 'x' && c != 'X' && c != 'p'
    ensures var f := DirectiveText(fs, ws, l, c);
            Printable(f, []) && Ending(f) == Closed && Count(Parse(f)) == 0 && Output(f, []) == [c]
  {
    var i := Conversion(Meant(fs, ws, l, c));
    DirectiveFound(fs, ws, l, c);
    OneItem(i, []);
  }
}
