/** Format strings of src/libc/stdio.c: the directive parser and what a whole format prints. */
module PrintfFormat {
  import opened Printf

  // ---------------------------------------------------------------------------
  // Directives
  // ---------------------------------------------------------------------------

  /** The length flags DATA_LONG, DATA_LLGN, DATA_SHRT. */
  datatype Len = Len(long: bool, llong: bool, short: bool)

  datatype Directive = Directive(flags: Flags, width: int, len: Len, conv: char)

  predicate IsFlag(c: char) { c == '-' || c == '+' || c == ' ' || c == '#' || c == '0' }

  predicate IsDec(c: char) { '0' <= c <= '9' }

  predicate IsLen(c: char) { c == 'h' || c == 'l' }

  /** How many leading characters of `s` satisfy `p`. */
  function Run(p: char -> bool, s: string): (n: nat)
    ensures n <= |s|
    ensures forall i | 0 <= i < n :: p(s[i])
    ensures n < |s| ==> !p(s[n])
  {
    if s != "" && p(s[0]) then 1 + Run(p, s[1..]) else 0
  }

  function AddFlag(f: Flags, c: char): Flags {
    if c == '-' then f.(left := true)
    else if c == '+' then f.(show := true)
    else if c == ' ' then f.(hide := true)
    else if c == '#' then f.(hex := true)
    else if c == '0' then f.(zero := true)
    else f
  }

  /** The flags stage, over the flag characters `s`. */
  function FlagsOf(s: string): Flags {
    if s == "" then NoFlags else AddFlag(FlagsOf(s[..|s| - 1]), s[|s| - 1])
  }

  function AddLen(l: Len, c: char): Len {
    if c == 'h' then l.(short := true)
    else if c == 'l' then (if l.long then l.(llong := true) else l.(long := true))
    else l
  }

  /** The bit length stage. */
  function LenOf(s: string): Len {
    if s == "" then Len(false, false, false) else AddLen(LenOf(s[..|s| - 1]), s[|s| - 1])
  }

  /** The resolution of conflicting flags, in the order of the code. */
  function Resolve(f: Flags): (r: Flags)
    ensures !(r.hide && r.show) && !(r.hex && r.show)
    ensures r.left == f.left && r.zero == f.zero
    ensures !(f.hide && f.show) && !(f.hex && f.show) ==> r == f
    ensures f.hide && f.show ==> !r.hide && !r.show && r.hex == f.hex
    ensures f.hex && f.show && !f.hide ==> !r.hex && !r.show && !r.hide
  {
    var g := if f.hide && f.show then f.(hide := false, show := false) else f;
    if g.hex && g.show then g.(hex := false, show := false) else g
  }

  function ResolveLen(l: Len): (r: Len)
    ensures !(r.short && (r.long || r.llong))
    ensures r == if l.short && (l.long || l.llong) then Len(false, false, false) else l
  {
    if l.short && (l.long || l.llong) then Len(false, false, false) else l
  }

  /** Where the stages of the directive text `s` (after the percent sign) end. */
  function FlagEnd(s: string): (n: nat) ensures n <= |s| { Run(IsFlag, s) }

  function WidthEnd(s: string): (n: nat) ensures FlagEnd(s) <= n <= |s| { FlagEnd(s) + Run(IsDec, s[FlagEnd(s)..]) }

  function LenEnd(s: string): (n: nat) ensures WidthEnd(s) <= n <= |s| { WidthEnd(s) + Run(IsLen, s[WidthEnd(s)..]) }

  /** A directive from the texts of its four stages. */
  function Assemble(flags: string, width: string, len: string, conv: char): Directive {
    Directive(Resolve(FlagsOf(flags)), Value(width, 10), ResolveLen(LenOf(len)), conv)
  }

  /** The directive whose conversion character is at `LenEnd(s)`. */
  function DirectiveOf(s: string): Directive
    requires LenEnd(s) < |s|
  {
    Assemble(s[..FlagEnd(s)], s[FlagEnd(s)..WidthEnd(s)], s[WidthEnd(s)..LenEnd(s)], s[LenEnd(s)])
  }

  // ---------------------------------------------------------------------------
  // Whole formats
  // ---------------------------------------------------------------------------

  datatype Item = Literal(c: char) | Conversion(d: Directive)

  /** How a format ends: properly, with a lone percent sign (the code stops there), or inside a directive
      (the code steps past the terminator). */
  datatype End = Closed | LonePercent | Overrun

  /** The first item and how many characters it takes, or how the format stops. */
  datatype Piece = Piece(item: Item, n: nat) | Stop(end: End)

  /** A directive text, after the percent sign. */
  function FirstDirective(s: string): (r: Piece)
    ensures r.Piece? ==> 0 < r.n <= |s| + 1
  {
    if LenEnd(s) == |s| then Stop(Overrun) else Piece(Conversion(DirectiveOf(s)), LenEnd(s) + 2)
  }

  function First(fmt: string): (r: Piece)
    ensures r.Piece? ==> 0 < r.n <= |fmt|
  {
    if fmt == "" then Stop(Closed)
    else if fmt[0] != '%' then Piece(Literal(fmt[0]), 1)
    else if |fmt| == 1 then Stop(LonePercent)
    else if fmt[1] == '%' then Piece(Literal('%'), 2)
    else FirstDirective(fmt[1..])
  }

  /** The items that repeated steps find. */
  function Scan(step: string -> Piece, fmt: string): seq<Item>
    decreases |fmt|
  {
    var r := step(fmt);
    if r.Piece? && 0 < r.n <= |fmt| then [r.item] + Scan(step, fmt[r.n..]) else []
  }

  /** How repeated steps stop. */
  function ScanEnd(step: string -> Piece, fmt: string): End
    decreases |fmt|
  {
    var r := step(fmt);
    if r.Stop? then r.end else if 0 < r.n <= |fmt| then ScanEnd(step, fmt[r.n..]) else Overrun
  }

  /** The items of a format. */
  function Parse(fmt: string): seq<Item> { Scan(First, fmt) }

  function Ending(fmt: string): End { ScanEnd(First, fmt) }

  // ---------------------------------------------------------------------------
  // Arguments and rendering
  // ---------------------------------------------------------------------------

  /** An argument word, or the string it points to. */
  datatype Arg = Num(w: int) | Str(s: string) | Null

  predicate IsNumeric(c: char) {
    c == 'd' || c == 'i' || c == 'u' || c == 'x' || c == 'X' || c == 'p'
  }

  predicate Takes(i: Item) {
    i.Conversion? && (i.d.conv == 's' || i.d.conv == 'c' || IsNumeric(i.d.conv))
  }

  function Signed32(w: int): int { if w < 0x8000_0000 then w else w - WORD }

  /** The argument of a numeric directive as the long that `printi` gets. */
  function LongOf(d: Directive, w: int): int {
    if !d.len.short then Signed32(w)
    else
      var h := w % 0x1_0000;
      if (d.conv == 'd' || d.conv == 'i') && h >= 0x8000 then h - 0x1_0000 else h
  }

  predicate SignedConv(c: char) { c == 'd' || c == 'i' }

  /** What C requires of an argument: the right kind, and no least integer for a signed directive. */
  predicate Accepts(d: Directive, a: Arg) {
    if d.conv == 's' then a.Null? || (a.Str? && '\0' !in a.s)
    else if d.conv == 'c' then a.Num? && 0 <= a.w < WORD
    else a.Num? && 0 <= a.w < WORD && (SignedConv(d.conv) ==> LongOf(d, a.w) != -0x8000_0000)
  }

  predicate Matches(items: seq<Item>, args: seq<Arg>)
    decreases |items|
  {
    if items == [] then true
    else
      && (items[0].Conversion? ==> items[0].d.width < 0x8000_0000)
      && if Takes(items[0]) then args != [] && Accepts(items[0].d, args[0]) && Matches(items[1..], args[1..])
         else Matches(items[1..], args)
  }

  function CharText(w: int): string
    requires 0 <= w
  {
    if w % 256 == 0 then "" else [(w % 256) as char]
  }

  const PointerFlags := Flags(false, false, false, true, true)

  /** What one directive prints. */
  function RenderDirective(d: Directive, a: Arg): string
    requires Accepts(d, a) && (d.conv == 's' || d.conv == 'c' || IsNumeric(d.conv))
  {
    var onlyLeft := NoFlags.(left := d.flags.left);
    match d.conv
    case 's' => Padded(if a.Str? then a.s else "(null)", d.width, onlyLeft)
    case 'c' => Padded(CharText(a.w), d.width, onlyLeft)
    case 'u' => Number(LongOf(d, a.w), 10, false, d.width, d.flags, 'a')
    case 'x' => Number(LongOf(d, a.w), 16, false, d.width, d.flags, 'a')
    case 'X' => Number(LongOf(d, a.w), 16, false, d.width, d.flags, 'A')
    case 'p' => Number(LongOf(d, a.w), 16, false, if d.len.short && !d.len.llong then 4 else 8, PointerFlags, 'A')
    case _ => Number(LongOf(d, a.w), 10, true, d.width, d.flags, 'a')
  }

  /** An unknown conversion character prints itself. */
  function LiteralChar(i: Item): char {
    if i.Literal? then i.c else i.d.conv
  }

  /** What one item prints and the arguments it leaves. */
  function ItemText(i: Item, args: seq<Arg>): string
    requires Takes(i) ==> args != [] && Accepts(i.d, args[0])
  {
    if Takes(i) then RenderDirective(i.d, args[0]) else [LiteralChar(i)]
  }

  function ItemRest(i: Item, args: seq<Arg>): seq<Arg>
    requires Takes(i) ==> args != []
  {
    if Takes(i) then args[1..] else args
  }

  function Render(items: seq<Item>, args: seq<Arg>): string
    requires Matches(items, args)
    decreases |items|
  {
    if items == [] then ""
    else ItemText(items[0], args) + Render(items[1..], ItemRest(items[0], args))
  }

  /** A format (the characters before its terminator) and arguments `print` may be called with. */
  predicate Printable(fmt: string, args: seq<Arg>) {
    '\0' !in fmt && Ending(fmt) != Overrun && Matches(Parse(fmt), args)
  }

  /** What `print` emits. */
  function Output(fmt: string, args: seq<Arg>): string
    requires Printable(fmt, args)
  {
    Render(Parse(fmt), args)
  }

  // ---------------------------------------------------------------------------
  // Formatting is compositional
  // ---------------------------------------------------------------------------

  /** A run that stops inside `x` is not affected by what follows. */
  lemma {:induction false} RunPrefix(p: char -> bool, x: string, y: string)
    requires Run(p, x) < |x|
    ensures Run(p, x + y) == Run(p, x)
    decreases |x|
  {
    assert (x + y)[0] == x[0] && (x + y)[1..] == x[1..] + y;
    if p(x[0]) { RunPrefix(p, x[1..], y); }
  }

  lemma WidthEndPrefix(x: string, y: string)
    requires WidthEnd(x) < |x|
    ensures FlagEnd(x + y) == FlagEnd(x) && WidthEnd(x + y) == WidthEnd(x)
  {
    RunPrefix(IsFlag, x, y);
    var a := FlagEnd(x);
    assert (x + y)[a..] == x[a..] + y;
    RunPrefix(IsDec, x[a..], y);
  }

  lemma StagesPrefix(x: string, y: string)
    requires LenEnd(x) < |x|
    ensures FlagEnd(x + y) == FlagEnd(x) && WidthEnd(x + y) == WidthEnd(x) && LenEnd(x + y) == LenEnd(x)
  {
    WidthEndPrefix(x, y);
    var b := WidthEnd(x);
    assert (x + y)[b..] == x[b..] + y;
    RunPrefix(IsLen, x[b..], y);
  }

  lemma SlicePrefix(x: string, y: string, i: nat, j: nat)
    requires i <= j <= |x|
    ensures (x + y)[i..j] == x[i..j]
  {
  }

  lemma DirectivePrefix(x: string, y: string)
    requires LenEnd(x) < |x|
    ensures LenEnd(x + y) == LenEnd(x) && DirectiveOf(x + y) == DirectiveOf(x)
  {
    StagesPrefix(x, y);
    var a, b, c := FlagEnd(x), WidthEnd(x), LenEnd(x);
    SlicePrefix(x, y, 0, a); SlicePrefix(x, y, a, b); SlicePrefix(x, y, b, c);
  }

  lemma FirstDirectivePrefix(x: string, y: string)
    requires FirstDirective(x).Piece?
    ensures FirstDirective(x + y) == FirstDirective(x)
  {
    DirectivePrefix(x, y);
  }

  lemma FirstPercent(fmt: string)
    requires |fmt| > 1 && fmt[0] == '%' && fmt[1] != '%'
    ensures First(fmt) == FirstDirective(fmt[1..])
  {
  }

  lemma TailConcat(f: string, g: string)
    requires |f| > 1
    ensures (f + g)[1..] == f[1..] + g && (f + g)[0] == f[0] && (f + g)[1] == f[1]
  {
  }

  lemma FirstDirectiveConcat(f: string, g: string)
    requires |f| > 1 && f[0] == '%' && f[1] != '%' && FirstDirective(f[1..]).Piece?
    ensures First(f + g) == First(f)
  {
    TailConcat(f, g);
    FirstPercent(f);
    FirstPercent(f + g);
    FirstDirectivePrefix(f[1..], g);
  }

  lemma FirstConcat(f: string, g: string)
    requires First(f).Piece?
    ensures First(f + g) == First(f)
  {
    if f[0] == '%' && f[1] != '%' {
      FirstPercent(f);
      FirstDirectiveConcat(f, g);
    }
  }

  /** A step that finds an item finds the same one whatever follows, and only the empty text is closed. */
  ghost predicate Stable(step: string -> Piece) {
    && (forall x: string, y: string {:trigger step(x + y)} :: step(x).Piece? ==> step(x + y) == step(x))
    && (forall x: string :: step(x) == Stop(Closed) ==> x == "")
  }

  lemma FirstStable()
    ensures Stable(First)
  {
    forall x: string, y: string {:trigger First(x + y)} ensures First(x).Piece? ==> First(x + y) == First(x) {
      if First(x).Piece? { FirstConcat(x, y); }
    }
  }

  lemma ConsAppend(i: Item, x: seq<Item>, y: seq<Item>)
    ensures [i] + (x + y) == ([i] + x) + y
  {
  }

  /** A closed text can be followed by any other. */
  lemma {:induction false} ScanConcat(step: string -> Piece, f: string, g: string)
    requires Stable(step) && ScanEnd(step, f) == Closed
    ensures Scan(step, f + g) == Scan(step, f) + Scan(step, g) && ScanEnd(step, f + g) == ScanEnd(step, g)
    decreases |f|
  {
    if step(f).Stop? {
      assert f + g == g;
    } else {
      var n, h := step(f).n, f + g;
      assert step(h) == step(f);
      var rest := f[n..];
      assert h[n..] == rest + g;
      ScanConcat(step, rest, g);
      ConsAppend(step(f).item, Scan(step, rest), Scan(step, g));
    }
  }

  lemma ParseConcat(f: string, g: string)
    requires Ending(f) == Closed
    ensures Parse(f + g) == Parse(f) + Parse(g) && Ending(f + g) == Ending(g)
  {
    FirstStable();
    ScanConcat(First, f, g);
  }

  /** How many arguments the items take. */
  function Count(items: seq<Item>): nat {
    if items == [] then 0 else (if Takes(items[0]) then 1 else 0) + Count(items[1..])
  }

  lemma SplitConcat<T>(x: seq<T>, y: seq<T>)
    requires x != []
    ensures (x + y)[0] == x[0] && (x + y)[1..] == x[1..] + y
  {
  }

  /** An item prints the same, and leaves as many arguments more, when more arguments follow. */
  lemma ItemConcat(i: Item, a: seq<Arg>, b: seq<Arg>)
    requires Takes(i) ==> a != [] && Accepts(i.d, a[0])
    ensures Takes(i) ==> a + b != [] && (a + b)[0] == a[0]
    ensures ItemText(i, a + b) == ItemText(i, a) && ItemRest(i, a + b) == ItemRest(i, a) + b
  {
  }

  lemma AppendAssociates(x: string, y: string, z: string)
    ensures x + (y + z) == (x + y) + z
  {
  }

  lemma {:induction false} RenderConcat(i: seq<Item>, j: seq<Item>, a: seq<Arg>, b: seq<Arg>)
    requires Matches(i, a) && Count(i) == |a| && Matches(j, b)
    ensures Matches(i + j, a + b) && Render(i + j, a + b) == Render(i, a) + Render(j, b)
    decreases |i|
  {
    if i == [] {
      assert i + j == j && a + b == b;
    } else {
      var rest := ItemRest(i[0], a);
      SplitConcat(i, j);
      ItemConcat(i[0], a, b);
      RenderConcat(i[1..], j, rest, b);
      AppendAssociates(ItemText(i[0], a), Render(i[1..], rest), Render(j, b));
    }
  }

  /** For a closed format `f` that takes exactly the arguments `a`, printing `f + g` prints `f` and then
      `g`, so the counts add up. */
  lemma OutputConcat(f: string, g: string, a: seq<Arg>, b: seq<Arg>)
    requires Printable(f, a) && Ending(f) == Closed && Count(Parse(f)) == |a| && Printable(g, b)
    ensures Printable(f + g, a + b)
    ensures Output(f + g, a + b) == Output(f, a) + Output(g, b)
    ensures |Output(f + g, a + b)| == |Output(f, a)| + |Output(g, b)|
  {
    ParseConcat(f, g);
    RenderConcat(Parse(f), Parse(g), a, b);
  }

  // ---------------------------------------------------------------------------
  // The parser recovers canonical directives
  // ---------------------------------------------------------------------------

  /** The flags a flag string stands for. */
  function FlagSet(s: string): Flags {
    Flags('-' in s, '+' in s, ' ' in s, '#' in s, '0' in s)
  }

  lemma SetSnoc(t: string, c: char)
    ensures FlagSet(t + [c]) == AddFlag(FlagSet(t), c)
  {
  }

  lemma {:induction false} FlagsOfIsSet(s: string)
    ensures FlagsOf(s) == FlagSet(s)
  {
    if s != "" {
      var t, c := s[..|s| - 1], s[|s| - 1];
      FlagsOfIsSet(t);
      SetSnoc(t, c);
      assert s == t + [c];
    }
  }

  /** A width is written in decimal without leading zeros; no width is no digits. */
  function WidthText(w: nat): string {
    Digits(w, 10, 'a')
  }

  predicate CanonicalLen(l: string) {
    l == "" || l == "h" || l == "l" || l == "ll"
  }

  function LenMeaning(l: string): Len {
    Len(l == "l" || l == "ll", l == "ll", l == "h")
  }

  predicate CanonicalConv(c: char) {
    !IsFlag(c) && !IsDec(c) && !IsLen(c)
  }

  lemma {:induction false} RunAll(p: char -> bool, x: string, y: string)
    requires (forall i | 0 <= i < |x| :: p(x[i])) && (y == "" || !p(y[0]))
    ensures Run(p, x + y) == |x|
    decreases |x|
  {
    if x == "" {
      assert x + y == y;
    } else {
      assert (x + y)[0] == x[0] && (x + y)[1..] == x[1..] + y;
      RunAll(p, x[1..], y);
    }
  }

  /** The first digit of a printed width is not zero, so it is not taken for a flag. */
  lemma {:induction false} WidthTextHead(w: nat)
    ensures w > 0 ==> WidthText(w) != "" && '1' <= WidthText(w)[0] <= '9'
    ensures forall i | 0 <= i < |WidthText(w)| :: IsDec(WidthText(w)[i])
    decreases w
  {
    if w > 0 {
      WidthTextHead(Quot(w, 10));
      QuotRem(w, 10);
      assert WidthText(w) == WidthText(Quot(w, 10)) + [DigitChar(Rem(w, 10), 'a')];
    }
  }

  lemma SplitAt(s: string, fs: string, wt: string, l: string, t: string)
    requires FlagEnd(s) == |fs| && WidthEnd(s) == |fs| + |wt| && LenEnd(s) == |fs| + |wt| + |l| && t != ""
    requires s[..|fs|] == fs && s[|fs|..|fs| + |wt|] == wt && s[|fs| + |wt|..|fs| + |wt| + |l|] == l
    requires s[|fs| + |wt| + |l|..] == t
    ensures DirectiveOf(s) == Assemble(fs, wt, l, t[0])
  {
    assert s[LenEnd(s)] == s[LenEnd(s)..][0];
  }

  lemma FlagStage(fs: string, t: string)
    requires (forall i | 0 <= i < |fs| :: IsFlag(fs[i])) && t != "" && !IsFlag(t[0])
    ensures FlagEnd(fs + t) == |fs| && (fs + t)[|fs|..] == t
  {
    RunAll(IsFlag, fs, t);
  }

  lemma WidthStage(fs: string, wt: string, t: string)
    requires (forall i | 0 <= i < |fs| :: IsFlag(fs[i])) && (forall i | 0 <= i < |wt| :: IsDec(wt[i]))
    requires wt != "" ==> '1' <= wt[0] <= '9'
    requires t != "" && !IsFlag(t[0]) && !IsDec(t[0])
    ensures var s := fs + (wt + t); WidthEnd(s) == |fs| + |wt| && FlagEnd(s) == |fs| && s[WidthEnd(s)..] == t
  {
    assert (wt + t)[0] == if wt == "" then t[0] else wt[0];
    FlagStage(fs, wt + t);
    RunAll(IsDec, wt, t);
  }

  lemma CanonicalEnds(fs: string, wt: string, l: string, t: string)
    requires t != "" && CanonicalConv(t[0])
    requires forall i | 0 <= i < |l| :: IsLen(l[i])
    requires forall i | 0 <= i < |fs| :: IsFlag(fs[i])
    requires forall i | 0 <= i < |wt| :: IsDec(wt[i])
    requires wt != "" ==> '1' <= wt[0] <= '9'
    ensures var s := fs + (wt + (l + t));
            FlagEnd(s) == |fs| && WidthEnd(s) == |fs| + |wt| && LenEnd(s) == |fs| + |wt| + |l|
  {
    assert (l + t)[0] == if l == "" then t[0] else l[0];
    WidthStage(fs, wt, l + t);
    RunAll(IsLen, l, t);
  }

  lemma CanonicalParts(fs: string, wt: string, l: string, t: string)
    ensures var s := fs + (wt + (l + t)); var a, b, c := |fs|, |fs| + |wt|, |fs| + |wt| + |l|;
            s[..a] == fs && s[a..b] == wt && s[b..c] == l && s[c..] == t
  {
  }

  lemma CanonicalSplit(fs: string, wt: string, l: string, c: char, rest: string)
    requires (forall i | 0 <= i < |fs| :: IsFlag(fs[i])) && CanonicalConv(c)
    requires (forall i | 0 <= i < |wt| :: IsDec(wt[i])) && (wt != "" ==> '1' <= wt[0] <= '9')
    requires forall i | 0 <= i < |l| :: IsLen(l[i])
    ensures var s := fs + (wt + (l + ([c] + rest)));
            LenEnd(s) == |fs| + |wt| + |l| && DirectiveOf(s) == Assemble(fs, wt, l, c)
  {
    var t := [c] + rest;
    CanonicalEnds(fs, wt, l, t);
    CanonicalParts(fs, wt, l, t);
    SplitAt(fs + (wt + (l + t)), fs, wt, l, t);
  }

  lemma {:induction false} CanonicalDirective(fs: string, wt: string, w: nat, l: string, c: char, rest: string)
    requires (forall i | 0 <= i < |fs| :: IsFlag(fs[i])) && CanonicalConv(c)
    requires (forall i | 0 <= i < |wt| :: IsDec(wt[i])) && (wt != "" ==> '1' <= wt[0] <= '9') && Value(wt, 10) == w
    requires (forall i | 0 <= i < |l| :: IsLen(l[i])) && ResolveLen(LenOf(l)) == LenMeaning(l)
    ensures var s := fs + (wt + (l + ([c] + rest)));
            && LenEnd(s) == |fs| + |wt| + |l|
            && DirectiveOf(s) == Directive(Resolve(FlagSet(fs)), w, LenMeaning(l), c)
  {
    CanonicalSplit(fs, wt, l, c, rest);
    FlagsOfIsSet(fs);
  }

  lemma {:induction false} LenOfCanonical(l: string)
    requires CanonicalLen(l)
    ensures ResolveLen(LenOf(l)) == LenMeaning(l)
    ensures forall i | 0 <= i < |l| :: IsLen(l[i])
  {
    if l == "h" || l == "l" {
      assert l[..0] == "";
    } else if l == "ll" {
      assert l[..1] == "l" && "l"[..0] == "";
    }
  }

  /** Every canonical directive, followed by anything, is parsed to its flags up to conflict resolution,
      its width, its length and its conversion. */
  lemma ParseCanonical(fs: string, w: nat, l: string, c: char, rest: string)
    requires (forall i | 0 <= i < |fs| :: IsFlag(fs[i])) && CanonicalLen(l) && CanonicalConv(c)
    ensures var s := fs + (WidthText(w) + (l + ([c] + rest)));
            && LenEnd(s) == |fs| + |WidthText(w)| + |l|
            && DirectiveOf(s) == Directive(Resolve(FlagSet(fs)), w, LenMeaning(l), c)
  {
    var wt := WidthText(w);
    WidthTextHead(w);
    DigitsValue(w, 10, 'a');
    LenOfCanonical(l);
    CanonicalDirective(fs, wt, w, l, c, rest);
  }
}
