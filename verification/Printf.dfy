/** The printf engine of src/libc/stdio.c: what each directive prints. */
module Printf {
  import opened Division

  const PRINT_BUF_LEN := 65
  const WORD := 0x1_0000_0000

  /** The flag bits LEFT_JUST, SHOW_SIGN, HIDE_SIGN, DISP_HEXD, PADW_ZERO. */
  datatype Flags = Flags(left: bool, show: bool, hide: bool, hex: bool, zero: bool)

  const NoFlags := Flags(false, false, false, false, false)

  function Repeat(c: char, n: int): (s: string)
    ensures |s| == if n < 0 then 0 else n
    ensures forall i | 0 <= i < |s| :: s[i] == c
  {
    if n <= 0 then "" else Repeat(c, n - 1) + [c]
  }

  // ---------------------------------------------------------------------------
  // prints: padding and prefix
  // ---------------------------------------------------------------------------

  function Padding(s: string, width: int): nat {
    if |s| >= width then 0 else width - |s|
  }

  function Prefix(f: Flags): string {
    if f.hex then "0x" else ""
  }

  /** What `prints` emits. With `0` the padding goes between prefix and string on either side. */
  function Padded(s: string, width: int, f: Flags): string {
    var pad := Padding(s, width);
    if f.zero then Prefix(f) + Repeat('0', pad) + s
    else if f.left then Prefix(f) + s + Repeat(' ', pad)
    else Repeat(' ', pad) + Prefix(f) + s
  }

  // ---------------------------------------------------------------------------
  // printi: digits and sign
  // ---------------------------------------------------------------------------

  /** Where the letter digits start: `convbase`. */
  type Letters = c: char | c == 'a' || c == 'A' witness 'a'

  /** The character of a digit: letters start at `conv`, and further on the conversion to `char` wraps. */
  function DigitChar(d: nat, conv: Letters): char {
    if d >= 10 then ((d - 10 + conv as int) % 256) as char else (d + '0' as int) as char
  }

  /** `u / base`; see `QuotRem`. */
  function Quot(u: nat, base: int): (q: nat)
    requires base >= 2
    ensures 2 * q <= u
  {
    if u < base then 0 else 1 + Quot(u - base, base)
  }

  /** `u % base`; see `QuotRem`. */
  function Rem(u: nat, base: int): (r: nat)
    requires base >= 2
    ensures r < base
  {
    if u < base then u else Rem(u - base, base)
  }

  lemma {:induction false} QuotRem(u: nat, base: int)
    requires base >= 2
    ensures Quot(u, base) * base + Rem(u, base) == u
    ensures u / base == Quot(u, base) && u % base == Rem(u, base)
    decreases u
  {
    if u >= base {
      QuotRem(u - base, base);
      var q, r := Quot(u - base, base), Rem(u - base, base);
      assert Quot(u, base) == 1 + q && Rem(u, base) == r;
      assert (1 + q) * base == base + q * base;
      DivModUnique(u, base, 1 + q, r);
    } else {
      assert Quot(u, base) == 0 && Rem(u, base) == u;
      DivModUnique(u, base, 0, u);
    }
  }

  /** The digits of `u`, most significant first; none for zero. */
  function Digits(u: nat, base: int, conv: Letters): string
    requires base >= 2
    decreases u
  {
    if u == 0 then "" else Digits(Quot(u, base), base, conv) + [DigitChar(Rem(u, base), conv)]
  }

  /** A long of the target is 32 bits wide; `-num` is undefined for the least one. */
  predicate LongOk(num: int, base: int, sign: bool) {
    -0x8000_0000 <= num < 0x8000_0000 && (sign && base == 10 ==> num != -0x8000_0000)
  }

  predicate IsNeg(num: int, base: int, sign: bool) {
    sign && base == 10 && num < 0
  }

  /** The unsigned value whose digits are printed. */
  function Magnitude(num: int, base: int, sign: bool): nat
    requires LongOk(num, base, sign)
  {
    if IsNeg(num, base, sign) then -num else if num < 0 then num + WORD else num
  }

  /** The sign character, if any: none with the HIDE_SIGN flag, none for zero. */
  function SignText(num: int, base: int, sign: bool, f: Flags): string {
    if num == 0 || f.hide || base != 10 then ""
    else if IsNeg(num, base, sign) then "-"
    else if f.show then "+"
    else ""
  }

  /** The C string at the start of `s`. */
  function UpToNul(s: string): (t: string)
    ensures t <= s && '\0' !in t && (|t| < |s| ==> s[|t|] == '\0')
  {
    if s == "" || s[0] == '\0' then "" else [s[0]] + UpToNul(s[1..])
  }

  lemma HeadAndRest(s: string, t: string)
    requires s != ""
    ensures s == [s[0]] + s[1..] && [s[0]] + (s[1..] + t) == s + t
  {
  }

  lemma {:induction false} UpToNulAppend(s: string, t: string)
    requires '\0' !in s
    ensures UpToNul(s + t) == s + UpToNul(t) && UpToNul(s) == s
    decreases |s|
  {
    if s != "" {
      var rest := s[1..];
      assert s[0] in s && forall c <- rest :: c in s;
      assert (s + t)[0] == s[0] && (s + t)[1..] == rest + t;
      UpToNulAppend(rest, t);
      HeadAndRest(s, UpToNul(t));
    } else {
      assert s + t == t;
    }
  }

  /** A terminator ends the string. */
  lemma {:induction false} UpToNulEnds(s: string, t: string)
    ensures UpToNul(s + ['\0'] + t) == UpToNul(s)
    decreases |s|
  {
    var r := s + ['\0'] + t;
    if s != "" {
      assert r[0] == s[0] && r[1..] == s[1..] + ['\0'] + t;
      UpToNulEnds(s[1..], t);
    }
  }

  /** The digits `prints` is given. In a base so large that a digit wraps to NUL, they end there. */
  function DigitText(num: int, base: int, sign: bool, conv: Letters): string
    requires base >= 2 && LongOk(num, base, sign)
  {
    if num == 0 then "0" else UpToNul(Digits(Magnitude(num, base, sign), base, conv))
  }

  /** The prefix is for base 16 only. */
  function NumberFlags(f: Flags, base: int): Flags {
    if base != 16 then f.(hex := false) else f
  }

  /** Sign and digits in their field. */
  function Framed(s: string, d: string, width: int, g: Flags): string {
    if g.zero then s + Padded(d, width - |s|, g) else Padded(s + d, width, g)
  }

  /** What `printi` emits: zero padding comes after the sign, space padding before it. */
  function Number(num: int, base: int, sign: bool, width: int, f: Flags, conv: Letters): string
    requires base >= 2 && LongOk(num, base, sign)
  {
    Framed(SignText(num, base, sign, f), DigitText(num, base, sign, conv), width, NumberFlags(f, base))
  }

  // ---------------------------------------------------------------------------
  // The count
  // ---------------------------------------------------------------------------

  function Max(a: int, b: int): int { if a < b then b else a }

  lemma PaddedLength(s: string, width: int, f: Flags)
    ensures |Padded(s, width, f)| == Max(width, |s|) + if f.hex then 2 else 0
  {
  }

  /** Where `prints` puts its padding: zeros between prefix and string; otherwise spaces behind both when left
      justified, and in front of both when not. */
  lemma PaddedPlaces(s: string, width: int, f: Flags)
    ensures var t := Padded(s, width, f);
            var px := if f.hex then "0x" else "";
            var pad := if width > |s| then width - |s| else 0;
            && |t| == |px| + pad + |s|
            && (f.zero ==>
                  && t[..|px|] == px && (forall i | |px| <= i < |px| + pad :: t[i] == '0')
                  && t[|px| + pad..] == s)
            && (!f.zero && f.left ==>
                  && t[..|px|] == px && t[|px|..|px| + |s|] == s
                  && (forall i | |px| + |s| <= i < |t| :: t[i] == ' '))
            && (!f.zero && !f.left ==>
                  && (forall i | 0 <= i < pad :: t[i] == ' ')
                  && t[pad..pad + |px|] == px && t[pad + |px|..] == s)
  {
  }

  /** The characters emitted are max(width, digits and sign), plus two exactly when a prefix is shown. */
  lemma NumberLength(num: int, base: int, sign: bool, width: int, f: Flags, conv: Letters)
    requires base >= 2 && LongOk(num, base, sign)
    ensures |Number(num, base, sign, width, f, conv)| ==
            Max(width, |DigitText(num, base, sign, conv)| + |SignText(num, base, sign, f)|)
            + if f.hex && base == 16 then 2 else 0
  {
    var g := NumberFlags(f, base);
    var s := SignText(num, base, sign, f);
    var d := DigitText(num, base, sign, conv);
    PaddedLength(d, width - |s|, g);
    PaddedLength(s + d, width, g);
  }

  function Power(b: nat, k: nat): (r: nat)
    ensures b >= 1 ==> r >= 1
    decreases k, b
  {
    if k == 0 then 1 else b * Power(b, k - 1)
  }

  /** A word of `k` bits has at most `k` digits in any base of at least two. */
  lemma {:induction false} DigitsFit(u: nat, base: int, conv: Letters, k: nat)
    requires base >= 2 && u < Power(2, k)
    ensures |Digits(u, base, conv)| <= k
    decreases k
  {
    if u > 0 {
      assert Power(2, k) == 2 * Power(2, k - 1);
      DigitsFit(Quot(u, base), base, conv, k - 1);
    }
  }

  lemma {:induction false} PowerAdd(b: nat, j: nat, k: nat)
    ensures Power(b, j + k) == Power(b, j) * Power(b, k)
    decreases j
  {
    if j > 0 {
      calc {
        Power(b, j + k);
      ==
        b * Power(b, (j - 1) + k);
      == { PowerAdd(b, j - 1, k); }
        b * (Power(b, j - 1) * Power(b, k));
      == { TimesAssociates(b, Power(b, j - 1), Power(b, k)); }
        (b * Power(b, j - 1)) * Power(b, k);
      ==
        Power(b, j) * Power(b, k);
      }
    }
  }

  lemma {:induction false} PowerDouble(k: nat, v: nat)
    requires Power(2, k) == v
    ensures Power(2, 2 * k) == v * v
  {
    PowerAdd(2, k, k);
  }

  lemma Power64()
    ensures Power(2, 32) == 0x1_0000_0000 && Power(2, 64) == 0x1_0000_0000_0000_0000
  {
    assert Power(2, 2) == 2 * Power(2, 1) == 4;
    PowerDouble(2, 4);
    PowerDouble(4, 0x10);
    PowerDouble(8, 0x100);
    PowerDouble(16, 0x1_0000);
    PowerDouble(32, 0x1_0000_0000);
  }

  // ---------------------------------------------------------------------------
  // Reading a number back
  // ---------------------------------------------------------------------------

  /** The bases in which every digit has a character of its own. */
  predicate BaseOk(base: int) { 2 <= base <= 36 }

  /** The value of a digit character, or -1. */
  function DigitValue(c: char): int {
    if '0' <= c <= '9' then c as int - '0' as int
    else if 'a' <= c <= 'z' then c as int - 'a' as int + 10
    else if 'A' <= c <= 'Z' then c as int - 'A' as int + 10
    else -1
  }

  predicate IsDigitOf(c: char, base: int) {
    0 <= DigitValue(c) < base
  }

  /** The value of a digit string. */
  function Value(s: string, base: int): int {
    if s == "" then 0 else Value(s[..|s| - 1], base) * base + DigitValue(s[|s| - 1])
  }

  function SkipSpaces(t: string): string {
    if t != "" && t[0] == ' ' then SkipSpaces(t[1..]) else t
  }

  /** How many digits `t` starts with. */
  function DigitRun(t: string, base: int): (n: nat)
    ensures n <= |t|
  {
    if t != "" && IsDigitOf(t[0], base) then 1 + DigitRun(t[1..], base) else 0
  }

  function DropSign(t: string): string {
    if t != "" && (t[0] == '-' || t[0] == '+') then t[1..] else t
  }

  function DropPrefix(t: string): string {
    if |t| >= 2 && t[..2] == "0x" then t[2..] else t
  }

  /** A reader of printed numbers: spaces, a sign, `0x`, digits, spaces. */
  function Read(t: string, base: int): int {
    var a := SkipSpaces(t);
    var b := DropPrefix(DropSign(a));
    var v := Value(b[..DigitRun(b, base)], base);
    if a != "" && a[0] == '-' then -v else v
  }

  /** The text is such a number and nothing else. */
  predicate Readable(t: string, base: int) {
    var b := DropPrefix(DropSign(SkipSpaces(t)));
    DigitRun(b, base) > 0 && SkipSpaces(b[DigitRun(b, base)..]) == ""
  }

  lemma {:induction false} SkipRepeat(n: nat, t: string)
    requires t == "" || t[0] != ' '
    ensures SkipSpaces(Repeat(' ', n) + t) == t
    decreases n
  {
    if n > 0 {
      var r := Repeat(' ', n) + t;
      assert r[0] == ' ' && r[1..] == Repeat(' ', n - 1) + t by {
        assert Repeat(' ', n)[1..] == Repeat(' ', n - 1);
      }
      SkipRepeat(n - 1, t);
    } else {
      assert Repeat(' ', n) + t == t;
    }
  }

  predicate AllDigits(s: string, base: int) {
    forall i | 0 <= i < |s| :: IsDigitOf(s[i], base)
  }

  lemma {:induction false} RunOfDigits(s: string, t: string, base: int)
    requires AllDigits(s, base) && (t == "" || !IsDigitOf(t[0], base))
    ensures DigitRun(s + t, base) == |s|
    decreases |s|
  {
    if s != "" {
      assert (s + t)[0] == s[0] && (s + t)[1..] == s[1..] + t;
      RunOfDigits(s[1..], t, base);
    } else {
      assert s + t == t;
    }
  }

  lemma DigitCharValue(d: int, conv: Letters)
    requires 0 <= d < 36
    ensures DigitValue(DigitChar(d, conv)) == d
  {
  }

  lemma {:induction false} ValueSnoc(s: string, c: char, base: int)
    ensures Value(s + [c], base) == Value(s, base) * base + DigitValue(c)
  {
    assert (s + [c])[..|s|] == s;
  }

  lemma AllDigitsSnoc(s: string, c: char, base: int)
    requires AllDigits(s, base) && IsDigitOf(c, base)
    ensures AllDigits(s + [c], base)
  {
  }

  lemma {:induction false} DigitsAreDigits(u: nat, base: int, conv: Letters)
    requires BaseOk(base)
    ensures AllDigits(Digits(u, base, conv), base)
    decreases u
  {
    if u > 0 {
      var q, d := Quot(u, base), Rem(u, base);
      DigitsAreDigits(q, base, conv);
      DigitCharValue(d, conv);
      AllDigitsSnoc(Digits(q, base, conv), DigitChar(d, conv), base);
    }
  }

  lemma {:induction false} DigitsValue(u: nat, base: int, conv: Letters)
    requires BaseOk(base)
    ensures Value(Digits(u, base, conv), base) == u
    decreases u
  {
    if u > 0 {
      var q, d := Quot(u, base), Rem(u, base);
      QuotRem(u, base);
      DigitsValue(q, base, conv);
      DigitCharValue(d, conv);
      ValueSnoc(Digits(q, base, conv), DigitChar(d, conv), base);
    }
  }

  lemma {:induction false} ZerosValue(n: nat, base: int)
    ensures Value(Repeat('0', n), base) == 0
    decreases n
  {
    if n > 0 {
      var t := Repeat('0', n - 1);
      ZerosValue(n - 1, base);
      ValueSnoc(t, '0', base);
      assert Repeat('0', n) == t + ['0'];
    }
  }

  lemma {:induction false} ZeroPadValue(n: nat, s: string, base: int)
    requires AllDigits(s, base)
    ensures base > 0 ==> AllDigits(Repeat('0', n) + s, base)
    ensures Value(Repeat('0', n) + s, base) == Value(s, base)
    decreases |s|
  {
    if s == "" {
      assert Repeat('0', n) + s == Repeat('0', n);
      ZerosValue(n, base);
    } else {
      var t := s[..|s| - 1];
      ZeroPadValue(n, t, base);
      var r := Repeat('0', n) + s;
      assert r[..|r| - 1] == Repeat('0', n) + t;
    }
  }

  function Body(z: nat, d: string, q: nat): string {
    (Repeat('0', z) + d) + Repeat(' ', q)
  }

  /** The shape of every printed number. */
  function Shape(p: nat, sign: string, prefix: string, z: nat, d: string, q: nat): string {
    Repeat(' ', p) + (sign + (prefix + Body(z, d, q)))
  }

  predicate ShapeOk(sign: string, prefix: string, d: string, base: int) {
    && (sign == "" || ((sign == "-" || sign == "+") && prefix == ""))
    && (prefix == "" || (prefix == "0x" && sign == ""))
    && d != "" && AllDigits(d, base)
    && base <= 33                              // 'x' is not a digit
  }

  lemma {:induction false} BodyReads(z: nat, d: string, q: nat, base: int)
    requires BaseOk(base) && d != "" && AllDigits(d, base)
    ensures var body := Body(z, d, q); var n := DigitRun(body, base);
            n > 0 && Value(body[..n], base) == Value(d, base) && SkipSpaces(body[n..]) == ""
  {
    var ds := Repeat('0', z) + d;
    var body := Body(z, d, q);
    ZeroPadValue(z, d, base);
    RunOfDigits(ds, Repeat(' ', q), base);
    SkipRepeat(q, "");
    assert DigitRun(body, base) == |ds|;
    assert body[..|ds|] == ds;
    assert body[|ds|..] == Repeat(' ', q) + "";
  }

  lemma BodyHead(z: nat, d: string, q: nat, base: int)
    requires BaseOk(base) && d != "" && AllDigits(d, base)
    ensures var body := Body(z, d, q);
            && IsDigitOf(body[0], base)
            && (|body| >= 2 ==> IsDigitOf(body[1], base) || body[1] == ' ')
  {
    var ds := Repeat('0', z) + d;
    var body := Body(z, d, q);
    assert body[0] == ds[0];
    assert |body| >= 2 ==> body[1] == if |ds| >= 2 then ds[1] else Repeat(' ', q)[0];
  }

  lemma HeadOf(sign: string, prefix: string, body: string, base: int)
    requires BaseOk(base) && body != "" && IsDigitOf(body[0], base)
    requires sign == "" || ((sign == "-" || sign == "+") && prefix == "")
    requires prefix == "" || prefix == "0x"
    ensures var a := sign + (prefix + body); a != "" && a[0] != ' ' && (a[0] == '-' <==> sign == "-")
  {
    var a := sign + (prefix + body);
    assert a[0] == if sign != "" then sign[0] else if prefix != "" then prefix[0] else body[0];
  }

  lemma NoPrefix(body: string)
    requires |body| >= 2 ==> body[1] != 'x'
    ensures DropPrefix(body) == body
  {
    if |body| >= 2 { assert body[..2][1] == body[1]; }
  }

  lemma DropsToBody(sign: string, prefix: string, body: string, base: int)
    requires BaseOk(base) && base <= 33 && body != "" && IsDigitOf(body[0], base)
    requires |body| >= 2 ==> IsDigitOf(body[1], base) || body[1] == ' '
    requires sign == "" || ((sign == "-" || sign == "+") && prefix == "")
    requires prefix == "" || (prefix == "0x" && sign == "")
    ensures DropPrefix(DropSign(sign + (prefix + body))) == body
  {
    var a := sign + (prefix + body);
    NoPrefix(body);
    if sign != "" {
      assert prefix + body == body;
      assert a[0] == sign[0] && a[1..] == body;
    } else if prefix != "" {
      assert a == prefix + body;
      assert a[0] == '0' && DropSign(a) == a;
      assert a[..2] == "0x" && a[2..] == body;
    } else {
      assert a == body && DropSign(a) == a;
    }
  }

  /** The reader recovers the value from any text of that shape. */
  lemma {:induction false} ReadShape(p: nat, sign: string, prefix: string, z: nat, d: string, q: nat, base: int)
    requires BaseOk(base) && ShapeOk(sign, prefix, d, base)
    ensures var t := Shape(p, sign, prefix, z, d, q);
            Readable(t, base) && Read(t, base) == if sign == "-" then -Value(d, base) else Value(d, base)
  {
    var body := Body(z, d, q);
    BodyReads(z, d, q, base);
    BodyHead(z, d, q, base);
    HeadOf(sign, prefix, body, base);
    SkipRepeat(p, sign + (prefix + body));
    DropsToBody(sign, prefix, body, base);
  }

  lemma ScaleBounds(base: nat, q: nat, r: nat, lo: nat, hi: nat)
    requires lo <= q < hi && r < base
    ensures base * lo <= q * base + r < base * hi
  {
    TimesMonotone(base, lo, q);
    TimesMonotone(base, q + 1, hi);
    assert base * (q + 1) == base * q + base;
  }

  /** The digits of a number that is not zero: as many as its size asks for, so none of them is a leading zero. */
  lemma {:induction false} DigitsExact(u: nat, base: int, conv: Letters)
    requires base >= 2 && u > 0
    ensures var n := |Digits(u, base, conv)|; n > 0 && Power(base, n - 1) <= u < Power(base, n)
    decreases u
  {
    var q, r := Quot(u, base), Rem(u, base);
    QuotRem(u, base);
    var n := |Digits(u, base, conv)|;
    if q == 0 {
      assert Digits(q, base, conv) == "" && n == 1;
      assert Power(base, 1) == base * Power(base, 0) == base;
      assert q * base == 0 && u == r;
    } else {
      DigitsExact(q, base, conv);
      var lo, hi := Power(base, n - 2), Power(base, n - 1);
      assert hi == base * lo && Power(base, n) == base * hi;
      ScaleBounds(base, q, r, lo, hi);
    }
  }

  /** The letters of digits are of the case asked for. */
  predicate InCase(c: char, conv: Letters) {
    '0' <= c <= '9' || (conv == 'a' && 'a' <= c <= 'z') || (conv == 'A' && 'A' <= c <= 'Z')
  }

  lemma DigitCharCase(d: nat, conv: Letters)
    requires d < 36
    ensures InCase(DigitChar(d, conv), conv)
  {
  }

  lemma {:induction false} DigitsCase(u: nat, base: int, conv: Letters)
    requires BaseOk(base)
    ensures forall c <- Digits(u, base, conv) :: InCase(c, conv)
    decreases u
  {
    if u > 0 {
      var d := DigitChar(Rem(u, base), conv);
      DigitsCase(Quot(u, base), base, conv);
      DigitCharCase(Rem(u, base), conv);
      assert Digits(u, base, conv) == Digits(Quot(u, base), base, conv) + [d];
    }
  }

  // ---------------------------------------------------------------------------
  // Number round trip
  // ---------------------------------------------------------------------------

  lemma {:induction false} ShapeZero(s: string, px: string, z: nat, d: string)
    ensures s + (px + Repeat('0', z) + d) == Shape(0, s, px, z, d, 0)
  {
    assert Repeat(' ', 0) == "";
  }

  lemma {:induction false} ShapeLeft(s: string, px: string, d: string, q: nat)
    requires s == "" || px == ""
    ensures px + (s + d) + Repeat(' ', q) == Shape(0, s, px, 0, d, q)
  {
    assert Repeat(' ', 0) == "" && Repeat('0', 0) == "";
    if s == "" { assert s + d == d; }
  }

  lemma {:induction false} ShapeRight(p: nat, s: string, px: string, d: string)
    requires s == "" || px == ""
    ensures Repeat(' ', p) + px + (s + d) == Shape(p, s, px, 0, d, 0)
  {
    assert Repeat(' ', 0) == "" && Repeat('0', 0) == "";
    if s == "" { assert s + d == d; }
  }

  /** Sign and digits in their field, where a prefix excludes a sign. */
  lemma FramedShape(s: string, d: string, width: int, g: Flags) returns (p: nat, z: nat, q: nat)
    requires s == "" || !g.hex
    ensures Framed(s, d, width, g) == Shape(p, s, Prefix(g), z, d, q)
    ensures var n := |s| + |d|;
            var pad := if width > n then width - n else 0;
            if g.zero then p == 0 && z == pad && q == 0
            else if g.left then p == 0 && z == 0 && q == pad
            else p == pad && z == 0 && q == 0
  {
    var px := Prefix(g);
    p, z, q := 0, 0, 0;
    if g.zero {
      z := Padding(d, width - |s|);
      ShapeZero(s, px, z, d);
    } else if g.left {
      q := Padding(s + d, width);
      ShapeLeft(s, px, d, q);
    } else {
      p := Padding(s + d, width);
      ShapeRight(p, s, px, d);
    }
  }

  /** Every printed number is of the readable shape, across all padding paths and both sign placements. */
  lemma NumberShape(num: int, base: int, sign: bool, width: int, f: Flags, conv: Letters)
    returns (p: nat, z: nat, q: nat)
    requires base >= 2 && LongOk(num, base, sign)
    ensures Number(num, base, sign, width, f, conv) ==
            Shape(p, SignText(num, base, sign, f), Prefix(NumberFlags(f, base)), z, DigitText(num, base, sign, conv), q)
    ensures var n := |SignText(num, base, sign, f)| + |DigitText(num, base, sign, conv)|;
            var pad := if width > n then width - n else 0;
            if f.zero then p == 0 && z == pad && q == 0
            else if f.left then p == 0 && z == 0 && q == pad
            else p == pad && z == 0 && q == 0
  {
    var s, d := SignText(num, base, sign, f), DigitText(num, base, sign, conv);
    p, z, q := FramedShape(s, d, width, NumberFlags(f, base));
  }

  lemma {:induction false} DigitsNotEmpty(u: nat, base: int, conv: Letters)
    requires base >= 2 && u > 0
    ensures Digits(u, base, conv) != ""
  {
  }

  lemma {:induction false} NoNulDigit(u: nat, base: int, conv: Letters)
    requires 2 <= base <= 266 - conv as int
    ensures '\0' !in Digits(u, base, conv)
    decreases u
  {
    if u > 0 {
      NoNulDigit(Quot(u, base), base, conv);
      assert DigitChar(Rem(u, base), conv) != '\0';
    }
  }

  /** In a base of at most 36 no digit is lost. */
  lemma {:induction false} DigitsWhole(u: nat, base: int, conv: Letters)
    requires BaseOk(base)
    ensures UpToNul(Digits(u, base, conv)) == Digits(u, base, conv)
  {
    NoNulDigit(u, base, conv);
    UpToNulAppend(Digits(u, base, conv), "");
  }

  lemma {:induction false} DigitTextReads(num: int, base: int, sign: bool, conv: Letters)
    requires BaseOk(base) && LongOk(num, base, sign)
    ensures var d := DigitText(num, base, sign, conv);
            d != "" && AllDigits(d, base) && Value(d, base) == Magnitude(num, base, sign)
  {
    var u := Magnitude(num, base, sign);
    if num != 0 {
      DigitsAreDigits(u, base, conv);
      DigitsValue(u, base, conv);
      DigitsWhole(u, base, conv);
      DigitsNotEmpty(u, base, conv);
    } else {
      ZerosValue(1, base);
      assert Repeat('0', 1) == "0";
    }
  }

  /** What a printed number reads back as: the value itself for a signed decimal, unless HIDE_SIGN
      dropped its minus sign, and the unsigned value otherwise. */
  function ReadsAs(num: int, base: int, sign: bool, f: Flags): int
    requires LongOk(num, base, sign)
  {
    if IsNeg(num, base, sign) && !f.hide then num else Magnitude(num, base, sign)
  }

  /** Number round trip, for every value, width and flags. */
  lemma NumberReadsBack(num: int, base: int, sign: bool, width: int, f: Flags, conv: Letters)
    requires (base == 10 || base == 16) && LongOk(num, base, sign)
    ensures var t := Number(num, base, sign, width, f, conv);
            Readable(t, base) && Read(t, base) == ReadsAs(num, base, sign, f)
  {
    var p, z, q := NumberShape(num, base, sign, width, f, conv);
    DigitTextReads(num, base, sign, conv);
    var s, px, d := SignText(num, base, sign, f), Prefix(NumberFlags(f, base)), DigitText(num, base, sign, conv);
    ReadShape(p, s, px, z, d, q, base);
  }

  /** A signed decimal reads back exactly if and only if it is not a negative number with HIDE_SIGN. */
  lemma SignedRoundTripIff(num: int, width: int, f: Flags)
    requires LongOk(num, 10, true)
    ensures Read(Number(num, 10, true, width, f, 'a'), 10) == num <==> !(num < 0 && f.hide)
  {
    NumberReadsBack(num, 10, true, width, f, 'a');
  }

  /** -5 printed with the space flag reads back as 5. */
  lemma HiddenMinus()
    ensures Read(Number(-5, 10, true, 0, NoFlags.(hide := true), 'a'), 10) == 5
  {
    NumberReadsBack(-5, 10, true, 0, NoFlags.(hide := true), 'a');
  }

  /** The number whose only digit wraps to NUL prints as nothing. */
  lemma LostDigit(base: int, conv: Letters)
    requires base > 266 - conv as int
    ensures Digits(266 - conv as int, base, conv) == "\0"
    ensures DigitText(266 - conv as int, base, false, conv) == ""
  {
    var u := 266 - conv as int;
    assert Quot(u, base) == 0 && Rem(u, base) == u;
    assert Digits(0, base, conv) == "";
    assert DigitChar(u, conv) == '\0';
  }

  /** No digit of any word wraps to NUL if and only if the base is at most 266 minus the code of the first letter:
      169 for small letters, 201 for capitals. */
  lemma NoDigitLostIff(base: int, conv: Letters)
    requires base >= 2
    ensures (forall u: nat | u < WORD :: '\0' !in Digits(u, base, conv)) <==> base <= 266 - conv as int
  {
    if base <= 266 - conv as int {
      forall u: nat | u < WORD ensures '\0' !in Digits(u, base, conv) {
        NoNulDigit(u, base, conv);
      }
    } else {
      LostDigit(base, conv);
    }
  }

  // ---------------------------------------------------------------------------
  // Which characters a printed number has
  // ---------------------------------------------------------------------------

  lemma InAppend(c: char, s: string, t: string)
    ensures c in s + t <==> c in s || c in t
  {
  }

  lemma {:induction false} NotInRepeat(c: char, x: char, n: int)
    requires c != x
    ensures c !in Repeat(x, n)
  {
  }

  /** A character other than space and '0' comes from the sign, the prefix or the digits. */
  lemma InShape(c: char, p: nat, sign: string, prefix: string, z: nat, d: string, q: nat)
    requires c != ' ' && c != '0'
    ensures c in Shape(p, sign, prefix, z, d, q) <==> c in sign || c in prefix || c in d
  {
    NotInRepeat(c, ' ', p);
    NotInRepeat(c, '0', z);
    NotInRepeat(c, ' ', q);
    InAppend(c, Repeat('0', z), d);
    InAppend(c, Repeat('0', z) + d, Repeat(' ', q));
    InAppend(c, prefix, Body(z, d, q));
    InAppend(c, sign, prefix + Body(z, d, q));
    InAppend(c, Repeat(' ', p), sign + (prefix + Body(z, d, q)));
  }

  /** The digits of a printed number are digits of its case. */
  lemma DigitTextCase(num: int, base: int, sign: bool, conv: Letters, c: char)
    requires BaseOk(base) && LongOk(num, base, sign) && c in DigitText(num, base, sign, conv)
    ensures InCase(c, conv)
  {
    if num != 0 {
      var u := Magnitude(num, base, sign);
      DigitsCase(u, base, conv);
      DigitsWhole(u, base, conv);
    }
  }

  lemma NotADigit(c: char, d: string, base: int)
    requires AllDigits(d, base) && !IsDigitOf(c, base)
    ensures c !in d
  {
  }

  /** A minus sign appears exactly for a negative decimal without HIDE_SIGN, a plus sign exactly for a decimal
      that is not zero and not negative with SHOW_SIGN and without HIDE_SIGN, and an `x` exactly in base 16 with
      DISP_HEXD. */
  lemma NumberMarks(num: int, base: int, sign: bool, width: int, f: Flags, conv: Letters)
    requires 2 <= base <= 33 && LongOk(num, base, sign)
    ensures var t := Number(num, base, sign, width, f, conv);
            && ('-' in t <==> base == 10 && sign && num < 0 && !f.hide)
            && ('+' in t <==> base == 10 && num != 0 && !(sign && num < 0) && f.show && !f.hide)
            && ('x' in t <==> base == 16 && f.hex)
  {
    var s, px := SignText(num, base, sign, f), Prefix(NumberFlags(f, base));
    var d := DigitText(num, base, sign, conv);
    var p, z, q := NumberShape(num, base, sign, width, f, conv);
    InShape('-', p, s, px, z, d, q);
    InShape('+', p, s, px, z, d, q);
    InShape('x', p, s, px, z, d, q);
    DigitTextReads(num, base, sign, conv);
    NotADigit('-', d, base);
    NotADigit('+', d, base);
    NotADigit('x', d, base);
  }

  /** Letters are of the case asked for, apart from the `x` of the prefix. */
  lemma NumberCase(num: int, base: int, sign: bool, width: int, f: Flags, conv: Letters, c: char)
    requires BaseOk(base) && LongOk(num, base, sign) && c in Number(num, base, sign, width, f, conv)
    ensures conv == 'a' ==> !('A' <= c <= 'Z')
    ensures conv == 'A' ==> 'a' <= c <= 'z' ==> c == 'x'
  {
    var s, px := SignText(num, base, sign, f), Prefix(NumberFlags(f, base));
    var d := DigitText(num, base, sign, conv);
    var p, z, q := NumberShape(num, base, sign, width, f, conv);
    if c != ' ' && c != '0' {
      InShape(c, p, s, px, z, d, q);
      if c in d { DigitTextCase(num, base, sign, conv, c); }
    }
  }
}
