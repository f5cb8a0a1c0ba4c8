/** The initrd image that misc/initrd.c writes and src/drivers/ramdisk.c reads. */
module Initrd {
  import opened CString
  import opened Division
  import opened Words

  const HEADER_SIZE := 76        // magic, name[64], three bytes of padding, offset, length
  const MAX_FILES := 64
  const DATA_START := 4868       // sizeof(uint32_t) + 64 * HEADER_SIZE
  const MAGIC: Byte := 0xbf

  datatype File = File(name: seq<Byte>, data: seq<Byte>)

  // ---------------------------------------------------------------------------
  // Little-endian words
  // ---------------------------------------------------------------------------

  function Le32(m: seq<Byte>, p: nat): Word
    requires p + 4 <= |m|
  {
    var a: int, b: int, c: int, d: int := m[p], m[p + 1], m[p + 2], m[p + 3];
    a + 0x100 * b + 0x1_0000 * c + 0x100_0000 * d
  }

  function Bytes32(w: Word): (b: seq<Byte>)
    ensures |b| == 4
  {
    [w % 0x100, w / 0x100 % 0x100, w / 0x1_0000 % 0x100, w / 0x100_0000]
  }

  /** Shifting twice by a byte shifts by two. */
  lemma ShiftTwice(w: Word)
    ensures w / 0x100 / 0x100 == w / 0x1_0000
    ensures w / 0x1_0000 / 0x100 == w / 0x100_0000
  {
  }

  lemma BytesSum(w: Word)
    ensures w == w % 0x100 + 0x100 * (w / 0x100 % 0x100) + 0x1_0000 * (w / 0x1_0000 % 0x100)
                 + 0x100_0000 * (w / 0x100_0000)
  {
    var a, b, c := w / 0x100, w / 0x1_0000, w / 0x100_0000;
    ShiftTwice(w);
    assert w == 0x100 * a + w % 0x100;
    assert a == 0x100 * b + a % 0x100;
    assert b == 0x100 * c + b % 0x100;
  }

  /** The low byte comes first. */
  lemma LowByteFirst(m: seq<Byte>, p: nat, w: Word)
    requires p + 4 <= |m|
    ensures Le32(m, p) % 256 == m[p] && Le32(m, p) / 256 % 256 == m[p + 1]
    ensures Le32(m, p) / 0x1_0000 % 256 == m[p + 2] && Le32(m, p) / 0x100_0000 == m[p + 3]
    ensures Bytes32(w)[0] == w % 256 && Bytes32(w)[3] == w / 0x100_0000
  {
    var a: int, b: int, c: int, d: int := m[p], m[p + 1], m[p + 2], m[p + 3];
    var x := Le32(m, p);
    DivModUnique(x, 256, b + 256 * c + 0x1_0000 * d, a);
    DivModUnique(b + 256 * c + 0x1_0000 * d, 256, c + 256 * d, b);
    DivModUnique(c + 256 * d, 256, d, c);
    ShiftTwice(x);
  }

  /** A stored word reads back. */
  lemma LeRoundTrip(w: Word)
    ensures Le32(Bytes32(w), 0) == w
  {
    BytesSum(w);
  }

  /** A word lies in its four bytes. */
  lemma LeSlice(m: seq<Byte>, p: nat, q: nat)
    requires p + 4 <= |m| && q <= p
    ensures Le32(m, p) == Le32(m[q..], p - q)
    ensures Le32(m, p) == Le32(m[p..p + 4], 0)
  {
  }

  // ---------------------------------------------------------------------------
  // The image
  // ---------------------------------------------------------------------------

  /** Where the data of file `k` starts. */
  function Offset(files: seq<File>, k: nat): nat
    requires k <= |files|
  {
    if k == 0 then DATA_START else Offset(files, k - 1) + |files[k - 1].data|
  }

  function ImageSize(files: seq<File>): nat {
    Offset(files, |files|)
  }

  /** What the packer demands: at most 64 files, C strings that fit the name field, sizes within 32 bits. */
  predicate Packable(files: seq<File>) {
    && |files| <= MAX_FILES && ImageSize(files) < WORD_LIMIT
    && forall k | 0 <= k < |files| :: |files[k].name| <= 63 && 0 !in files[k].name
  }

  /** The bytes of one header. */
  predicate HeaderOk(b: seq<Byte>, name: seq<Byte>, off: int, len: int) {
    && |b| == HEADER_SIZE && |name| <= 63
    && b[0] == MAGIC && b[1..1 + |name|] == name && b[1 + |name|] == 0
    && Le32(b, 68) == off && Le32(b, 72) == len
  }

  function HeaderAt(base: nat, k: nat): nat { base + 4 + HEADER_SIZE * k }

  lemma {:induction false} OffsetFromStart(files: seq<File>, k: nat)
    requires k <= |files|
    ensures Offset(files, k) >= DATA_START
  {
    if k > 0 { OffsetFromStart(files, k - 1); }
  }

  lemma {:induction false} OffsetBounds(files: seq<File>, k: nat)
    requires k <= |files|
    ensures DATA_START <= Offset(files, k) <= ImageSize(files)
    ensures k < |files| ==> Offset(files, k) + |files[k].data| <= ImageSize(files)
    decreases |files| - k
  {
    OffsetFromStart(files, k);
    if k < |files| { OffsetBounds(files, k + 1); }
  }

  /** File `k` of an image at `base`, with `shift` added to the offset in its header. */
  predicate FileAt(m: seq<Byte>, base: nat, shift: nat, files: seq<File>, k: nat)
    requires k < |files| && |files| <= MAX_FILES && base + ImageSize(files) <= |m|
  {
    OffsetBounds(files, k);
    var h, d := HeaderAt(base, k), base + Offset(files, k);
    && HeaderOk(m[h..h + HEADER_SIZE], files[k].name, shift + Offset(files, k), |files[k].data|)
    && m[d..d + |files[k].data|] == files[k].data
  }

  /** The memory holds an image of the files at `base`. */
  predicate ImageAt(m: seq<Byte>, base: nat, shift: nat, files: seq<File>) {
    && |files| <= MAX_FILES && base + ImageSize(files) <= |m|
    && (OffsetBounds(files, 0); Le32(m, base) == |files|)
    && forall k | 0 <= k < |files| :: FileAt(m, base, shift, files, k)
  }

  // ---------------------------------------------------------------------------
  // misc/initrd.c
  // ---------------------------------------------------------------------------

  /** Store a word at `p`. */
  method Put32(m: array<Byte>, p: nat, w: Word)
    requires p + 4 <= m.Length
    modifies m
    ensures m[..] == Copied(old(m[..]), p, Bytes32(w))
  {
    m[p] := w % 0x100;
    m[p + 1] := w / 0x100 % 0x100;
    m[p + 2] := w / 0x1_0000 % 0x100;
    m[p + 3] := w / 0x100_0000;
  }

  /** The C library's `strcpy`, which does copy the terminator. */
  method PutName(m: array<Byte>, p: nat, name: seq<Byte>)
    requires p + |name| + 1 <= m.Length
    modifies m
    ensures m[..] == Copied(old(m[..]), p, name + [0])
  {
    ghost var before := m[..];
    var s := name + [0];
    for i := 0 to |s|
      invariant m[..] == Copied(before, p, s[..i])
    {
      CopiedStep(before, p, s, i, i + 1);
      m[p + i] := s[i];
    }
    assert s[..|s|] == s;
  }

  /** The header array after one turn of the first loop: name, offset, length, magic. */
  function WithHeader(m: seq<Byte>, h: nat, name: seq<Byte>, off: seq<Byte>, len: seq<Byte>): (r: seq<Byte>)
    requires h + HEADER_SIZE <= |m| && |name| <= 63 && |off| == 4 && |len| == 4
    ensures |r| == |m|
  {
    var m1 := Copied(m, h + 1, name + [0]);
    var m2 := Copied(m1, h + 68, off);
    var m3 := Copied(m2, h + 72, len);
    Copied(m3, h, [MAGIC])
  }

  lemma NameAndOffsetByte(m: seq<Byte>, h: nat, name: seq<Byte>, off: seq<Byte>, i: nat)
    requires h + HEADER_SIZE <= |m| && |name| <= 63 && |off| == 4 && i < |m|
    ensures Copied(Copied(m, h + 1, name + [0]), h + 68, off)[i] ==
            if h + 68 <= i < h + 72 then off[i - h - 68]
            else if h + 1 <= i < h + 1 + |name| then name[i - h - 1]
            else if i == h + 1 + |name| then 0
            else m[i]
  {
    CopiedByte(Copied(m, h + 1, name + [0]), h + 68, off, i);
    CopiedByte(m, h + 1, name + [0], i);
  }

  /** Every byte of the header array after that turn. */
  lemma WithHeaderByte(m: seq<Byte>, h: nat, name: seq<Byte>, off: seq<Byte>, len: seq<Byte>, i: nat)
    requires h + HEADER_SIZE <= |m| && |name| <= 63 && |off| == 4 && |len| == 4 && i < |m|
    ensures WithHeader(m, h, name, off, len)[i] ==
            if i == h then MAGIC
            else if h + 72 <= i < h + 76 then len[i - h - 72]
            else if h + 68 <= i < h + 72 then off[i - h - 68]
            else if h + 1 <= i < h + 1 + |name| then name[i - h - 1]
            else if i == h + 1 + |name| then 0
            else m[i]
  {
    var m1 := Copied(m, h + 1, name + [0]);
    var m2 := Copied(m1, h + 68, off);
    var m3 := Copied(m2, h + 72, len);
    CopiedByte(m3, h, [MAGIC], i);
    CopiedByte(m2, h + 72, len, i);
    NameAndOffsetByte(m, h, name, off, i);
  }

  lemma WithHeaderFields(m: seq<Byte>, h: nat, name: seq<Byte>, off: seq<Byte>, len: seq<Byte>)
    requires h + HEADER_SIZE <= |m| && |name| <= 63 && |off| == 4 && |len| == 4
    ensures var b := WithHeader(m, h, name, off, len)[h..h + HEADER_SIZE];
            b[0] == MAGIC && b[1..1 + |name|] == name && b[1 + |name|] == 0 && b[68..72] == off && b[72..76] == len
  {
    var r := WithHeader(m, h, name, off, len);
    var b := r[h..h + HEADER_SIZE];
    forall i | 0 <= i < HEADER_SIZE
      ensures b[i] == if i == 0 then MAGIC
                      else if 72 <= i then len[i - 72]
                      else if 68 <= i then off[i - 68]
                      else if i < 1 + |name| then name[i - 1]
                      else if i == 1 + |name| then 0
                      else m[h + i]
    {
      WithHeaderByte(m, h, name, off, len, h + i);
    }
  }

  lemma WordAt(b: seq<Byte>, p: nat, w: Word)
    requires p + 4 <= |b| && b[p..p + 4] == Bytes32(w)
    ensures Le32(b, p) == w
  {
    LeRoundTrip(w);
    LeSlice(b, p, p);
  }

  lemma WithHeaderOk(m: seq<Byte>, h: nat, name: seq<Byte>, off: Word, len: Word)
    requires h + HEADER_SIZE <= |m| && |name| <= 63
    ensures HeaderOk(WithHeader(m, h, name, Bytes32(off), Bytes32(len))[h..h + HEADER_SIZE], name, off, len)
  {
    WithHeaderFields(m, h, name, Bytes32(off), Bytes32(len));
    var b := WithHeader(m, h, name, Bytes32(off), Bytes32(len))[h..h + HEADER_SIZE];
    WordAt(b, 68, off);
    WordAt(b, 72, len);
  }

  lemma WithHeaderOutside(m: seq<Byte>, h: nat, name: seq<Byte>, off: seq<Byte>, len: seq<Byte>, a: nat, b: nat)
    requires h + HEADER_SIZE <= |m| && |name| <= 63 && |off| == 4 && |len| == 4
    requires a <= b <= |m| && (b <= h || h + HEADER_SIZE <= a)
    ensures WithHeader(m, h, name, off, len)[a..b] == m[a..b]
  {
    forall i | a <= i < b ensures WithHeader(m, h, name, off, len)[i] == m[i] {
      WithHeaderByte(m, h, name, off, len, i);
    }
  }

  method PutMagic(headers: array<Byte>, h: nat)
    requires h < headers.Length
    modifies headers
    ensures headers[..] == Copied(old(headers[..]), h, [MAGIC])
  {
    headers[h] := MAGIC;
  }

  /** Name, offset, length and magic of one header. */
  method WriteHeader(headers: array<Byte>, h: nat, name: seq<Byte>, off: Word, len: Word)
    requires h + HEADER_SIZE <= headers.Length && |name| <= 63
    modifies headers
    ensures headers[..] == WithHeader(old(headers[..]), h, name, Bytes32(off), Bytes32(len))
  {
    PutName(headers, h + 1, name);
    Put32(headers, h + 68, off);
    Put32(headers, h + 72, len);
    PutMagic(headers, h);
  }

  /** Header `k` of the header array. */
  function HeaderSlice(m: seq<Byte>, k: nat): seq<Byte>
    requires HEADER_SIZE * k + HEADER_SIZE <= |m|
  {
    m[HEADER_SIZE * k..HEADER_SIZE * k + HEADER_SIZE]
  }

  /** The first `n` headers are in place. */
  predicate HeadersDone(m: seq<Byte>, files: seq<File>, n: nat)
    requires n <= |files| <= MAX_FILES && |m| == HEADER_SIZE * MAX_FILES
  {
    forall k | 0 <= k < n :: HeaderOk(HeaderSlice(m, k), files[k].name, Offset(files, k), |files[k].data|)
  }

  /** Writing header `n` makes it right. */
  lemma HeaderMade(m: seq<Byte>, n: nat, name: seq<Byte>, off: Word, len: Word)
    requires HEADER_SIZE * n + HEADER_SIZE <= |m| && |name| <= 63
    ensures HeaderOk(HeaderSlice(WithHeader(m, HEADER_SIZE * n, name, Bytes32(off), Bytes32(len)), n), name, off, len)
  {
    WithHeaderOk(m, HEADER_SIZE * n, name, off, len);
  }

  /** Writing header `n` leaves an earlier one alone. */
  lemma HeaderKept(m: seq<Byte>, n: nat, name: seq<Byte>, off: seq<Byte>, len: seq<Byte>, k: nat)
    requires k < n && HEADER_SIZE * n + HEADER_SIZE <= |m| && |name| <= 63 && |off| == 4 && |len| == 4
    ensures HeaderSlice(WithHeader(m, HEADER_SIZE * n, name, off, len), k) == HeaderSlice(m, k)
  {
    var a := HEADER_SIZE * k;
    WithHeaderOutside(m, HEADER_SIZE * n, name, off, len, a, a + HEADER_SIZE);
  }

  lemma {:induction false} HeadersStep(m: seq<Byte>, m': seq<Byte>, files: seq<File>, n: nat, off: Word, len: Word)
    requires n < |files| <= MAX_FILES && |m| == HEADER_SIZE * MAX_FILES && |files[n].name| <= 63
    requires HeadersDone(m, files, n) && off == Offset(files, n) && len == |files[n].data|
    requires m' == WithHeader(m, HEADER_SIZE * n, files[n].name, Bytes32(off), Bytes32(len))
    ensures HeadersDone(m', files, n + 1)
  {
    forall k | 0 <= k < n + 1
      ensures HeaderOk(HeaderSlice(m', k), files[k].name, Offset(files, k), |files[k].data|)
    {
      if k < n {
        HeaderKept(m, n, files[n].name, Bytes32(off), Bytes32(len), k);
      } else {
        assert k == n;
        HeaderMade(m, n, files[n].name, off, len);
      }
    }
  }

  /** `front` with the data of the first `n` files appended: the second loop. */
  function Appended(front: seq<Byte>, files: seq<File>, n: nat): seq<Byte>
    requires n <= |files|
  {
    if n == 0 then front else Appended(front, files, n - 1) + files[n - 1].data
  }

  lemma {:induction false} AppendedFront(front: seq<Byte>, files: seq<File>, n: nat)
    requires n <= |files| && |front| == DATA_START
    ensures |Appended(front, files, n)| == Offset(files, n) && front <= Appended(front, files, n)
  {
    if n > 0 { AppendedFront(front, files, n - 1); }
  }

  lemma SliceKept(s: seq<Byte>, t: seq<Byte>, a: nat, b: nat)
    requires a <= b <= |s|
    ensures (s + t)[a..b] == s[a..b]
  {
  }

  lemma SliceAdded(s: seq<Byte>, t: seq<Byte>)
    ensures (s + t)[|s|..|s| + |t|] == t
  {
  }

  /** Each file lies at its offset. */
  lemma {:induction false} AppendedData(front: seq<Byte>, files: seq<File>, n: nat, k: nat)
    requires k < n <= |files| && |front| == DATA_START
    ensures var o, img := Offset(files, k), Appended(front, files, n);
            o + |files[k].data| <= |img| && img[o..o + |files[k].data|] == files[k].data
    decreases n
  {
    AppendedFront(front, files, n - 1);
    var before, last := Appended(front, files, n - 1), files[n - 1].data;
    var o := Offset(files, k);
    if k < n - 1 {
      AppendedData(front, files, n - 1, k);
      SliceKept(before, last, o, o + |files[k].data|);
    } else {
      SliceAdded(before, last);
    }
  }

  /** A slice of the headers behind the count. */
  lemma FrontSlices(count: seq<Byte>, headers: seq<Byte>, img: seq<Byte>, i: nat, j: nat)
    requires |count| == 4 && count + headers <= img && i <= j <= |headers|
    ensures img[4 + i..4 + j] == headers[i..j] && img[0..4] == count
  {
    assert img[..4 + |headers|] == count + headers;
  }

  /** Header `k` of the array is header `k` of the image. */
  lemma HeaderInImage(count: seq<Byte>, headers: seq<Byte>, img: seq<Byte>, k: nat)
    requires |count| == 4 && count + headers <= img && HEADER_SIZE * k + HEADER_SIZE <= |headers|
    ensures HeaderAt(0, k) + HEADER_SIZE <= |img|
    ensures img[HeaderAt(0, k)..HeaderAt(0, k) + HEADER_SIZE] == HeaderSlice(headers, k)
  {
    FrontSlices(count, headers, img, HEADER_SIZE * k, HEADER_SIZE * k + HEADER_SIZE);
    var h := HeaderAt(0, k);
    forall i | 0 <= i < HEADER_SIZE ensures img[h..h + HEADER_SIZE][i] == HeaderSlice(headers, k)[i] {
      assert img[h + i] == (count + headers)[h + i];
    }
  }

  lemma {:induction false} AssembledFile(files: seq<File>, count: seq<Byte>, headers: seq<Byte>, img: seq<Byte>, k: nat)
    requires k < |files| && |files| <= MAX_FILES && |count| == 4 && |headers| == HEADER_SIZE * MAX_FILES
    requires HeadersDone(headers, files, |files|) && img == Appended(count + headers, files, |files|)
    ensures |img| == ImageSize(files)
    ensures FileAt(img, 0, 0, files, k)
  {
    AppendedFront(count + headers, files, |files|);
    AppendedData(count + headers, files, |files|, k);
    HeaderInImage(count, headers, img, k);
    OffsetBounds(files, k);
    assert HeaderOk(HeaderSlice(headers, k), files[k].name, Offset(files, k), |files[k].data|);
  }

  lemma {:induction false} AssembledCount(files: seq<File>, count: seq<Byte>, headers: seq<Byte>, img: seq<Byte>)
    requires |files| <= MAX_FILES && |headers| == HEADER_SIZE * MAX_FILES
    requires count == Bytes32(|files|) && img == Appended(count + headers, files, |files|)
    ensures |img| == ImageSize(files) && |img| >= DATA_START && Le32(img, 0) == |files|
  {
    AppendedFront(count + headers, files, |files|);
    OffsetFromStart(files, |files|);
    FrontSlices(count, headers, img, 0, 0);
    WordAt(img, 0, |files|);
  }

  lemma {:induction false} AssembledImage(files: seq<File>, count: seq<Byte>, headers: seq<Byte>, img: seq<Byte>)
    requires |files| <= MAX_FILES && |headers| == HEADER_SIZE * MAX_FILES && HeadersDone(headers, files, |files|)
    requires count == Bytes32(|files|) && img == Appended(count + headers, files, |files|)
    ensures |img| == ImageSize(files) && ImageAt(img, 0, 0, files)
  {
    AssembledCount(files, count, headers, img);
    forall k | 0 <= k < |files| ensures FileAt(img, 0, 0, files, k) {
      AssembledFile(files, count, headers, img, k);
    }
  }

  /** The sizes of the first `k` files together. */
  function SizeBefore(files: seq<File>, k: nat): nat
    requires k <= |files|
  {
    if k == 0 then 0 else SizeBefore(files, k - 1) + |files[k - 1].data|
  }

  lemma {:induction false} OffsetIsSum(files: seq<File>, k: nat)
    requires k <= |files|
    ensures Offset(files, k) == 4868 + SizeBefore(files, k)
  {
    if k > 0 { OffsetIsSum(files, k - 1); }
  }

  /** The low byte first. */
  predicate WordBytes(m: seq<Byte>, p: nat, w: int)
    requires p + 4 <= |m|
  {
    var a: int, b: int, c: int, d: int := m[p], m[p + 1], m[p + 2], m[p + 3];
    w == a + 256 * b + 65536 * c + 16777216 * d
  }

  lemma HeaderBytes(img: seq<Byte>, h: nat, name: seq<Byte>, off: int, len: int)
    requires h + 76 <= |img| && HeaderOk(img[h..h + 76], name, off, len)
    ensures |name| <= 63 && img[h] == 0xbf && img[h + 1..h + 1 + |name|] == name && img[h + 1 + |name|] == 0
    ensures WordBytes(img, h + 68, off) && WordBytes(img, h + 72, len)
  {
    var b := img[h..h + 76];
    assert forall i | 0 <= i < 76 :: b[i] == img[h + i];
    forall i | 0 <= i < |name| ensures img[h + 1..h + 1 + |name|][i] == name[i] {
      assert b[1..1 + |name|][i] == b[1 + i];
    }
  }

  /** File `k` of an image, with its header at `h` and its data at `d`. */
  lemma {:induction false} FileBytes(img: seq<Byte>, files: seq<File>, k: nat, h: nat, d: nat)
    requires ImageAt(img, 0, 0, files) && k < |files| && h == HeaderAt(0, k) && d == Offset(files, k)
    ensures h + 76 <= |img| && d + |files[k].data| <= |img| && img[d..d + |files[k].data|] == files[k].data
    ensures HeaderOk(img[h..h + 76], files[k].name, d, |files[k].data|)
  {
    OffsetBounds(files, k);
    assert FileAt(img, 0, 0, files, k);
  }

  /** The bytes of an image: the number of files; from byte 4 on a header of 76 bytes for each, with the magic,
      the name and its terminator, and at bytes 68 and 72 offset and length; from byte 4868 on the data, file
      after file. */
  lemma ImageBytes(img: seq<Byte>, files: seq<File>, k: nat)
    requires ImageAt(img, 0, 0, files) && k < |files|
    ensures var h, n, d := 4 + 76 * k, |files[k].name|, 4868 + SizeBefore(files, k);
            && h + 76 <= 4868 <= |img| && n <= 63 && d + |files[k].data| <= |img|
            && WordBytes(img, 0, |files|)
            && img[h] == 0xbf && img[h + 1..h + 1 + n] == files[k].name && img[h + 1 + n] == 0
            && WordBytes(img, h + 68, d) && WordBytes(img, h + 72, |files[k].data|)
            && img[d..d + |files[k].data|] == files[k].data
  {
    var h, d := 4 + 76 * k, 4868 + SizeBefore(files, k);
    OffsetIsSum(files, k);
    FileBytes(img, files, k, h, d);
    OffsetBounds(files, 0);
    HeaderBytes(img, h, files[k].name, d, |files[k].data|);
  }

  lemma NextOffset(files: seq<File>, i: nat)
    requires Packable(files) && i < |files|
    ensures Offset(files, i) < WORD_LIMIT && |files[i].data| < WORD_LIMIT
    ensures Add32(Offset(files, i), |files[i].data|) == Offset(files, i + 1)
  {
    OffsetBounds(files, i);
    OffsetBounds(files, i + 1);
  }

  /** One turn of the first loop. */
  method FillHeader(files: seq<File>, headers: array<Byte>, i: nat, off: Word)
    requires i < |files| <= MAX_FILES && headers.Length == HEADER_SIZE * MAX_FILES
    requires |files[i].name| <= 63 && off == Offset(files, i) && |files[i].data| < WORD_LIMIT
    requires HeadersDone(headers[..], files, i)
    modifies headers
    ensures HeadersDone(headers[..], files, i + 1)
  {
    ghost var m := headers[..];
    WriteHeader(headers, HEADER_SIZE * i, files[i].name, off, |files[i].data|);
    HeadersStep(m, headers[..], files, i, off, |files[i].data|);
  }

  /** The first loop. */
  method FillHeaders(files: seq<File>, headers: array<Byte>)
    requires Packable(files) && headers.Length == HEADER_SIZE * MAX_FILES
    modifies headers
    ensures HeadersDone(headers[..], files, |files|)
  {
    var off: Word := DATA_START;
    for i := 0 to |files|
      invariant off == Offset(files, i) && HeadersDone(headers[..], files, i)
    {
      NextOffset(files, i);
      FillHeader(files, headers, i, off);
      off := Add32(off, |files[i].data|);
    }
  }

  /** The second loop. */
  method AppendData(files: seq<File>, start: seq<Byte>) returns (img: seq<Byte>)
    ensures img == Appended(start, files, |files|)
  {
    img := start;
    for i := 0 to |files|
      invariant img == Appended(start, files, i)
    {
      img := img + files[i].data;
    }
  }

  /** The packer: whatever was on the stack where `headers` lies, the output is an image of the files. */
  method Pack(files: seq<File>, headers: array<Byte>) returns (img: seq<Byte>)
    requires Packable(files) && headers.Length == HEADER_SIZE * MAX_FILES
    modifies headers
    ensures |img| == ImageSize(files) && ImageAt(img, 0, 0, files)
  {
    FillHeaders(files, headers);
    var count := Bytes32(|files|);
    img := AppendData(files, count + headers[..]);
    AssembledImage(files, count, headers[..], img);
  }
}
