/** Relocation of an image in memory and directory lookup, as statements about values. */
module RamdiskFacts {
  import opened Words
  import opened CString
  import opened Initrd

  const DEV: seq<Byte> := [100, 101, 118]                          // "dev"
  const INITRD: seq<Byte> := [105, 110, 105, 116, 114, 100]        // "initrd"

  // ---------------------------------------------------------------------------
  // file_headers[i].offset += addr
  // ---------------------------------------------------------------------------

  function OffsetField(base: nat, k: nat): nat { HeaderAt(base, k) + 68 }

  /** The first `n` files are relocated, the others are not. */
  predicate Mixed(m: seq<Byte>, base: nat, files: seq<File>, n: nat) {
    && |files| <= MAX_FILES && base + ImageSize(files) <= |m|
    && (OffsetBounds(files, 0); Le32(m, base) == |files|)
    && (forall k | 0 <= k < n && k < |files| :: FileAt(m, base, base, files, k))
    && (forall k | n <= k < |files| :: FileAt(m, base, 0, files, k))
  }

  lemma MixedEnds(m: seq<Byte>, base: nat, files: seq<File>)
    ensures ImageAt(m, base, 0, files) ==> Mixed(m, base, files, 0)
    ensures Mixed(m, base, files, |files|) ==> ImageAt(m, base, base, files)
  {
  }

  /** Overwriting part of a slice. */
  lemma CopiedWithin(m: seq<Byte>, d: nat, s: seq<Byte>, a: nat, b: nat)
    requires a <= d && d + |s| <= b <= |m|
    ensures Copied(m, d, s)[a..b] == Copied(m[a..b], d - a, s)
  {
  }

  /** A header with a new offset is still that header. */
  lemma HeaderRelocated(b: seq<Byte>, name: seq<Byte>, off: int, len: int, w: Word)
    requires HeaderOk(b, name, off, len)
    ensures HeaderOk(Copied(b, 68, Bytes32(w)), name, w, len)
  {
    var four := Bytes32(w);
    var b' := Copied(b, 68, four);
    CopiedSlices(b, 68, four, 1, 1 + |name|);
    CopiedSlices(b, 68, four, 72, 76);
    CopiedByte(b, 68, four, 0);
    CopiedByte(b, 68, four, 1 + |name|);
    WordAt(b', 68, w);
    LeSlice(b, 72, 72);
    LeSlice(b', 72, 72);
  }

  /** Editing the header of file `n` does not touch another file. */
  lemma OtherFileKept(m: seq<Byte>, base: nat, shift: nat, files: seq<File>, n: nat, k: nat, four: seq<Byte>)
    requires |files| <= MAX_FILES && base + ImageSize(files) <= |m|
    requires n < |files| && k < |files| && n != k && |four| == 4
    requires (OffsetBounds(files, 0); FileAt(m, base, shift, files, k))
    ensures OffsetField(base, n) + 4 <= |m|
    ensures FileAt(Copied(m, OffsetField(base, n), four), base, shift, files, k)
  {
    OffsetBounds(files, k);
    var h, d := HeaderAt(base, k), base + Offset(files, k);
    CopiedSlices(m, OffsetField(base, n), four, h, h + HEADER_SIZE);
    CopiedSlices(m, OffsetField(base, n), four, d, d + |files[k].data|);
  }

  lemma {:induction false} OwnFileRelocated(m: seq<Byte>, base: nat, files: seq<File>, n: nat, w: Word)
    requires |files| <= MAX_FILES && base + ImageSize(files) <= |m| && n < |files|
    requires (OffsetBounds(files, 0); FileAt(m, base, 0, files, n)) && w == base + Offset(files, n)
    ensures OffsetField(base, n) + 4 <= |m|
    ensures FileAt(Copied(m, OffsetField(base, n), Bytes32(w)), base, base, files, n)
  {
    OffsetBounds(files, n);
    var h, d := HeaderAt(base, n), base + Offset(files, n);
    var four := Bytes32(w);
    CopiedWithin(m, OffsetField(base, n), four, h, h + HEADER_SIZE);
    HeaderRelocated(m[h..h + HEADER_SIZE], files[n].name, Offset(files, n), |files[n].data|, w);
    CopiedSlices(m, OffsetField(base, n), four, d, d + |files[n].data|);
  }

  lemma CountKept(m: seq<Byte>, base: nat, files: seq<File>, n: nat, four: seq<Byte>)
    requires |files| <= MAX_FILES && base + ImageSize(files) <= |m| && n < |files| && |four| == 4
    ensures OffsetField(base, n) + 4 <= |m| && base + 4 <= |m|
    ensures Le32(Copied(m, OffsetField(base, n), four), base) == Le32(m, base)
  {
    OffsetBounds(files, 0);
    CopiedSlices(m, OffsetField(base, n), four, base, base + 4);
    LeSlice(m, base, base);
    LeSlice(Copied(m, OffsetField(base, n), four), base, base);
  }

  lemma OthersKept(m: seq<Byte>, base: nat, files: seq<File>, n: nat, four: seq<Byte>)
    requires Mixed(m, base, files, n) && n < |files| && |four| == 4
    ensures OffsetField(base, n) + 4 <= |m|
    ensures var m' := Copied(m, OffsetField(base, n), four);
            && (forall k | 0 <= k < n :: FileAt(m', base, base, files, k))
            && (forall k | n < k < |files| :: FileAt(m', base, 0, files, k))
  {
    OffsetBounds(files, 0);
    var m' := Copied(m, OffsetField(base, n), four);
    forall k | 0 <= k < n ensures FileAt(m', base, base, files, k) {
      OtherFileKept(m, base, base, files, n, k, four);
    }
    forall k | n < k < |files| ensures FileAt(m', base, 0, files, k) {
      OtherFileKept(m, base, 0, files, n, k, four);
    }
  }

  /** One turn of the relocation loop. */
  lemma {:induction false} RelocateStep(m: seq<Byte>, base: nat, files: seq<File>, n: nat, w: Word)
    requires Mixed(m, base, files, n) && n < |files| && w == base + Offset(files, n)
    ensures OffsetField(base, n) + 4 <= |m|
    ensures Mixed(Copied(m, OffsetField(base, n), Bytes32(w)), base, files, n + 1)
  {
    OffsetBounds(files, 0);
    OwnFileRelocated(m, base, files, n, w);
    CountKept(m, base, files, n, Bytes32(w));
    OthersKept(m, base, files, n, Bytes32(w));
  }

  lemma SubSlice(m: seq<Byte>, h: nat, n: nat, i: nat, j: nat)
    requires h + n <= |m| && i <= j <= n
    ensures m[h + i..h + j] == m[h..h + n][i..j]
  {
    var left, right := m[h + i..h + j], m[h..h + n][i..j];
    forall x | 0 <= x < j - i ensures left[x] == right[x] {
      assert m[h..h + n][i + x] == m[h + i + x];
    }
  }

  lemma WordInSlice(m: seq<Byte>, h: nat, n: nat, i: nat)
    requires h + n <= |m| && i + 4 <= n
    ensures Le32(m, h + i) == Le32(m[h..h + n], i)
  {
  }

  /** The header at `h`, read as the driver reads it. */
  predicate Describes(m: seq<Byte>, h: nat, name: seq<Byte>, off: int, len: int) {
    && h + HEADER_SIZE <= |m|
    && Terminated(m, h + 1) && Text(m, h + 1) == name
    && Le32(m, h + 68) == off && Le32(m, h + 72) == len
  }

  lemma {:induction false} SliceReads(m: seq<Byte>, h: nat, name: seq<Byte>, off: int, len: int)
    requires h + HEADER_SIZE <= |m| && HeaderOk(m[h..h + HEADER_SIZE], name, off, len) && 0 !in name
    ensures Describes(m, h, name, off, len)
  {
    SubSlice(m, h, HEADER_SIZE, 1, 1 + |name|);
    TextUnique(m, h + 1, name);
    WordInSlice(m, h, HEADER_SIZE, 68);
    WordInSlice(m, h, HEADER_SIZE, 72);
  }

  /** What the driver reads in the header of file `k`. */
  lemma {:induction false} HeaderReads(m: seq<Byte>, base: nat, shift: nat, files: seq<File>, k: nat)
    requires |files| <= MAX_FILES && base + ImageSize(files) <= |m| && k < |files|
    requires (OffsetBounds(files, 0); FileAt(m, base, shift, files, k)) && 0 !in files[k].name
    ensures Describes(m, HeaderAt(base, k), files[k].name, shift + Offset(files, k), |files[k].data|)
  {
    OffsetBounds(files, k);
    SliceReads(m, HeaderAt(base, k), files[k].name, shift + Offset(files, k), |files[k].data|);
  }

  lemma {:induction false} RelocatedHeader(m: seq<Byte>, base: nat, files: seq<File>, n: nat, k: nat)
    requires Packable(files) && Mixed(m, base, files, n) && k < n && k < |files|
    ensures Describes(m, HeaderAt(base, k), files[k].name, base + Offset(files, k), |files[k].data|)
  {
    OffsetBounds(files, 0);
    assert FileAt(m, base, base, files, k);
    HeaderReads(m, base, base, files, k);
  }

  // ---------------------------------------------------------------------------
  // Directory
  // ---------------------------------------------------------------------------

  /** What the reader demands: names that are not empty, since `strcpy` runs on past an empty one. */
  predicate Loadable(files: seq<File>) {
    Packable(files) && forall k | 0 <= k < |files| :: files[k].name != []
  }

  /** That is: at most 64 files of less than 4 GB together with the headers, and names of 1 to 63 characters. */
  lemma {:induction false} LoadableMeans(files: seq<File>)
    ensures Loadable(files) <==>
            && |files| <= 64 && 4868 + SizeBefore(files, |files|) < 0x1_0000_0000
            && forall k | 0 <= k < |files| :: 0 < |files[k].name| <= 63 && 0 !in files[k].name
  {
    OffsetIsSum(files, |files|);
    assert forall k | 0 <= k < |files| :: files[k].name == [] <==> |files[k].name| == 0;
  }

  /** No two files have the same name, and none is called "dev". */
  predicate Distinct(files: seq<File>) {
    && (forall k | 0 <= k < |files| :: files[k].name != DEV)
    && (forall j, k | 0 <= j < k < |files| :: files[j].name != files[k].name)
  }

  /** The first file from `i` on with that name. */
  function FindFrom(files: seq<File>, name: seq<Byte>, i: nat): (r: Option<nat>)
    ensures r.None? ==> forall k | i <= k < |files| :: files[k].name != name
    ensures r.Some? ==> i <= r.value < |files| && files[r.value].name == name
    ensures r.Some? ==> forall k | i <= k < r.value :: files[k].name != name
    decreases |files| - i
  {
    if i >= |files| then None
    else if files[i].name == name then Some(i)
    else FindFrom(files, name, i + 1)
  }

  // ---------------------------------------------------------------------------
  // Reading
  // ---------------------------------------------------------------------------

  /** How many bytes `read` copies, with the 32-bit sum of the code. */
  function ReadCount(len: nat, offset: Word, size: Word): nat {
    if len < offset then 0
    else if Add32(offset, size) > len then len - offset
    else size
  }

  /** The read stays inside the file; a caller that knows the length can test it before the call. */
  predicate ReadSafe(len: nat, offset: Word, size: Word) {
    len < offset || offset + size < WORD_LIMIT || offset + size - WORD_LIMIT > len
  }

  /** The clamping is exact: `read` stays inside the file if and only if the sum does not wrap into it. */
  lemma ReadCountInsideIff(len: nat, offset: Word, size: Word)
    requires len < WORD_LIMIT
    ensures offset + ReadCount(len, offset, size) <= len || len < offset <==> ReadSafe(len, offset, size)
    ensures offset + size < WORD_LIMIT && offset <= len ==>
              ReadCount(len, offset, size) == if size <= len - offset then size else len - offset
  {
  }

  /** Reading nearly 4 GB from offset 5 of a file of 10 bytes is not cut short. */
  lemma WrapReadsOn()
    ensures ReadCount(10, 5, 0xffff_fffc) == 0xffff_fffc
  {
  }

  /** What a read of a file returns. */
  function ReadBytes(data: seq<Byte>, offset: Word, size: Word): seq<Byte>
    requires ReadSafe(|data|, offset, size)
  {
    if |data| < offset then [] else data[offset..offset + ReadCount(|data|, offset, size)]
  }

  lemma ReadBytesAre(data: seq<Byte>, offset: Word, size: Word, n: nat)
    requires ReadSafe(|data|, offset, size) && offset <= |data| < WORD_LIMIT
    requires n == ReadCount(|data|, offset, size)
    ensures offset + n <= |data| && ReadBytes(data, offset, size) == data[offset..offset + n]
  {
    ReadCountInsideIff(|data|, offset, size);
  }

  /** The results of consecutive reads of the given sizes, with any reader. */
  function ReadChunks(read: (nat, Word) -> seq<Byte>, offset: nat, sizes: seq<Word>): seq<Byte>
    decreases |sizes|
  {
    if sizes == [] then []
    else read(offset, sizes[0]) + ReadChunks(read, offset + sizes[0], sizes[1..])
  }

  /** The reader that a file is; a read whose range wraps is not made. */
  function ReaderOf(data: seq<Byte>): (nat, Word) -> seq<Byte> {
    (offset: nat, size: Word) => if offset + size < WORD_LIMIT then ReadBytes(data, offset, size) else []
  }

  function Sum(sizes: seq<Word>): nat {
    if sizes == [] then 0 else sizes[0] + Sum(sizes[1..])
  }

  lemma {:induction false} SumStep(sizes: seq<Word>, i: nat)
    requires i < |sizes|
    ensures Sum(sizes[i..]) == sizes[i] + Sum(sizes[i + 1..])
  {
    assert sizes[i..][1..] == sizes[i + 1..];
  }

  function Clip(data: seq<Byte>, a: nat, b: nat): seq<Byte>
    requires a <= b
  {
    if a >= |data| then [] else if b >= |data| then data[a..] else data[a..b]
  }

  lemma ClipSplit(data: seq<Byte>, a: nat, b: nat, c: nat)
    requires a <= b <= c
    ensures Clip(data, a, b) + Clip(data, b, c) == Clip(data, a, c)
  {
  }

  lemma ClipEmpty(data: seq<Byte>, a: nat, b: nat)
    requires a == b
    ensures Clip(data, a, b) == []
  {
  }

  lemma ChunkFirst(first: seq<Byte>, rest: seq<Byte>, data: seq<Byte>, a: nat, b: nat, c: nat)
    requires a <= b <= c && first == Clip(data, a, b) && rest == Clip(data, b, c)
    ensures first + rest == Clip(data, a, c)
  {
    ClipSplit(data, a, b, c);
  }

  /** Reads compose: however a range is cut into chunks, the results are its bytes in order. */
  lemma {:induction false} ChunksCompose(read: (nat, Word) -> seq<Byte>, data: seq<Byte>, offset: nat, sizes: seq<Word>,
                                         end: nat)
    requires forall o: nat, n: Word | o + n < WORD_LIMIT :: read(o, n) == Clip(data, o, o + n)
    requires end == offset + Sum(sizes) < WORD_LIMIT
    ensures ReadChunks(read, offset, sizes) == Clip(data, offset, end)
    decreases |sizes|
  {
    if sizes == [] {
      ClipEmpty(data, offset, end);
    } else {
      ChunksCompose(read, data, offset + sizes[0], sizes[1..], end);
      ChunkFirst(read(offset, sizes[0]), ReadChunks(read, offset + sizes[0], sizes[1..]), data,
                 offset, offset + sizes[0], end);
    }
  }

  lemma ReadIsClip(data: seq<Byte>, offset: Word, size: Word)
    requires offset + size < WORD_LIMIT
    ensures ReadBytes(data, offset, size) == Clip(data, offset, offset + size)
  {
  }

  /** Any cut of a range of a file, and so any cut of the whole file, reads its bytes; a read at or past
      the end gives nothing. */
  lemma {:induction false} FileReadsCompose(data: seq<Byte>, offset: nat, sizes: seq<Word>)
    requires offset + Sum(sizes) < WORD_LIMIT
    ensures ReadChunks(ReaderOf(data), offset, sizes) == Clip(data, offset, offset + Sum(sizes))
    ensures offset == 0 && |data| <= Sum(sizes) ==> ReadChunks(ReaderOf(data), offset, sizes) == data
    ensures offset >= |data| ==> ReadChunks(ReaderOf(data), offset, sizes) == []
  {
    var read := ReaderOf(data);
    forall o: nat, n: Word | o + n < WORD_LIMIT ensures read(o, n) == Clip(data, o, o + n) {
      ReadIsClip(data, o, n);
    }
    ChunksCompose(read, data, offset, sizes, offset + Sum(sizes));
  }
}
