/** The memory and string primitives of src/libc/string.c, as written. Memory is an array of bytes and a
    pointer is an index into it. */
module CString {
  import opened Division

  type Byte = b: int | 0 <= b < 256

  // ---------------------------------------------------------------------------
  // Specification
  // ---------------------------------------------------------------------------

  predicate Range(m: seq<Byte>, p: nat, n: nat) {
    p + n <= |m|
  }

  /** The memory with the bytes of `[src, src + n)` placed at `dst`, all at once. */
  function Moved(m: seq<Byte>, dst: nat, src: nat, n: nat): (r: seq<Byte>)
    requires Range(m, dst, n) && Range(m, src, n)
    ensures |r| == |m|
  {
    m[..dst] + m[src..src + n] + m[dst + n..]
  }

  /** The memory after copying byte by byte from the low end. */
  function Forward(m: seq<Byte>, dst: nat, src: nat, n: nat): (r: seq<Byte>)
    requires Range(m, dst, n) && Range(m, src, n)
    ensures |r| == |m|
    decreases n
  {
    if n == 0 then m
    else
      var f := Forward(m, dst, src, n - 1);
      f[dst + n - 1 := f[src + n - 1]]
  }

  /** The ranges do not make a forward copy overwrite what it has still to read. */
  predicate SafeForward(dst: nat, src: nat, n: nat) {
    n == 0 || dst <= src || src + n <= dst
  }

  /** The characters from `p` up to the terminator. */
  function Text(m: seq<Byte>, p: nat): (s: seq<Byte>)
    ensures p <= |m| ==> p + |s| <= |m| && m[p..p + |s|] == s
    ensures p <= |m| && p + |s| < |m| ==> m[p + |s|] == 0
    ensures 0 !in s
    decreases |m| - p
  {
    if p >= |m| || m[p] == 0 then [] else [m[p]] + Text(m, p + 1)
  }

  /** There is a terminator at or after `p`. */
  predicate Terminated(m: seq<Byte>, p: nat) {
    p + |Text(m, p)| < |m|
  }

  // ---------------------------------------------------------------------------
  // memcpy against memmove
  // ---------------------------------------------------------------------------

  /** Every byte a forward copy leaves. With the destination inside the source, the first bytes repeat. */
  lemma {:induction false} ForwardByte(m: seq<Byte>, dst: nat, src: nat, n: nat, k: nat)
    requires Range(m, dst, n) && Range(m, src, n) && k < |m|
    ensures Forward(m, dst, src, n)[k] ==
            if !(dst <= k < dst + n) then m[k]
            else if dst <= src then m[src + (k - dst)]
            else m[src + (k - dst) % (dst - src)]
    decreases n
  {
    if n > 0 {
      ForwardByte(m, dst, src, n - 1, k);
      if k == dst + n - 1 {
        ForwardByte(m, dst, src, n - 1, src + n - 1);
        if src < dst {
          if n - 1 < dst - src {
            ModSmall(n - 1, dst - src);
          } else {
            ModStep(n - 1, dst - src);
          }
        }
      }
    }
  }

  /** When the source is not overwritten before it is read, every byte arrives. */
  lemma {:induction false} ForwardByteSafe(m: seq<Byte>, dst: nat, src: nat, n: nat, k: nat)
    requires Range(m, dst, n) && Range(m, src, n) && k < |m| && SafeForward(dst, src, n)
    ensures Forward(m, dst, src, n)[k] == if dst <= k < dst + n then m[src + (k - dst)] else m[k]
    decreases n
  {
    if n > 0 {
      ForwardByteSafe(m, dst, src, n - 1, k);
      ForwardByteSafe(m, dst, src, n - 1, src + n - 1);
    }
  }

  lemma MovedByte(m: seq<Byte>, dst: nat, src: nat, n: nat, k: nat)
    requires Range(m, dst, n) && Range(m, src, n) && k < |m|
    ensures Moved(m, dst, src, n)[k] == if dst <= k < dst + n then m[src + (k - dst)] else m[k]
  {
  }

  lemma {:induction false} ForwardIsMoveWhenSafe(m: seq<Byte>, dst: nat, src: nat, n: nat)
    requires Range(m, dst, n) && Range(m, src, n) && SafeForward(dst, src, n)
    ensures Forward(m, dst, src, n) == Moved(m, dst, src, n)
  {
    forall k | 0 <= k < |m| ensures Forward(m, dst, src, n)[k] == Moved(m, dst, src, n)[k] {
      ForwardByteSafe(m, dst, src, n, k);
      MovedByte(m, dst, src, n, k);
    }
  }

  /** When the destination starts inside the source, a memory with a single one tells the two apart. */
  lemma OverlapWitness(size: nat, dst: nat, src: nat, n: nat) returns (m: seq<Byte>)
    requires dst + n <= size && src + n <= size && !SafeForward(dst, src, n)
    ensures |m| == size && Forward(m, dst, src, n) != Moved(m, dst, src, n)
  {
    m := seq(size, i => if i == src then 1 else 0);
    var d := dst - src;
    ForwardByte(m, dst, src, n, dst + d);
    DivModUnique(d, d, 1, 0);
    assert Forward(m, dst, src, n)[dst + d] == 1;
    MovedByte(m, dst, src, n, dst + d);
  }

  /** `memcpy` does what `memmove` does on every memory of `size` bytes if and only if the ranges are
      disjoint or the destination does not start after the source. */
  lemma {:induction false} ForwardIsMoveIff(size: nat, dst: nat, src: nat, n: nat)
    requires dst + n <= size && src + n <= size
    ensures (forall m: seq<Byte> | |m| == size :: Forward(m, dst, src, n) == Moved(m, dst, src, n))
            <==> SafeForward(dst, src, n)
  {
    if SafeForward(dst, src, n) {
      forall m: seq<Byte> | |m| == size ensures Forward(m, dst, src, n) == Moved(m, dst, src, n) {
        ForwardIsMoveWhenSafe(m, dst, src, n);
      }
    } else {
      var m := OverlapWitness(size, dst, src, n);
    }
  }

  // ---------------------------------------------------------------------------
  // The functions
  // ---------------------------------------------------------------------------

  function Fill(c: Byte, n: nat): (s: seq<Byte>)
    ensures |s| == n && forall i | 0 <= i < n :: s[i] == c
  {
    seq(n, _ => c)
  }

  /** `m` with `s` written at `d`. */
  function Copied(m: seq<Byte>, d: nat, s: seq<Byte>): (r: seq<Byte>)
    requires d + |s| <= |m|
    ensures |r| == |m|
  {
    m[..d] + s + m[d + |s|..]
  }

  lemma CopiedByte(m: seq<Byte>, d: nat, s: seq<Byte>, i: nat)
    requires d + |s| <= |m| && i < |m|
    ensures Copied(m, d, s)[i] == if d <= i < d + |s| then s[i - d] else m[i]
  {
  }

  lemma CopiedStep(m: seq<Byte>, d: nat, s: seq<Byte>, i: nat, next: nat)
    requires d + |s| <= |m| && i < |s| && next == i + 1
    ensures Copied(m, d, s[..i])[d + i := s[i]] == Copied(m, d, s[..next])
  {
    var left, right := Copied(m, d, s[..i])[d + i := s[i]], Copied(m, d, s[..next]);
    forall j | 0 <= j < |m| ensures left[j] == right[j] {
      CopiedByte(m, d, s[..i], j);
      CopiedByte(m, d, s[..next], j);
    }
  }

  /** `memset`. */
  method MemSet(mem: array<Byte>, dst: nat, c: Byte, n: nat)
    requires Range(mem[..], dst, n)
    modifies mem
    ensures mem[..] == Copied(old(mem[..]), dst, Fill(c, n))
  {
    ghost var before := mem[..];
    for i := 0 to n
      invariant mem[..] == Copied(before, dst, Fill(c, n)[..i])
    {
      CopiedStep(before, dst, Fill(c, n), i, i + 1);
      mem[dst + i] := c;
    }
    assert Fill(c, n)[..n] == Fill(c, n);
  }

  /** `memcpy`: exactly the forward copy, whatever the overlap. */
  method MemCpy(mem: array<Byte>, dst: nat, src: nat, size: nat)
    requires Range(mem[..], dst, size) && Range(mem[..], src, size)
    modifies mem
    ensures mem[..] == Forward(old(mem[..]), dst, src, size)
    ensures SafeForward(dst, src, size) ==> mem[..] == Moved(old(mem[..]), dst, src, size)
  {
    var p, q, left := dst, src, size;
    while left > 0
      invariant 0 <= left <= size && p == dst + (size - left) && q == src + (size - left)
      invariant mem[..] == Forward(old(mem[..]), dst, src, size - left)
    {
      mem[p] := mem[q];
      p, q, left := p + 1, q + 1, left - 1;
    }
    if SafeForward(dst, src, size) {
      ForwardIsMoveWhenSafe(old(mem[..]), dst, src, size);
    }
  }

  /** The loop of `memmove` for `d < s`. */
  method CopyUp(mem: array<Byte>, dst: nat, src: nat, n: nat)
    requires Range(mem[..], dst, n) && Range(mem[..], src, n) && dst < src
    modifies mem
    ensures mem[..] == Moved(old(mem[..]), dst, src, n)
  {
    for i := 0 to n
      invariant mem[..] == Forward(old(mem[..]), dst, src, i)
    {
      mem[dst + i] := mem[src + i];
    }
    ForwardIsMoveWhenSafe(old(mem[..]), dst, src, n);
  }

  /** The memory when the copy from the high end has reached offset `i`. */
  function Tail(m: seq<Byte>, dst: nat, src: nat, n: nat, i: nat): seq<Byte>
    requires Range(m, dst, n) && Range(m, src, n) && i <= n
  {
    m[..dst + i] + m[src + i..src + n] + m[dst + n..]
  }

  lemma TailStep(m: seq<Byte>, dst: nat, src: nat, n: nat, i: nat)
    requires Range(m, dst, n) && Range(m, src, n) && i < n && src <= dst
    ensures Tail(m, dst, src, n, i + 1)[src + i] == m[src + i]
    ensures Tail(m, dst, src, n, i + 1)[dst + i := m[src + i]] == Tail(m, dst, src, n, i)
  {
  }

  /** The loop of `memmove` for `s <= d`. */
  method CopyDown(mem: array<Byte>, dst: nat, src: nat, n: nat)
    requires Range(mem[..], dst, n) && Range(mem[..], src, n) && src <= dst
    modifies mem
    ensures mem[..] == Moved(old(mem[..]), dst, src, n)
  {
    ghost var m := mem[..];
    var i := n;
    while i > 0
      invariant 0 <= i <= n
      invariant mem[..] == Tail(m, dst, src, n, i)
    {
      i := i - 1;
      TailStep(m, dst, src, n, i);
      mem[dst + i] := mem[src + i];
    }
  }

  /** `memmove`: the destination gets the old source bytes for any overlap, and nothing else changes. */
  method MemMove(mem: array<Byte>, dst: nat, src: nat, n: nat)
    requires Range(mem[..], dst, n) && Range(mem[..], src, n)
    modifies mem
    ensures mem[..] == Moved(old(mem[..]), dst, src, n)
  {
    if dst < src {
      CopyUp(mem, dst, src, n);
    } else {
      CopyDown(mem, dst, src, n);
    }
  }

  lemma {:induction false} TextChars(m: seq<Byte>, p: nat)
    requires Terminated(m, p)
    ensures forall i | 0 <= i < |Text(m, p)| :: m[p + i] == Text(m, p)[i] && m[p + i] != 0
    ensures m[p + |Text(m, p)|] == 0
  {
    var s := Text(m, p);
    forall i | 0 <= i < |s| ensures m[p + i] == s[i] && m[p + i] != 0 {
      assert m[p..p + |s|][i] == s[i] && s[i] in s;
    }
  }

  /** `strlen`. */
  method StrLen(m: seq<Byte>, p: nat) returns (n: nat)
    requires Terminated(m, p)
    ensures n == |Text(m, p)|
  {
    n := 0;
    while m[p + n] != 0
      invariant 0 <= n <= |Text(m, p)|
      decreases |Text(m, p)| - n
    {
      n := n + 1;
    }
    TextChars(m, p);
  }

  /** Two strings that agree below `i` are equal if and only if both end there. */
  lemma SameUpTo(s: seq<Byte>, t: seq<Byte>, i: nat)
    requires i <= |s| && i <= |t| && forall k | 0 <= k < i :: s[k] == t[k]
    ensures i == |s| || i == |t| ==> (s == t <==> i == |s| == |t|)
    ensures i < |s| && i < |t| && s[i] != t[i] ==> s != t
  {
  }

  /** `strcmp`: zero if and only if the strings are equal. */
  method StrCmp(a: seq<Byte>, p: nat, b: seq<Byte>, q: nat) returns (failed: int)
    requires Terminated(a, p) && Terminated(b, q)
    ensures failed == if Text(a, p) == Text(b, q) then 0 else 1
  {
    ghost var s, t := Text(a, p), Text(b, q);
    TextChars(a, p);
    TextChars(b, q);
    var i := 0;
    failed := 0;
    while a[p + i] != 0 && b[q + i] != 0
      invariant 0 <= i <= |s| && i <= |t| && failed == 0
      invariant forall k | 0 <= k < i :: s[k] == t[k]
      decreases |s| - i
    {
      assert i < |s| && i < |t| && a[p + i] == s[i] && b[q + i] == t[i];
      if a[p + i] != b[q + i] {
        failed := 1;
        break;
      }
      i := i + 1;
    }
    SameUpTo(s, t, i);
    if (a[p + i] == 0 && b[q + i] != 0) || (a[p + i] != 0 && b[q + i] == 0) {
      failed := 1;
    }
  }

  /** What `strcpy` copies: the first character, whatever it is, and then up to the next terminator, but not
      the terminator. */
  function CopiedText(src: seq<Byte>, p: nat): (s: seq<Byte>)
    requires p < |src|
    ensures |s| > 0
  {
    [src[p]] + Text(src, p + 1)
  }

  /** The characters `strcpy` reads, and where it stops. */
  lemma CopiedTextChars(src: seq<Byte>, p: nat)
    requires p < |src| && Terminated(src, p + 1)
    ensures var s := CopiedText(src, p);
            && p + |s| < |src| && src[p + |s|] == 0
            && (forall i | 0 <= i < |s| :: src[p + i] == s[i])
            && (forall i | 0 < i < |s| :: s[i] != 0)
  {
    var t, s := Text(src, p + 1), CopiedText(src, p);
    TextChars(src, p + 1);
    forall i | 0 < i < |s| ensures src[p + i] == s[i] && src[p + i] != 0 {
      assert src[p + 1 + (i - 1)] == t[i - 1];
    }
  }

  /** `strcpy` as written. */
  method StrCpy(dest: array<Byte>, d: nat, src: seq<Byte>, p: nat)
    requires p < |src| && Terminated(src, p + 1) && d + |CopiedText(src, p)| <= dest.Length
    modifies dest
    ensures dest[..] == Copied(old(dest[..]), d, CopiedText(src, p))
  {
    ghost var s, before := CopiedText(src, p), dest[..];
    CopiedTextChars(src, p);
    var i := 0;
    var more := true;
    while more
      invariant 0 <= i <= |s| && more == (i < |s|)
      invariant dest[..] == Copied(before, d, s[..i])
      decreases |s| - i
    {
      var next := i + 1;
      CopiedStep(before, d, s, i, next);
      dest[d + i] := src[p + i];
      i := next;
      more := src[p + i] != 0;
    }
    assert s[..i] == s;
  }

  /** A string that is not empty is copied and no more; an empty one runs on past its terminator. */
  lemma CopiedTextIsText(src: seq<Byte>, p: nat)
    requires Terminated(src, p) && Text(src, p) != []
    ensures p < |src| && Terminated(src, p + 1) && CopiedText(src, p) == Text(src, p)
  {
  }

  /** `memcpy` from one object to another. */
  method MemCpyTo(dest: array<Byte>, dst: nat, src: array<Byte>, p: nat, size: nat)
    requires dest != src && dst + size <= dest.Length && p + size <= src.Length
    modifies dest
    ensures dest[..] == Copied(old(dest[..]), dst, src[p..p + size])
  {
    ghost var s, before := src[p..p + size], dest[..];
    for i := 0 to size
      invariant src[p..p + size] == s && dest[..] == Copied(before, dst, s[..i])
    {
      CopiedStep(before, dst, s, i, i + 1);
      dest[dst + i] := src[p + i];
    }
    assert s[..size] == s;
  }

  /** Two copies, one behind the other, are one. */
  lemma CopiedTwice(m: seq<Byte>, d: nat, s: seq<Byte>, t: seq<Byte>)
    requires d + |s| + |t| <= |m|
    ensures Copied(Copied(m, d, s), d + |s|, t) == Copied(m, d, s + t)
  {
    var left, right := Copied(Copied(m, d, s), d + |s|, t), Copied(m, d, s + t);
    forall i | 0 <= i < |m| ensures left[i] == right[i] {
      CopiedByte(m, d, s, i);
      CopiedByte(Copied(m, d, s), d + |s|, t, i);
      CopiedByte(m, d, s + t, i);
    }
  }

  /** A copy shows itself and leaves what it does not touch. */
  lemma CopiedSlices(m: seq<Byte>, d: nat, s: seq<Byte>, a: nat, b: nat)
    requires d + |s| <= |m| && a <= b <= |m|
    ensures Copied(m, d, s)[d..d + |s|] == s
    ensures b <= d || d + |s| <= a ==> Copied(m, d, s)[a..b] == m[a..b]
  {
    var r := Copied(m, d, s);
    forall i | 0 <= i < |s| ensures r[d..d + |s|][i] == s[i] {
      CopiedByte(m, d, s, d + i);
    }
    if b <= d || d + |s| <= a {
      forall i | 0 <= i < b - a ensures r[a..b][i] == m[a..b][i] {
        CopiedByte(m, d, s, a + i);
      }
    }
  }

  lemma SameTail(x: Byte, t: seq<Byte>, s: seq<Byte>)
    requires s != [] && s[0] == x
    ensures [x] + t == s <==> t == s[1..]
  {
    assert s == [s[0]] + s[1..];
    assert ([x] + t)[1..] == t;
  }

  lemma {:induction false} TextUniqueTo(m: seq<Byte>, p: nat, e: nat, s: seq<Byte>)
    requires e == p + |s| < |m| && m[p..e] == s && 0 !in s
    ensures Text(m, p) == s <==> m[e] == 0
    decreases |s|
  {
    if s != [] {
      assert m[p] == m[p..e][0] == s[0] && s[0] in s;
      assert m[p + 1..e] == m[p..e][1..];
      assert forall x <- s[1..] :: x in s;
      TextUniqueTo(m, p + 1, e, s[1..]);
      SameTail(m[p], Text(m, p + 1), s);
    }
  }

  /** A string is determined by its characters and the terminator behind them. */
  lemma {:induction false} TextUnique(m: seq<Byte>, p: nat, s: seq<Byte>)
    requires p + |s| < |m| && m[p..p + |s|] == s && 0 !in s
    ensures Text(m, p) == s <==> m[p + |s|] == 0
  {
    TextUniqueTo(m, p, p + |s|, s);
  }

  /** A non-empty copy reads back as the string if and only if a terminator was already in place behind it. */
  lemma {:induction false} CopyReadsBack(m: seq<Byte>, d: nat, s: seq<Byte>)
    requires d + |s| < |m| && 0 !in s
    ensures Text(Copied(m, d, s), d) == s <==> m[d + |s|] == 0
  {
    var r := Copied(m, d, s);
    assert r[d..d + |s|] == s && r[d + |s|] == m[d + |s|];
    TextUnique(r, d, s);
  }

  /** After `strcpy` the destination reads as the source string if and only if that is empty or a terminator was
      already in place behind the copy. */
  lemma {:induction false} CopyReadsBackIff(m: seq<Byte>, d: nat, src: seq<Byte>, p: nat)
    requires Terminated(src, p) && Terminated(src, p + 1)
    requires d + |CopiedText(src, p)| <= |m| && d + |Text(src, p)| < |m|
    ensures Text(Copied(m, d, CopiedText(src, p)), d) == Text(src, p) <==>
            Text(src, p) == [] || m[d + |Text(src, p)|] == 0
  {
    if Text(src, p) == [] {
      CopiedByte(m, d, CopiedText(src, p), d);
    } else {
      CopiedTextIsText(src, p);
      CopyReadsBack(m, d, Text(src, p));
    }
  }

  /** Copying "A" over "BBB" leaves "ABB". */
  lemma CopyKeepsTail()
    ensures Copied([66, 66, 66, 0], 0, CopiedText([65, 0, 0], 0)) == [65, 66, 66, 0]
    ensures Text([65, 66, 66, 0], 0) == [65, 66, 66] != Text([65, 0, 0], 0)
  {
    var m: seq<Byte>, src: seq<Byte> := [65, 66, 66, 0], [65, 0, 0];
    TextUnique(m, 0, [65, 66, 66]);
    TextUnique(src, 0, [65]);
    assert Text(src, 1) == [];
  }
}
