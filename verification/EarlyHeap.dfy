/** The bump allocator of src/mm/alloc.c. */
module EarlyHeap {
  import opened Words

  /** The four globals of src/mm/alloc.c as a value. */
  datatype Heap = Heap(initialized: bool, initialBase: Word, currentBase: Word, maxBase: Word) {
    /** The state that `kmalloc_early_init` sets up and every served request keeps. */
    predicate Valid() {
      initialized && initialBase <= currentBase <= maxBase
    }
  }

  datatype Request = Plain(size: Word) | PageAligned(size: Word)

  /** A served request: `pad` bytes were skipped in front of the block. */
  datatype Block = Block(addr: Word, size: Word, pad: nat, aligned: bool)

  /** Where the next block for `q` would start. */
  function Cursor(h: Heap, q: Request): Word {
    if q.PageAligned? then PageAlignUp(h.currentBase) else h.currentBase
  }

  /** One request as a function of the allocator state: the address (NULL for size zero) and the new state. */
  function Serve(h: Heap, q: Request): Res<(Word, Heap)> {
    if !h.initialized then Halt(NotInitialised)
    else if q.size == 0 then Ok((0, h))
    else
      var start := Cursor(h, q);
      if Add32(q.size, start) > h.maxBase then Halt(OutOfMemory)
      else Ok((start, h.(currentBase := Add32(start, q.size))))
  }

  /** A whole run: the blocks handed out, in order, and the final state. */
  function Run(h: Heap, qs: seq<Request>): Res<(seq<Block>, Heap)>
    decreases |qs|
  {
    if qs == [] then Ok(([], h))
    else
      var q := qs[0];
      var (addr, h') :- Serve(h, q);
      var (rest, h'') :- Run(h', qs[1..]);
      if q.size == 0 then Ok((rest, h''))
      else
        var pad := if addr < h.currentBase then 0 else addr - h.currentBase;
        Ok(([Block(addr, q.size, pad, q.PageAligned?)] + rest, h''))
  }

  /** Neither rounding up nor adding the size leaves 32 bits; a caller can test it before the call. */
  predicate NoWrap(h: Heap, q: Request) {
    && (q.PageAligned? ==> h.currentBase <= PAGE_ALIGN)
    && Cursor(h, q) + q.size < WORD_LIMIT
  }

  /** Every request of the run satisfies `NoWrap` when its turn comes. */
  predicate NeverWraps(h: Heap, qs: seq<Request>)
    decreases |qs|
  {
    qs == [] || (NoWrap(h, qs[0]) && (Serve(h, qs[0]).Ok? ==> NeverWraps(Serve(h, qs[0]).value.1, qs[1..])))
  }

  function TotalBytes(bs: seq<Block>): nat {
    if bs == [] then 0 else bs[0].pad + bs[0].size + TotalBytes(bs[1..])
  }

  /** The blocks lie in `[lo, hi)`, one after the other. */
  predicate InOrder(bs: seq<Block>, lo: nat, hi: nat)
    decreases |bs|
  {
    if bs == [] then lo <= hi
    else lo <= bs[0].addr && InOrder(bs[1..], bs[0].addr + bs[0].size, hi)
  }

  predicate WellPlaced(b: Block) {
    && b.size > 0
    && (if b.aligned then b.addr % PAGE_SIZE == 0 && b.pad < PAGE_SIZE else b.pad == 0)
  }

  predicate Disjoint(a: Block, b: Block) {
    a.addr + a.size <= b.addr || b.addr + b.size <= a.addr
  }

  /** One served request moves the cursor past the block, skipping less than a page. */
  lemma ServeStep(h: Heap, q: Request)
    requires h.Valid() && NoWrap(h, q) && Serve(h, q).Ok? && q.size != 0
    ensures var (addr, h') := Serve(h, q).value;
            && h' == h.(currentBase := addr + q.size) && h'.Valid()
            && h.currentBase <= addr
            && WellPlaced(Block(addr, q.size, addr - h.currentBase, q.PageAligned?))
  {
  }

  lemma {:induction false} RunInOrder(h: Heap, qs: seq<Request>)
    requires h.Valid() && NeverWraps(h, qs) && Run(h, qs).Ok?
    ensures var (bs, h') := Run(h, qs).value;
            && h'.Valid() && h'.initialBase == h.initialBase && h'.maxBase == h.maxBase
            && InOrder(bs, h.currentBase, h'.currentBase)
            && h'.currentBase - h.currentBase == TotalBytes(bs)
            && forall b <- bs :: WellPlaced(b)
    decreases |qs|
  {
    if qs != [] {
      var (addr, h1) := Serve(h, qs[0]).value;
      if qs[0].size != 0 {
        ServeStep(h, qs[0]);
      }
      RunInOrder(h1, qs[1..]);
      var (rest, _) := Run(h1, qs[1..]).value;
      if qs[0].size != 0 {
        var bs := Run(h, qs).value.0;
        assert bs[1..] == rest;
        assert forall b <- bs :: b == bs[0] || b in rest;
      }
    }
  }

  lemma {:induction false} InOrderBounds(bs: seq<Block>, lo: nat, hi: nat, k: nat)
    requires InOrder(bs, lo, hi) && k < |bs|
    ensures lo <= bs[k].addr && bs[k].addr + bs[k].size <= hi && lo <= hi
    decreases |bs|
  {
    if k > 0 {
      InOrderBounds(bs[1..], bs[0].addr + bs[0].size, hi, k - 1);
    } else if |bs| > 1 {
      InOrderBounds(bs[1..], bs[0].addr + bs[0].size, hi, 0);
    }
  }

  lemma {:induction false} InOrderDisjoint(bs: seq<Block>, lo: nat, hi: nat, j: nat, k: nat)
    requires InOrder(bs, lo, hi) && j < k < |bs|
    ensures bs[j].addr + bs[j].size <= bs[k].addr
    decreases j
  {
    if j == 0 {
      InOrderBounds(bs[1..], bs[0].addr + bs[0].size, hi, k - 1);
    } else {
      InOrderDisjoint(bs[1..], bs[0].addr + bs[0].size, hi, j - 1, k - 1);
    }
  }

  /** Safety of every run from a fresh heap: the blocks are inside `[base, max)`, pairwise disjoint, the
      aligned ones start on page boundaries, and the bytes used are the sizes plus less than one page
      of padding per aligned block and none for the others. */
  lemma {:induction false} RunSafe(base: Word, max: Word, qs: seq<Request>)
    requires base < max
    requires var h := Heap(true, base, base, max); NeverWraps(h, qs) && Run(h, qs).Ok?
    ensures var (bs, h') := Run(Heap(true, base, base, max), qs).value;
            && (forall k | 0 <= k < |bs| :: base <= bs[k].addr && bs[k].addr + bs[k].size <= max && WellPlaced(bs[k]))
            && (forall j, k | 0 <= j < k < |bs| :: Disjoint(bs[j], bs[k]))
            && h'.currentBase - base == TotalBytes(bs)
  {
    var h := Heap(true, base, base, max);
    RunInOrder(h, qs);
    var (bs, h') := Run(h, qs).value;
    forall k | 0 <= k < |bs| ensures base <= bs[k].addr && bs[k].addr + bs[k].size <= max && WellPlaced(bs[k]) {
      InOrderBounds(bs, base, h'.currentBase, k);
    }
    forall j, k | 0 <= j < k < |bs| ensures Disjoint(bs[j], bs[k]) {
      InOrderDisjoint(bs, base, h'.currentBase, j, k);
    }
  }

  /** The bound test is exact only without wrap: a request that is served stays inside the heap if and only
      if it did not wrap. */
  lemma ServedInsideIffNoWrap(h: Heap, q: Request)
    requires h.Valid() && q.size > 0 && Serve(h, q).Ok?
    ensures (var start := Serve(h, q).value.0; h.currentBase <= start && start + q.size <= h.maxBase) <==> NoWrap(h, q)
  {
    if q.PageAligned? && h.currentBase > PAGE_ALIGN {
      assert Cursor(h, q) == 0;
    }
  }

  /** `start` is the first place a block for `q` may have: the cursor, or the page boundary not below it. */
  predicate FirstPlace(h: Heap, q: Request, start: nat) {
    if q.PageAligned? then start % 4096 == 0 && h.currentBase <= start < h.currentBase + 4096
    else start == h.currentBase
  }

  lemma FirstPlaceIsCursor(h: Heap, q: Request, start: nat)
    requires FirstPlace(h, q, start) && start < 0x1_0000_0000
    ensures Cursor(h, q) == start
  {
    if q.PageAligned? {
      assert start == 4096 * (start / 4096);
      assert h.currentBase == 4096 * (h.currentBase / 4096) + h.currentBase % 4096;
    }
  }

  /** A request of any size that stays within 32 bits is served if and only if it fits, and then at the first place;
      otherwise the heap is exhausted. */
  lemma ServedIffFits(h: Heap, q: Request, start: nat)
    requires h.Valid() && q.size > 0 && FirstPlace(h, q, start) && start + q.size < 0x1_0000_0000
    ensures Serve(h, q).Ok? <==> start + q.size <= h.maxBase
    ensures Serve(h, q).Ok? ==> Serve(h, q).value == (start, h.(currentBase := start + q.size))
    ensures Serve(h, q).Halt? ==> Serve(h, q).why == OutOfMemory
  {
    FirstPlaceIsCursor(h, q, start);
  }

  /** A request for nothing gets NULL and costs nothing; before initialisation every request halts. */
  lemma ServedNothing(h: Heap, q: Request)
    ensures !h.initialized ==> Serve(h, q) == Halt(NotInitialised)
    ensures h.initialized && q.size == 0 ==> Serve(h, q) == Ok((0, h))
  {
  }

  /** A request of nearly 4 GB is served from the kernel's 1 MB heap. */
  lemma WrapIsServed()
    ensures Serve(Heap(true, 0xc020_0000, 0xc020_0000, 0xc030_0000), Plain(0xffff_ffff)) ==
            Ok((0xc020_0000, Heap(true, 0xc020_0000, 0xc01f_ffff, 0xc030_0000)))
  {
  }

  /** The allocator itself. */
  class Allocator {
    var initialized: bool
    var initialBase: Word
    var currentBase: Word
    var maxBase: Word

    function State(): Heap
      reads this
    {
      Heap(initialized, initialBase, currentBase, maxBase)
    }

    constructor ()
      ensures !initialized
    {
      initialized, initialBase, currentBase, maxBase := false, 0, 0, 0;
    }

    /** `kmalloc_early_init`. */
    method Init(base: Word, max: Word) returns (r: Res<()>)
      modifies this
      ensures r == if base < max then Ok(()) else Halt(AssertionFailed)
      ensures r.Ok? ==> State() == Heap(true, base, base, max) && State().Valid()
    {
      if !(base < max) {
        return Halt(AssertionFailed);
      }
      initialBase, currentBase := base, base;
      maxBase := max;
      initialized := true;
      return Ok(());
    }

    /** `kmalloc_early`. */
    method Alloc(size: Word) returns (r: Res<Word>)
      modifies this
      ensures match Serve(old(State()), Plain(size))
              case Halt(why) => r == Halt(why)
              case Ok((addr, h)) => r == Ok(addr) && State() == h
    {
      if !initialized {
        return Halt(NotInitialised);
      }
      if size == 0 {
        return Ok(0);
      }
      if Add32(size, currentBase) > maxBase {
        return Halt(OutOfMemory);
      }
      var addr := currentBase;
      currentBase := Add32(currentBase, size);
      return Ok(addr);
    }

    /** `kmalloc_early_align`. */
    method AllocAligned(size: Word) returns (r: Res<Word>)
      modifies this
      ensures match Serve(old(State()), PageAligned(size))
              case Halt(why) => r == Halt(why)
              case Ok((addr, h)) => r == Ok(addr) && State() == h
    {
      if !initialized {
        return Halt(NotInitialised);
      }
      if size == 0 {
        return Ok(0);
      }
      if !Aligned(currentBase) {
        currentBase := RoundDown(currentBase);
        currentBase := Add32(currentBase, PAGE_SIZE);
      }
      r := Alloc(size);
    }
  }
}
