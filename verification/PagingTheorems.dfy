/** What holds over every run of `page_map` and allocator calls after `init_paging`. */
module PagingTheorems {
  import opened Words
  import opened Bits
  import opened PageWalk
  import opened EarlyHeap
  import opened Paging
  import opened PagingSteps
  import opened PagingRuns
  import opened Boot

  /** What the kernel does once paging is on. */
  datatype Op = Map(virt: Word, phys: Word, perm: Word) | Grab(request: Request)

  /** The tables and the allocator. */
  datatype Config = Config(tables: Space, heap: Heap) {
    /** The state `init_paging` leaves and every permitted operation keeps. */
    predicate Valid() {
      && heap.Valid() && heap.maxBase % 4096 == 0 && heap.maxBase <= 0xc040_0000
      && tables.free == PageAlignUp(heap.currentBase) / 4096 && tables.heapHi == heap.maxBase / 4096
      && Sound(tables, Home(tables.dir), true)
    }
  }

  /** The heap after `page_map`: one page further if a table had to be made. */
  function HeapAfterMap(c: Config, v: Page): Heap
    requires c.tables.free < 0xf_ffff
  {
    if c.tables.Table(v / 1024) == 0 then c.heap.(currentBase := (c.tables.free + 1) * 4096) else c.heap
  }

  /** One operation. */
  function Step(c: Config, op: Op): Res<Config>
    requires c.Valid()
  {
    match op
    case Map(virt, phys, perm) =>
      if virt % 4096 != 0 || phys % 4096 != 0 then Halt(AssertionFailed)
      else if !Room(c.tables, virt / 4096) then Halt(OutOfMemory)
      else Ok(Config(MapPage(c.tables, virt / 4096, phys, perm), HeapAfterMap(c, virt / 4096)))
    case Grab(request) =>
      match Serve(c.heap, request)
      case Halt(why) => Halt(why)
      case Ok((_, h)) => Ok(Config(c.tables.(free := PageAlignUp(h.currentBase) / 4096), h))
  }

  /** The caller's side: page-aligned addresses, a call that leaves the pager's own pages alone, a request that does
      not wrap. */
  predicate Permitted(c: Config, op: Op) {
    match op
    case Map(virt, phys, perm) =>
      virt % 4096 == 0 && phys % 4096 == 0 && Harmless(c.tables, true, virt / 4096, phys, perm)
    case Grab(request) => NoWrap(c.heap, request)
  }

  /** Handing out heap pages only shrinks the set of protected pages. */
  lemma GrabSound(s: Space, free: Page)
    requires Sound(s, Home(s.dir), true) && s.free <= free <= s.heapHi
    ensures Sound(s.(free := free), Home(s.dir), true)
  {
    var s' := s.(free := free);
    forall k | 0 <= k < 1024 ensures s'.Slot(k) && s'.Clean(k) && s'.Table(k) == s.Table(k) {
      assert s.Slot(k) && s.Clean(k);
      assert forall j | 0 <= j < 1024 :: s'.Pte(s'.Table(k), j) == s.Pte(s.Table(k), j);
    }
    forall v: Page | s'.Protected(v) ensures AtHome(s'.mem, Home(s.dir), v) {
      assert s.Protected(v) by {
        if k :| 0 <= k < 1024 && s'.Table(k) != 0 && s'.Table(k) / 4096 == v {
          assert s.Table(k) / 4096 == v;
        }
      }
    }
  }

  lemma GrabValid(c: Config, q: Request)
    requires c.Valid() && NoWrap(c.heap, q) && Serve(c.heap, q).Ok?
    ensures Step(c, Grab(q)).value.Valid()
    ensures forall u: Page :: Step(c, Grab(q)).value.tables.Map(u) == c.tables.Map(u)
  {
    var h := Serve(c.heap, q).value.1;
    if q.size != 0 { ServeStep(c.heap, q); }
    GrabSound(c.tables, PageAlignUp(h.currentBase) / 4096);
  }

  lemma MapValid(c: Config, virt: Word, phys: Word, perm: Word)
    requires c.Valid() && Permitted(c, Map(virt, phys, perm)) && Room(c.tables, virt / 4096)
    ensures Step(c, Map(virt, phys, perm)).value.Valid()
  {
    var v := virt / 4096;
    var s' := MapPage(c.tables, v, phys, perm);
    MapPageSound(c.tables, Home(c.tables.dir), true, v, phys, perm);
    MapPageShape(c.tables, v, phys, perm);
    MapPageSlot(c.tables, v, phys, perm);
    PageAddress(c.tables.free + 1);
  }

  /** One permitted operation keeps the invariant and can halt only for lack of memory. */
  lemma StepValid(c: Config, op: Op)
    requires c.Valid() && Permitted(c, op)
    ensures Step(c, op).Ok? ==> Step(c, op).value.Valid()
    ensures Step(c, op).Halt? ==> Step(c, op).why == OutOfMemory
  {
    match op
    case Map(virt, phys, perm) =>
      if Room(c.tables, virt / 4096) { MapValid(c, virt, phys, perm); }
    case Grab(q) =>
      if Serve(c.heap, q).Ok? { GrabValid(c, q); }
  }

  // ---------------------------------------------------------------------------
  // Runs
  // ---------------------------------------------------------------------------

  /** A run of permitted operations from `c` to `c'`. */
  ghost predicate Reaches(c: Config, ops: seq<Op>, c': Config)
    requires c.Valid()
    decreases |ops|
  {
    if ops == [] then c' == c
    else
      && Permitted(c, ops[0]) && Step(c, ops[0]).Ok?
      && (StepValid(c, ops[0]); Reaches(Step(c, ops[0]).value, ops[1..], c'))
  }

  /** One more operation makes the run one longer. */
  lemma {:induction false} ReachesSnoc(c: Config, ops: seq<Op>, c': Config, op: Op)
    requires c.Valid() && Reaches(c, ops, c') && c'.Valid() && Permitted(c', op) && Step(c', op).Ok?
    ensures Reaches(c, ops + [op], Step(c', op).value)
    decreases |ops|
  {
    var all := ops + [op];
    if ops == [] {
      assert all[0] == op && all[1..] == [];
      StepValid(c, op);
    } else {
      assert all[0] == ops[0] && all[1..] == ops[1..] + [op];
      StepValid(c, ops[0]);
      ReachesSnoc(Step(c, ops[0]).value, ops[1..], c', op);
    }
  }

  /** Each operation is permitted when its turn comes. */
  ghost predicate Orderly(c: Config, ops: seq<Op>)
    requires c.Valid()
  {
    forall n: nat, c': Config | n < |ops| && Reaches(c, ops[..n], c') :: Permitted(c', ops[n])
  }

  predicate Names(op: Op, u: Page) {
    op.Map? && op.virt / 4096 == u
  }

  /** The simple view: one page at a time, remembering only the calls that name it. */
  function Simple(o: Option<Mapping>, ops: seq<Op>, u: Page): Option<Mapping>
    decreases |ops|
  {
    if ops == [] then o
    else if Names(ops[0], u) then Simple(Some(Remap(o, ops[0].phys / 4096, ops[0].perm)), ops[1..], u)
    else Simple(o, ops[1..], u)
  }

  lemma StepMaps(c: Config, op: Op, u: Page)
    requires c.Valid() && Permitted(c, op) && Step(c, op).Ok?
    ensures Step(c, op).value.tables.Map(u) ==
            if Names(op, u) then Some(Remap(c.tables.Map(u), op.phys / 4096, op.perm)) else c.tables.Map(u)
    ensures Step(c, op).value.tables.dir == c.tables.dir && Step(c, op).value.tables.shadow == c.tables.shadow
  {
    match op
    case Map(virt, phys, perm) =>
      MapPageMaps(c.tables, virt / 4096, phys, perm, u);
    case Grab(q) =>
      GrabValid(c, q);
  }

  /** After every run the invariant holds, so the shadow index and the directory describe the same
      unaliased tables, the software walk agrees with the hardware walk on every page, and the tables
      refine the simple view of the calls. */
  lemma {:induction false} EveryRun(c: Config, ops: seq<Op>, c': Config)
    requires c.Valid() && Reaches(c, ops, c')
    ensures c'.Valid() && c'.tables.WellLinked()
    ensures forall u: Page :: c'.tables.Map(u) == Simple(c.tables.Map(u), ops, u)
    ensures forall u: Page :: SoftWalk(c'.tables.mem, Home(c'.tables.dir), true, c'.tables.dir, c'.tables.shadow, u) ==
                              Report(c'.tables.Map(u))
    decreases |ops|
  {
    if ops == [] {
      forall u: Page
        ensures SoftWalk(c'.tables.mem, Home(c'.tables.dir), true, c'.tables.dir, c'.tables.shadow, u) ==
                Report(c'.tables.Map(u))
      {
        SoftWalkAgrees(c.tables, Home(c.tables.dir), true, u);
      }
    } else {
      StepValid(c, ops[0]);
      var c1 := Step(c, ops[0]).value;
      EveryRun(c1, ops[1..], c');
      forall u: Page ensures c'.tables.Map(u) == Simple(c.tables.Map(u), ops, u) {
        StepMaps(c, ops[0], u);
        assert c'.tables.Map(u) == Simple(c1.tables.Map(u), ops[1..], u);
      }
    }
  }

  /** What every run from `c` to `c'` leaves. */
  ghost predicate RunResult(c: Config, ops: seq<Op>, c': Config) {
    && (forall u: Page :: c'.tables.Map(u) == Simple(c.tables.Map(u), ops, u))
    && (forall u: Page ::
          SoftWalk(c'.tables.mem, Home(c'.tables.dir), true, c'.tables.dir, c'.tables.shadow, u) ==
          Report(c'.tables.Map(u)))
  }

  lemma {:induction false} RunIsRight(c: Config, ops: seq<Op>, c': Config)
    requires c.Valid() && Reaches(c, ops, c')
    ensures RunResult(c, ops, c')
  {
    EveryRun(c, ops, c');
  }

  /** A run goes on with its next operation. */
  lemma {:induction false} ReachesNext(c: Config, ops: seq<Op>, n: nat, c': Config)
    requires c.Valid() && n < |ops| && Reaches(c, ops[..n], c')
    requires c'.Valid() && Permitted(c', ops[n]) && Step(c', ops[n]).Ok?
    ensures Reaches(c, ops[..n + 1], Step(c', ops[n]).value)
  {
    assert ops[..n + 1] == ops[..n] + [ops[n]];
    ReachesSnoc(c, ops[..n], c', ops[n]);
  }

  /** The state that `init_paging` leaves: four heap pages used, for the directory, the shadow index and the two tables
      of the first megabyte and of the kernel. */
  ghost predicate Initial(c: Config, l: Layout)
    requires l.Linked()
  {
    && c.heap == Heap(true, l.heapStart, l.heapStart + 0x4000, l.heapEnd)
    && c.tables.heapLo == l.heapStart / 4096
    && c.tables.dir == c.tables.heapLo && c.tables.shadow == c.tables.heapLo + 1
    && TwoTables(c.tables)
    && forall u: Page :: c.tables.Map(u) == KernelMap(l, u)
  }

  /** The first operation is permitted and the rest is orderly after it. */
  lemma OrderlyCons(c: Config, op: Op, rest: seq<Op>)
    requires c.Valid() && Permitted(c, op)
    requires Step(c, op).Ok? ==> (StepValid(c, op); Orderly(Step(c, op).value, rest))
    ensures Orderly(c, [op] + rest)
  {
    var ops := [op] + rest;
    StepValid(c, op);
    forall n: nat, c': Config | n < |ops| && Reaches(c, ops[..n], c') ensures Permitted(c', ops[n]) {
      if n > 0 {
        var m := n - 1;
        assert ops[..n][0] == op && ops[..n][1..] == rest[..m] && ops[n] == rest[m];
        assert Reaches(Step(c, op).value, rest[..m], c');
      } else {
        assert ops[..n] == [] && ops[n] == op;
      }
    }
  }

  /** After any run, a further permitted operation halts only when the heap is exhausted, and `page_map`
      then only when it would have needed a table. */
  lemma {:induction false} OnlyMemoryRunsOut(c: Config, ops: seq<Op>, c': Config, op: Op)
    requires c.Valid() && Reaches(c, ops, c') && Permitted(c', op)
    ensures c'.Valid()
    ensures Step(c', op).Halt? ==> Step(c', op).why == OutOfMemory
    ensures op.Map? ==>
              (Step(c', op).Halt? <==>
                 c'.tables.Table(op.virt / 4096 / 1024) == 0 && c'.tables.free == c'.tables.heapHi)
  {
    EveryRun(c, ops, c');
    StepValid(c', op);
  }

  /** The physical address of a mapped `va` is its frame plus its offset; `virt_to_phys` drops the offset,
      so it reports that address if and only if `va` is page aligned. */
  lemma ExactIffAligned(c: Config, va: Word)
    requires c.Valid() && c.tables.Map(va / 4096).Some?
    ensures va % 4096 == 0 <==>
            SoftWalk(c.tables.mem, Home(c.tables.dir), true, c.tables.dir, c.tables.shadow, va / 4096) ==
            Ok(c.tables.Map(va / 4096).value.frame * 4096 + va % 4096)
  {
    SoftWalkAgrees(c.tables, Home(c.tables.dir), true, va / 4096);
  }

  /** With page 1 at frame 1, as `init_paging` leaves it, `virt_to_phys(0x1001)` is 0x1000. */
  lemma OffsetIsDropped(c: Config)
    requires c.Valid() && c.tables.Map(1) == Some(Mapping(1, 3))
    ensures SoftWalk(c.tables.mem, Home(c.tables.dir), true, c.tables.dir, c.tables.shadow, 0x1001 / 4096) == Ok(0x1000)
  {
    SoftWalkAgrees(c.tables, Home(c.tables.dir), true, 1);
  }

  // ---------------------------------------------------------------------------
  // What the simple view says: last frame, union of flags
  // ---------------------------------------------------------------------------

  /** `k` is the last operation that names `u`. */
  predicate LastNaming(ops: seq<Op>, u: Page, k: int) {
    0 <= k < |ops| && Names(ops[k], u) && forall j | k < j < |ops| :: !Names(ops[j], u)
  }

  lemma {:induction false} SimpleUnnamed(o: Option<Mapping>, ops: seq<Op>, u: Page)
    requires forall j | 0 <= j < |ops| :: !Names(ops[j], u)
    ensures Simple(o, ops, u) == o
    decreases |ops|
  {
    if ops != [] {
      assert !Names(ops[0], u);
      assert forall j | 0 <= j < |ops[1..]| :: ops[1..][j] == ops[j + 1];
      SimpleUnnamed(o, ops[1..], u);
    }
  }

  lemma {:induction false} SimpleFrame(o: Option<Mapping>, ops: seq<Op>, u: Page, k: int)
    requires LastNaming(ops, u, k)
    ensures Simple(o, ops, u).Some? && Simple(o, ops, u).value.frame == JoinFrame(ops[k].phys / 4096, ops[k].perm)
    ensures ops[k].perm < 4096 ==> Simple(o, ops, u).value.frame == ops[k].phys / 4096
    decreases |ops|
  {
    var o1 := if Names(ops[0], u) then Some(Remap(o, ops[0].phys / 4096, ops[0].perm)) else o;
    if k > 0 {
      assert LastNaming(ops[1..], u, k - 1);
      SimpleFrame(o1, ops[1..], u, k - 1);
    } else {
      assert forall j | 0 <= j < |ops[1..]| :: !Names(ops[1..][j], u);
      SimpleUnnamed(o1, ops[1..], u);
    }
    JoinFrameExact(ops[k].phys / 4096, ops[k].perm);
  }

  /** Flag `b` was set before, or by some call that names `u`. */
  ghost predicate EverGiven(o: Option<Mapping>, ops: seq<Op>, u: Page, b: nat) {
    || Bit(FlagsIn(o), b)
    || exists j | 0 <= j < |ops| :: Names(ops[j], u) && Bit(ops[j].perm % 4096, b)
  }

  lemma {:induction false} RemapBits(o: Option<Mapping>, frame: Page, perm: Word, b: nat)
    ensures Bit(Remap(o, frame, perm).flags, b) <==> b == 0 || Bit(FlagsIn(o), b) || Bit(perm % 4096, b)
  {
    var f := FlagsIn(o);
    OrBits(f, perm % 4096, b);
    OrBits(Or(f, perm % 4096), 1, b);
    ZeroBits(b);
    if b > 0 { ZeroBits(b - 1); }
  }

  lemma GivenSplit(o: Option<Mapping>, o1: Option<Mapping>, ops: seq<Op>, u: Page, b: nat)
    requires ops != [] && o1 == if Names(ops[0], u) then Some(Remap(o, ops[0].phys / 4096, ops[0].perm)) else o
    ensures b == 0 || (EverGiven(o1, ops[1..], u, b) <==> EverGiven(o, ops, u, b))
  {
    var rest := ops[1..];
    assert forall j | 0 <= j < |rest| :: rest[j] == ops[j + 1];
    if Names(ops[0], u) { RemapBits(o, ops[0].phys / 4096, ops[0].perm, b); }
    if j :| 0 <= j < |ops| && Names(ops[j], u) && Bit(ops[j].perm % 4096, b) {
      if j > 0 { assert Names(rest[j - 1], u) && Bit(rest[j - 1].perm % 4096, b); }
    }
    if j :| 0 <= j < |rest| && Names(rest[j], u) && Bit(rest[j].perm % 4096, b) {
      assert Names(ops[j + 1], u) && Bit(ops[j + 1].perm % 4096, b);
    }
  }

  /** The flags are PRESENT joined with every flag the page had or was ever given. */
  lemma {:induction false} SimpleFlags(o: Option<Mapping>, ops: seq<Op>, u: Page, k: int, b: nat)
    requires LastNaming(ops, u, k)
    ensures Simple(o, ops, u).Some?
    ensures Bit(Simple(o, ops, u).value.flags, b) <==> b == 0 || EverGiven(o, ops, u, b)
    decreases |ops|
  {
    var rest := ops[1..];
    var named := Names(ops[0], u);
    var o1 := if named then Some(Remap(o, ops[0].phys / 4096, ops[0].perm)) else o;
    if named { RemapBits(o, ops[0].phys / 4096, ops[0].perm, b); }
    assert forall j | 0 <= j < |rest| :: rest[j] == ops[j + 1];
    if k > 0 {
      assert LastNaming(rest, u, k - 1);
      SimpleFlags(o1, rest, u, k - 1, b);
      GivenSplit(o, o1, ops, u, b);
    } else {
      SimpleUnnamed(o1, rest, u);
      assert Names(ops[0], u);
    }
  }
}
