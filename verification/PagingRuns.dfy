/** Ranges and runs of `page_map` calls, as statements about the tables as values. */
module PagingRuns {
  import opened Words
  import opened PageWalk
  import opened Paging
  import opened PagingCode
  import opened Boot
  import opened Bits

  /** Nothing but table contents differs. */
  predicate SameShape(s: Space, s': Space) {
    s'.dir == s.dir && s'.shadow == s.shadow && s'.heapLo == s.heapLo && s'.heapHi == s.heapHi
  }

  ghost predicate SameProtected(s: Space, s': Space) {
    forall u: Page :: s'.Protected(u) == s.Protected(u)
  }

  /** Frames outside the heap are not written. */
  ghost predicate Untouched(s: Space, s': Space) {
    forall f: Page, l | !s.InHeap(f) && 0 <= l < 1024 :: s'.mem[At(f, l)] == s.mem[At(f, l)]
  }

  /** The pages of `[a, b)` were mapped `off` pages lower and no other page changed. */
  ghost predicate RangeMapped(s: Space, s': Space, a: int, b: int, off: int, perm: Word)
    requires 0 <= off <= a
  {
    forall u: Page :: s'.Map(u) == if a <= u < b then Some(Remap(s.Map(u), u - off, perm)) else s.Map(u)
  }

  /** At most table `i` was created. */
  ghost predicate OnlySlot(s: Space, s': Space, i: int, used: bool)
    requires 0 <= i < 1024
  {
    && (forall k | 0 <= k < 1024 && k != i :: s'.Table(k) == s.Table(k))
    && (if used then s'.Table(i) != 0 else s'.Table(i) == s.Table(i))
    && s'.free == s.free + if used && s.Table(i) == 0 then 1 else 0
  }

  lemma PageNumber(frame: Page)
    ensures frame * 4096 % 4096 == 0 && frame * 4096 / 4096 == frame
  {
  }

  lemma MapPageShape(s: Space, v: Page, phys: Word, perm: Word)
    requires s.WellLinked() && Room(s, v)
    ensures SameShape(s, MapPage(s, v, phys, perm))
    ensures SameProtected(s, MapPage(s, v, phys, perm))
  {
    var s1 := WithTable(s, v);
    if s.Table(v / 1024) == 0 {
      LinkWellLinked(s, v / 1024);
      LinkSlots(s, v / 1024, v / 1024);
    }
    forall u: Page ensures MapPage(s, v, phys, perm).Protected(u) == s.Protected(u) {
      if s.Table(v / 1024) == 0 { LinkProtected(s, v / 1024, u); }
      SetEntryProtected(s1, v / 1024, v % 1024, PteWord(s1.Pte(s1.Table(v / 1024), v % 1024), phys, perm), u);
    }
  }

  lemma MapPageUntouched(s: Space, v: Page, phys: Word, perm: Word)
    requires s.WellLinked() && Room(s, v)
    ensures Untouched(s, MapPage(s, v, phys, perm))
  {
    var s1 := WithTable(s, v);
    if s.Table(v / 1024) == 0 {
      LinkWellLinked(s, v / 1024);
      LinkSlots(s, v / 1024, v / 1024);
    }
    assert s1.Slot(v / 1024);
    forall f: Page, l | !s.InHeap(f) && 0 <= l < 1024
      ensures MapPage(s, v, phys, perm).mem[At(f, l)] == s.mem[At(f, l)]
    {
      if s.Table(v / 1024) == 0 { LinkWords(s, v / 1024, f, l); }
      AtInjective(f, l, Home(s1.Table(v / 1024) / 4096), v % 1024);
    }
  }

  lemma MapPageSlot(s: Space, v: Page, phys: Word, perm: Word)
    requires s.WellLinked() && Room(s, v)
    ensures OnlySlot(s, MapPage(s, v, phys, perm), v / 1024, true)
  {
    var i := v / 1024;
    var s1 := WithTable(s, v);
    if s.Table(i) == 0 {
      LinkWellLinked(s, i);
      LinkSlots(s, i, i);
    }
    var w := PteWord(s1.Pte(s1.Table(i), v % 1024), phys, perm);
    forall k | 0 <= k < 1024 ensures MapPage(s, v, phys, perm).Table(k) == s1.Table(k) {
      SetEntryKeepsSlots(s1, i, v % 1024, w, k);
    }
    forall k | 0 <= k < 1024 && k != i ensures s1.Table(k) == s.Table(k) {
      if s.Table(i) == 0 { LinkSlots(s, i, k); }
    }
  }

  /** From `s` to `s'`, exactly the pages of `[a, b)` were mapped, and only heap frames were written. */
  ghost predicate Progress(s: Space, s': Space, a: int, b: int, off: int, perm: Word)
    requires 0 <= off <= a
  {
    SameShape(s, s') && SameProtected(s, s') && Untouched(s, s') && RangeMapped(s, s', a, b, off, perm)
  }

  /** The tables after a call, page by page. */
  ghost predicate OnlyMapped(s: Space, s': Space, v: Page, frame: Page, perm: Word) {
    forall u: Page :: s'.Map(u) == if u == v then Some(Remap(s.Map(v), frame, perm)) else s.Map(u)
  }

  lemma MapPageOnly(s: Space, v: Page, phys: Word, perm: Word)
    requires s.WellLinked() && Room(s, v) && phys % 4096 == 0
    ensures OnlyMapped(s, MapPage(s, v, phys, perm), v, phys / 4096, perm)
  {
    forall u: Page
      ensures MapPage(s, v, phys, perm).Map(u) == if u == v then Some(Remap(s.Map(v), phys / 4096, perm)) else s.Map(u)
    {
      MapPageMaps(s, v, phys, perm, u);
    }
  }

  /** What `page_map` makes of the tables: it runs to its end, keeps the invariant if and only if the call is
      harmless, and then changes one page and nothing else. */
  ghost predicate MapOutcome(s: Space, s': Space, root: Page, enabled: bool, v: Page, phys: Word, perm: Word)
    requires s.Bounds() && Room(s, v)
  {
    && MapPageCode(s, root, v, phys, perm) == Ok(s')
    && (Sound(s', root, enabled) <==> Harmless(s, enabled, v, phys, perm))
    && (Harmless(s, enabled, v, phys, perm) ==>
          s' == MapPage(s, v, phys, perm) && OnlyMapped(s, s', v, phys / 4096, perm))
  }

  lemma MapPageOutcome(s: Space, root: Page, enabled: bool, v: Page, phys: Word, perm: Word)
    requires Sound(s, root, enabled) && Room(s, v) && phys % 4096 == 0
    ensures MapPageCode(s, root, v, phys, perm).Ok?
    ensures MapOutcome(s, MapPageCode(s, root, v, phys, perm).value, root, enabled, v, phys, perm)
  {
    MapPageCodeSoundIff(s, root, enabled, v, phys, perm);
    if Harmless(s, enabled, v, phys, perm) {
      if OwnTable(s, v) { OwnTableProtected(s, v); }
      MapPageCodeExact(s, root, enabled, v, phys, perm);
      MapPageOnly(s, v, phys, perm);
    }
  }

  /** What `page_map` relies on once there is a table, at address `t`. */
  ghost predicate TableReady(s1: Space, root: Page, i: int, j: int, t: Word, phys: Word, perm: Word)
    requires 0 <= i < 1024 && 0 <= j < 1024
  {
    && t == s1.Table(i) && LoadAt(s1.mem, root, s1.shadow, i) == Ok(t) && t / 4096 != 0 && t <= PAGE_ALIGN
    && PteCode(s1.mem, root, t / 4096, j, phys, perm).Ok?
  }

  lemma TableIsReady(s: Space, root: Page, enabled: bool, v: Page, i: int, j: int, phys: Word, perm: Word)
    requires Sound(s, root, enabled) && Room(s, v) && phys % 4096 == 0 && i == v / 1024 && j == v % 1024
    ensures TableReady(WithTable(s, v), root, i, j, WithTable(s, v).Table(i), phys, perm)
  {
    WithTableSound(s, root, enabled, v);
    EntryReaches(WithTable(s, v), root, enabled, v);
    MapPageOutcome(s, root, enabled, v, phys, perm);
  }

  /** Where the edits of `page_map` lead. */
  lemma PageIsMapped(s: Space, s1: Space, s2: Space, root: Page, enabled: bool, v: Page, i: int, j: int, t: Word,
                     phys: Word, perm: Word)
    requires Sound(s, root, enabled) && Room(s, v) && phys % 4096 == 0 && i == v / 1024 && j == v % 1024
    requires s1 == WithTable(s, v) && t == s1.Table(i)
    requires Ok(s2.mem) == PteCode(s1.mem, root, t / 4096, j, phys, perm) && s2 == s1.(mem := s2.mem)
    ensures MapOutcome(s, s2, root, enabled, v, phys, perm) && t + 4 * j == PteAddress(s2, v)
  {
    assert MapPageCode(s, root, v, phys, perm) == Ok(s2);
    MapPageOutcome(s, root, enabled, v, phys, perm);
    MapPageCodeEntry(s, root, enabled, v, phys, perm);
  }

  /** Mapping the next page extends the range. */
  lemma RangeStep(s: Space, s1: Space, s2: Space, a: int, b: Page, next: int, frame: Page, off: int, perm: Word)
    requires 0 <= off <= a <= b && next == b + 1 && frame == b - off
    requires RangeMapped(s, s1, a, b, off, perm) && OnlyMapped(s1, s2, b, frame, perm)
    ensures RangeMapped(s, s2, a, next, off, perm)
  {
    forall u: Page ensures s2.Map(u) == if a <= u < next then Some(Remap(s.Map(u), u - off, perm)) else s.Map(u) {
      assert s1.Map(u) == if a <= u < b then Some(Remap(s.Map(u), u - off, perm)) else s.Map(u);
      assert u == b ==> u - off == frame;
    }
  }

  lemma UntouchedStep(s: Space, s1: Space, s2: Space)
    requires SameShape(s, s1) && Untouched(s, s1) && Untouched(s1, s2)
    ensures Untouched(s, s2)
  {
    forall f: Page, l | !s.InHeap(f) && 0 <= l < 1024 ensures s2.mem[At(f, l)] == s.mem[At(f, l)] {
      assert !s1.InHeap(f);
      assert s1.mem[At(f, l)] == s.mem[At(f, l)];
    }
  }

  lemma ProgressStep(s: Space, s1: Space, s2: Space, a: int, b: Page, next: int, frame: Page, off: int, perm: Word)
    requires 0 <= off <= a <= b && next == b + 1 && frame == b - off && s1.WellLinked() && Room(s1, b)
    requires Progress(s, s1, a, b, off, perm) && s2 == MapPage(s1, b, frame * 4096, perm)
    ensures Progress(s, s2, a, next, off, perm)
  {
    MapPageShape(s1, b, frame * 4096, perm);
    MapPageUntouched(s1, b, frame * 4096, perm);
    UntouchedStep(s, s1, s2);
    PageNumber(frame);
    MapPageOnly(s1, b, frame * 4096, perm);
    RangeStep(s, s1, s2, a, b, next, frame, off, perm);
  }

  /** From `s` by way of `s1` to `s2`, the range `[a, b)` grew by one page, for which at most table `i` was made. */
  ghost predicate NextMapped(s: Space, s1: Space, s2: Space, a: int, b: int, off: int, perm: Word, i: int)
    requires 0 <= off <= a && 0 <= i < 1024
  {
    Progress(s, s2, a, b, off, perm) && OnlySlot(s1, s2, i, true)
  }

  lemma NextIsMapped(s: Space, s1: Space, s2: Space, a: int, b: Page, next: int, frame: Page, off: int, perm: Word,
                     i: int)
    requires 0 <= off <= a <= b && Progress(s, s1, a, b, off, perm) && s1.WellLinked() && Room(s1, b)
    requires next == b + 1 && frame == b - off && i == b / 1024 && s2 == MapPage(s1, b, frame * 4096, perm)
    ensures NextMapped(s, s1, s2, a, next, off, perm, i)
  {
    ProgressStep(s, s1, s2, a, b, next, frame, off, perm);
    MapPageSlot(s1, b, frame * 4096, perm);
  }

  lemma ProgressMappable(s: Space, s1: Space, a: int, b: int, off: int, perm: Word, enabled: bool)
    requires 0 <= off <= a && Progress(s, s1, a, b, off, perm) && 0 <= b < 0x10_0000 && Mappable(s, enabled, b)
    ensures Mappable(s1, enabled, b)
  {
  }

  // ---------------------------------------------------------------------------
  // How many tables a range needs
  // ---------------------------------------------------------------------------

  /** Which of the tables `i` to `n - 1` do not exist. */
  function Absent(s: Space, i: int, n: int): set<int>
    requires 0 <= i && n <= 1024
  {
    set k | i <= k < n && s.Table(k) == 0
  }

  /** One past the last table that the pages below `b` use. */
  function TableEnd(b: Page): (n: int)
    ensures n <= 1024
  {
    (b + 1023) / 1024
  }

  lemma BelowTableEnd(v: Page, b: Page)
    requires v < b
    ensures v / 1024 < TableEnd(b)
  {
  }

  /** How many tables mapping the pages of `[a, b)` creates. */
  function TablesNeeded(s: Space, a: Page, b: Page): nat
    requires a <= b
  {
    |Absent(s, a / 1024, TableEnd(b))|
  }

  /** Mapping a page of table `i` takes a heap page exactly when it uses up a missing table. */
  lemma AbsentUsed(s: Space, s': Space, i: int, n: int)
    requires 0 <= i < n <= 1024 && OnlySlot(s, s', i, true)
    ensures s'.free + |Absent(s', i + 1, n)| == s.free + |Absent(s, i, n)|
    ensures Absent(s', i, n) == Absent(s', i + 1, n)
  {
    var rest := Absent(s', i + 1, n);
    if s.Table(i) == 0 {
      assert Absent(s, i, n) == {i} + rest && i !in rest;
    } else {
      assert Absent(s, i, n) == rest;
    }
  }

  lemma NextTable(v: Page)
    ensures (v + 1) / 1024 == v / 1024 || (v + 1) / 1024 == v / 1024 + 1
  {
  }

  lemma AbsentStep(s: Space, s': Space, v: Page, n: int)
    requires v / 1024 < n <= 1024 && OnlySlot(s, s', v / 1024, true)
    ensures s'.free + |Absent(s', (v + 1) / 1024, n)| == s.free + |Absent(s, v / 1024, n)|
  {
    AbsentUsed(s, s', v / 1024, n);
    NextTable(v);
  }

  /** After the last page of a range nothing is missing. */
  lemma NothingAbsent(s: Space, b: Page)
    requires b > 0 && s.Table((b - 1) / 1024) != 0
    ensures Absent(s, b / 1024, TableEnd(b)) == {}
  {
    assert TableEnd(b) == (b - 1) / 1024 + 1;
  }

  /** From `s` to `s'`, mapping `[a, v)` of the range `[a, b)` used up as many heap pages as tables. */
  predicate Spent(s: Space, s': Space, a: Page, v: Page, b: Page)
    requires a <= v <= b
  {
    && s'.heapHi == s.heapHi
    && s'.free + TablesNeeded(s', v, b) == s.free + TablesNeeded(s, a, b)
    && (v > a ==> s'.Table((v - 1) / 1024) != 0)
  }

  /** The loop of `page_ident_map_range` has come to page `v`. */
  ghost predicate Walked(s: Space, s': Space, a: Page, v: Page, b: Page, perm: Word)
    requires a <= v <= b
  {
    Progress(s, s', a, v, 0, perm) && Spent(s, s', a, v, b)
  }

  lemma WalkedStart(s: Space, a: Page, b: Page, perm: Word)
    requires a < b
    ensures Walked(s, s, a, a, b, perm)
  {
  }

  /** If the next page finds no room, the whole range did not. */
  lemma WalkedRoom(s: Space, s': Space, a: Page, v: Page, b: Page, perm: Word)
    requires a <= v < b && Walked(s, s', a, v, b, perm) && s'.free <= s'.heapHi
    ensures !Room(s', v) ==> s.free + TablesNeeded(s, a, b) > s.heapHi
  {
    if !Room(s', v) {
      BelowTableEnd(v, b);
      assert v / 1024 in Absent(s', v / 1024, TableEnd(b));
    }
  }

  lemma WalkedStep(s: Space, s1: Space, s2: Space, a: Page, v: Page, next: Page, b: Page, perm: Word, i: int)
    requires a <= v < next <= b && next == v + 1 && i == v / 1024
    requires Walked(s, s1, a, v, b, perm) && NextMapped(s, s1, s2, a, next, 0, perm, i)
    ensures Walked(s, s2, a, next, b, perm)
  {
    BelowTableEnd(v, b);
    AbsentStep(s1, s2, v, TableEnd(b));
  }

  lemma WalkedEnd(s: Space, s': Space, a: Page, v: Page, b: Page, perm: Word)
    requires a < b == v && Walked(s, s', a, v, b, perm) && s'.free <= s'.heapHi
    ensures s.free + TablesNeeded(s, a, b) <= s.heapHi && Progress(s, s', a, b, 0, perm)
  {
    NothingAbsent(s', b);
  }

  // ---------------------------------------------------------------------------
  // Starting from the boot tables
  // ---------------------------------------------------------------------------

  ghost predicate HeapAtHome(s: Space, root: Page) {
    forall v: Page | s.heapLo <= v < s.heapHi :: AtHome(s.mem, root, v)
  }

  ghost predicate SameWalk(s: Space, s': Space, root: Page) {
    forall u: Page :: Walk(s'.mem, root, u) == Walk(s.mem, root, u)
  }

  predicate SameHeap(s: Space, s': Space) {
    s'.heapLo == s.heapLo && s'.heapHi == s.heapHi
  }

  /** Writes inside the heap cannot move a page of tables that lie outside it. */
  lemma DetachedSame(s: Space, s': Space, root: Page)
    requires s.Detached(root) && SameHeap(s, s') && Untouched(s, s')
    ensures SameWalk(s, s', root) && s'.Detached(root)
  {
    forall k | 0 <= k < 1024 ensures s'.mem[At(root, k)] == s.mem[At(root, k)] {
      assert !s.InHeap(root);
    }
    forall u: Page ensures Walk(s'.mem, root, u) == Walk(s.mem, root, u) {
      assert s'.mem[At(root, u / 1024)] == s.mem[At(root, u / 1024)];
    }
  }

  lemma DetachedSelfMapped(s: Space, s': Space, root: Page)
    requires s.Detached(root) && SameHeap(s, s') && Untouched(s, s') && SelfMapped(s.mem, root)
    ensures SelfMapped(s'.mem, root)
  {
    DetachedSame(s, s', root);
    assert IdentityAt(s.mem, root, root);
    forall k | 0 <= k < 1024 && s'.mem[At(root, k)] % 2 == 1
      ensures IdentityAt(s'.mem, root, s'.mem[At(root, k)] / 4096)
    {
      assert s'.mem[At(root, k)] == s.mem[At(root, k)];
      assert IdentityAt(s.mem, root, s.mem[At(root, k)] / 4096);
    }
  }

  lemma {:induction false} ClearedUntouched(s: Space, p: Page, n: nat)
    requires BASE_PAGE <= s.heapLo <= p < s.heapHi && n <= 1024
    ensures Untouched(s, s.(mem := Cleared(s.mem, p, n)))
  {
    forall f: Page, l | !s.InHeap(f) && 0 <= l < 1024 ensures Cleared(s.mem, p, n)[At(f, l)] == s.mem[At(f, l)] {
      ClearedWords(s.mem, p, n, f, l);
    }
  }

  /** Two cleared pages are an empty set of tables. */
  lemma EmptyTables(s: Space)
    requires s.Bounds()
    requires forall i | 0 <= i < 1024 :: s.Pde(i) == 0 && s.Table(i) == 0
    ensures s.WellLinked()
    ensures forall u: Page :: s.Map(u) == None
  {
    forall i | 0 <= i < 1024 ensures s.Slot(i) && s.Clean(i) {
      assert s.Pde(i) == 0 && s.Table(i) == 0;
    }
    forall u: Page ensures s.Map(u) == None {
      assert s.Pde(u / 1024) == 0;
    }
  }

  /** The pages of `[a, v)`, which belong to table `i`, are mapped, and that took at most this one table. */
  ghost predicate Filled(s: Space, s': Space, a: int, v: int, off: int, i: int)
    requires 0 <= off <= a && 0 <= i < 1024
  {
    && Progress(s, s', a, v, off, PAGE_ENTRY_RW) && OnlySlot(s, s', i, v > a)
    && (v > a ==> s.free < s.heapHi)
  }

  lemma OnlySlotTwice(s: Space, s1: Space, s2: Space, i: int, used: bool)
    requires 0 <= i < 1024 && OnlySlot(s, s1, i, used) && OnlySlot(s1, s2, i, true)
    ensures OnlySlot(s, s2, i, true)
  {
  }

  lemma FilledStep(s: Space, s1: Space, s2: Space, a: int, v: Page, next: int, off: int, i: int)
    requires 0 <= off <= a <= v && next == v + 1 && 0 <= i < 1024 && s.Table(i) == 0 && s1.free <= s1.heapHi
    requires Filled(s, s1, a, v, off, i) && NextMapped(s, s1, s2, a, next, off, PAGE_ENTRY_RW, i)
    requires s1.Table(i) != 0 || s1.free < s1.heapHi
    ensures Filled(s, s2, a, next, off, i)
  {
    OnlySlotTwice(s, s1, s2, i, v > a);
  }

  /** Only the first page can find no room. */
  lemma FilledRoom(s: Space, s1: Space, a: int, v: Page, off: int, i: int)
    requires 0 <= off <= a <= v && i == v / 1024 && Filled(s, s1, a, v, off, i) && s1.Bounds()
    ensures !Room(s1, v) ==> s.free >= s.heapHi
  {
  }

  /** The tables `init_paging` creates. */
  predicate TwoTables(s: Space) {
    forall i | 0 <= i < 1024 :: s.Table(i) != 0 <==> i == 0 || i == 768
  }

  /** What `init_paging` makes of the heap: it takes four pages, the first for the directory, the second for the shadow
      index and the others for two tables. */
  predicate Built(s: Space, s': Space) {
    && SameHeap(s, s') && s'.free == s.free + 4 && s'.dir == s.free && s'.shadow == s.free + 1
    && TwoTables(s')
  }

  lemma TwoTablesMade(s0: Space, s1: Space, s2: Space)
    requires (forall i | 0 <= i < 1024 :: s0.Table(i) == 0)
    requires OnlySlot(s0, s1, 0, true) && OnlySlot(s1, s2, 768, true)
    ensures TwoTables(s2) && s2.free == s0.free + 2
  {
  }

  /** What `init_paging` finds: boot tables outside the heap, usable as pointers, with the heap mapped home. */
  ghost predicate BootReady(s: Space, root: Page) {
    && BASE_PAGE < s.heapLo <= s.free <= s.heapHi <= BASE_PAGE + 1024
    && s.Detached(root) && SelfMapped(s.mem, root) && HeapAtHome(s, root)
  }

  /** The tables of boot.asm are such tables. */
  lemma BootedReady(s: Space, root: Page, l: Layout)
    requires l.Linked() && l.OneTable() && Booted(s.mem, root, l)
    requires s.heapLo == l.heapStart / 4096 <= s.free <= s.heapHi == l.heapEnd / 4096
    ensures BootReady(s, root)
  {
    assert l.HighTable() < l.EarlyPages() <= Home(s.heapLo);
    EntryOf(l.LowTable()); EntryOf(l.HighTable());
    forall i | 0 <= i < 1024 && s.mem[At(root, i)] % 2 == 1
      ensures s.mem[At(root, i)] / 4096 < l.EarlyPages()
    {
      assert s.mem[At(root, i)] == DirEntry(l, true, true, i);
    }
    forall v: Page | v < l.EarlyPages() ensures IdentityAt(s.mem, root, v) {
      BootedWalk(s.mem, root, l, v);
      LowMapped(l, v);
    }
    forall v: Page | s.heapLo <= v < s.heapHi ensures AtHome(s.mem, root, v) {
      BootedWalk(s.mem, root, l, v);
      KernelMapped(l, v);
    }
  }

  /** The translation `init_paging` builds. */
  function KernelMap(l: Layout, u: Page): Option<Mapping>
    requires l.Linked()
  {
    if u < 256 then Some(Mapping(u, 3))
    else if l.FirstPage() <= u < l.EndPage() then Some(Mapping(u - BASE_PAGE, 3))
    else None
  }

  /** By address: the first megabyte onto itself, the kernel 0xC0000000 lower, and nothing else. */
  lemma KernelMapByAddress(l: Layout, u: Page)
    requires l.Linked() && l.OneTable()
    ensures KernelMap(l, u) ==
            if u * 4096 < 0x10_0000 then Some(Mapping(u, 3))
            else if l.kernelStart <= u * 4096 < l.kernelEnd then Some(Mapping(u - 0xc_0000, 3))
            else None
  {
    assert l.kernelStart == l.FirstPage() * 4096;
  }

  /** Every page it maps has the frame and the flags it had under the boot tables. */
  lemma KernelMapIsBootMap(l: Layout, u: Page)
    requires l.Linked() && l.OneTable() && KernelMap(l, u).Some?
    ensures KernelMap(l, u) == BootWalk(l, u)
  {
    if u < 256 {
      LowMapped(l, u);
    } else {
      KernelMapped(l, u);
    }
  }

  lemma RemapFresh(frame: Page)
    ensures Remap(None, frame, PAGE_ENTRY_RW) == Mapping(frame, 3)
  {
    JoinFrameExact(frame, 2);
    assert Or(2, 1) == 3;
  }

  /** The two loops of `init_paging` together. */
  lemma InitMaps(l: Layout, s0: Space, s1: Space, s2: Space, u: Page)
    requires l.Linked()
    requires (forall v: Page :: s0.Map(v) == None)
    requires RangeMapped(s0, s1, 0, 256, 0, PAGE_ENTRY_RW)
    requires RangeMapped(s1, s2, l.FirstPage(), l.EndPage(), BASE_PAGE, PAGE_ENTRY_RW)
    ensures s2.Map(u) == KernelMap(l, u)
  {
    assert s0.Map(u) == None;
    assert s1.Map(u) == if u < 256 then Some(Remap(s0.Map(u), u, PAGE_ENTRY_RW)) else None;
    if u < 256 {
      RemapFresh(u);
    } else if l.FirstPage() <= u < l.EndPage() {
      RemapFresh(u - BASE_PAGE);
    }
  }

  /** With every heap page mapped home, the new directory can take over. */
  lemma Switch(s: Space, root: Page)
    requires Sound(s, root, false)
    requires forall v: Page | s.heapLo <= v < s.heapHi :: AtHome(s.mem, Home(s.dir), v)
    ensures Sound(s, Home(s.dir), true)
  {
    forall v: Page | s.Protected(v) ensures AtHome(s.mem, Home(s.dir), v) {
      ProtectedInHeap(s, v);
    }
  }

  /** Clearing heap pages keeps what `init_paging` found. */
  lemma BootReadyKept(s: Space, s': Space, root: Page)
    requires BootReady(s, root) && SameHeap(s, s') && s'.heapLo <= s'.free <= s'.heapHi && Untouched(s, s')
    ensures BootReady(s', root)
  {
    DetachedSame(s, s', root);
    DetachedSelfMapped(s, s', root);
    forall v: Page | s'.heapLo <= v < s'.heapHi ensures AtHome(s'.mem, root, v) {
      assert AtHome(s.mem, root, v);
      assert Walk(s'.mem, root, v) == Walk(s.mem, root, v);
    }
  }

  /** Two distinct cleared heap pages are sound, empty tables. */
  lemma EmptySound(s: Space, root: Page)
    requires BootReady(s, root) && s.Bounds()
    requires forall i | 0 <= i < 1024 :: s.Pde(i) == 0 && s.Table(i) == 0
    ensures Sound(s, root, false)
    ensures forall u: Page :: s.Map(u) == None
  {
    EmptyTables(s);
    forall v: Page | s.Protected(v) ensures AtHome(s.mem, root, v) {
      ProtectedInHeap(s, v);
    }
  }

  /** The memory after both `memset` calls of `init_paging`. */
  function TwoCleared(m: Memory, dir: Page, shadow: Page): Memory {
    Cleared(Cleared(m, dir, 1024), shadow, 1024)
  }

  /** `s'` has no table and maps nothing, and only the heap differs from `s`. */
  ghost predicate Emptied(s: Space, s': Space) {
    && SameHeap(s, s') && Untouched(s, s')
    && (forall i | 0 <= i < 1024 :: s'.Table(i) == 0)
    && (forall u: Page :: s'.Map(u) == None)
  }

  /** From `s` to `s1`, two heap pages were handed out, for the directory and the shadow index. */
  predicate Paired(s: Space, s1: Space) {
    SameHeap(s, s1) && s1.Bounds() && s1.free == s.free + 2 && s1.mem == s.mem
    && s1.dir == s.free && s1.shadow == s.free + 1
  }

  lemma TwoClearedEmpty(s: Space, s1: Space, s': Space, root: Page)
    requires BootReady(s, root) && Paired(s, s1) && s' == s1.(mem := TwoCleared(s.mem, s1.dir, s1.shadow))
    ensures Sound(s', root, false) && Emptied(s, s') && s'.free == s.free + 2
  {
    var m1 := Cleared(s.mem, s'.dir, 1024);
    forall f: Page, l | 0 <= l < 1024
      ensures s'.mem[At(f, l)] == if f == Home(s'.dir) || f == Home(s'.shadow) then 0 else s.mem[At(f, l)]
    {
      ClearedWords(m1, s'.shadow, 1024, f, l);
      ClearedWords(s.mem, s'.dir, 1024, f, l);
    }
    forall i | 0 <= i < 1024 ensures s'.Pde(i) == 0 && s'.Table(i) == 0 {
    }
    BootReadyKept(s, s', root);
    EmptySound(s', root);
  }

  lemma {:induction false} HeapClearReaches(s: Space, root: Page, p: Page, n: nat)
    requires BootReady(s, root) && s.heapLo <= p < s.heapHi && n <= 1024
    ensures AtHome(Cleared(s.mem, p, n), root, p)
    ensures BootReady(s.(mem := Cleared(s.mem, p, n)), root)
  {
    ClearedUntouched(s, p, n);
    BootReadyKept(s, s.(mem := Cleared(s.mem, p, n)), root);
  }

  /** The bounds of the kernel loop, as pages. */
  lemma KernelRange(l: Layout)
    requires l.Linked() && l.OneTable()
    ensures l.kernelStart == l.FirstPage() * 4096 && PageAlignUp(l.kernelEnd) == l.EndPage() * 4096
    ensures BASE_PAGE <= l.FirstPage() < l.EndPage() <= BASE_PAGE + 1024
    ensures l.FirstPage() <= l.heapStart / 4096 && l.heapEnd / 4096 <= l.EndPage()
  {
  }

  lemma OneMegabyte()
    ensures PagesPerMb(1) == 256
  {
  }

  lemma LowSlot(v: Page)
    requires v < 1024
    ensures v / 1024 == 0
  {
  }

  lemma KernelSlot(v: Page)
    requires BASE_PAGE <= v < BASE_PAGE + 1024
    ensures v / 1024 == 768
  {
  }

  lemma DirectoryTranslates(s: Space, root: Page)
    requires Sound(s, root, false)
    ensures SoftWalk(s.mem, root, false, s.dir, s.shadow, s.dir) == Ok(Home(s.dir) * 4096)
  {
    SoftWalkAgrees(s, root, false, s.dir);
    assert s.Protected(s.dir);
  }
}
