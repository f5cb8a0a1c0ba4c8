/** What `kmain` does with paging once it is up: twice it takes a page of the heap and maps it to a frame that the boot
    loader named (src/kernel.c). */
module Kmain {
  import opened Words
  import opened Bits
  import opened PageWalk
  import opened EarlyHeap
  import opened Paging
  import opened PagingRuns
  import opened PagingTheorems
  import opened Boot

  const MODULE_ENTRY := 16       // sizeof(multiboot_module_t)
  const UINT32_SIZE := 4

  // ---------------------------------------------------------------------------
  // One page taken and mapped
  // ---------------------------------------------------------------------------

  /** A page-aligned request of at most a page is served with the first free page. */
  lemma GrabFirstFree(c: Config, size: Word)
    requires c.Valid() && 0 < size <= PAGE_SIZE && c.tables.free < c.tables.heapHi
    ensures var q, free := PageAligned(size), c.tables.free;
            && NoWrap(c.heap, q)
            && Serve(c.heap, q) == Ok((free * 4096, c.heap.(currentBase := free * 4096 + size)))
            && PageAlignUp(free * 4096 + size) / 4096 == free + 1
  {
    var base, free := PageAlignUp(c.heap.currentBase), c.tables.free;
    assert base == free * 4096;
    assert free * 4096 + size <= c.heap.maxBase;
  }

  /** The state after that. */
  function Grabbed(c: Config, size: Word): Config
    requires c.Valid() && 0 < size <= PAGE_SIZE && c.tables.free < c.tables.heapHi
  {
    Config(c.tables.(free := c.tables.free + 1), c.heap.(currentBase := c.tables.free * 4096 + size))
  }

  lemma GrabbedIsStep(c: Config, size: Word)
    requires c.Valid() && 0 < size <= PAGE_SIZE && c.tables.free < c.tables.heapHi
    ensures Permitted(c, Grab(PageAligned(size)))
    ensures Step(c, Grab(PageAligned(size))) == Ok(Grabbed(c, size)) && Grabbed(c, size).Valid()
  {
    GrabFirstFree(c, size);
    StepValid(c, Grab(PageAligned(size)));
  }

  /** The page just taken belongs to the caller, and there is a table for it: it was mapped home as a free page. */
  lemma TakenPage(s: Space)
    requires Sound(s, Home(s.dir), true) && s.free < s.heapHi
    ensures !s.(free := s.free + 1).Protected(s.free)
    ensures s.Table(s.free / 1024) != 0 && s.Map(s.free).Some? && s.Map(s.free).value.frame == Home(s.free)
  {
    var s1 := s.(free := s.free + 1);
    assert s.Protected(s.free);
    ProtectedHasTable(s, s.free);
    forall k | 0 <= k < 1024 ensures s1.Table(k) == s.Table(k) && (s.Table(k) != 0 ==> s.Table(k) / 4096 != s.free) {
      assert s.Slot(k);
    }
  }

  /** The state after mapping it. */
  function GrabMapped(c: Config, size: Word, phys: Word): Config
    requires c.Valid() && 0 < size <= PAGE_SIZE && c.tables.free < c.tables.heapHi
    requires c.tables.Table(c.tables.free / 1024) != 0
  {
    var c1 := Grabbed(c, size);
    Config(SetPte(c1.tables, c.tables.free, phys, PAGE_ENTRY_RW), c1.heap)
  }

  lemma MapTaken(c: Config, size: Word, phys: Word)
    requires c.Valid() && 0 < size <= PAGE_SIZE && c.tables.free < c.tables.heapHi && phys % 4096 == 0
    ensures c.tables.Table(c.tables.free / 1024) != 0 && Grabbed(c, size).Valid()
    ensures var op := Map(c.tables.free * 4096, phys, PAGE_ENTRY_RW);
            && Permitted(Grabbed(c, size), op)
            && Step(Grabbed(c, size), op) == Ok(GrabMapped(c, size, phys)) && GrabMapped(c, size, phys).Valid()
  {
    var free: int := c.tables.free;
    var virt: Word := free * 4096;
    var c1, op := Grabbed(c, size), Map(virt, phys, PAGE_ENTRY_RW);
    TakenPage(c.tables);
    GrabbedIsStep(c, size);
    assert virt / 4096 == free && virt % 4096 == 0;
    assert c1.tables.Table(free / 1024) == c.tables.Table(free / 1024);
    StepValid(c1, op);
  }

  /** In every state, taking a page and mapping it changes the translation of that page and of no other. */
  lemma GrabMappedMaps(c: Config, size: Word, phys: Word, u: Page)
    requires c.Valid() && 0 < size <= PAGE_SIZE && c.tables.free < c.tables.heapHi && phys % 4096 == 0
    ensures c.tables.Table(c.tables.free / 1024) != 0 && c.tables.Map(c.tables.free).Some?
    ensures GrabMapped(c, size, phys).tables.Map(u) ==
            if u == c.tables.free then Some(Remap(c.tables.Map(u), phys / 4096, PAGE_ENTRY_RW)) else c.tables.Map(u)
  {
    MapTaken(c, size, phys);
    TakenPage(c.tables);
    var c1 := Grabbed(c, size);
    SetPteMaps(c1.tables, c.tables.free, phys, PAGE_ENTRY_RW, u);
    assert c1.tables.Map(u) == c.tables.Map(u);
  }

  /** It writes no frame outside the heap. */
  lemma GrabMappedUntouched(c: Config, size: Word, phys: Word)
    requires c.Valid() && 0 < size <= PAGE_SIZE && c.tables.free < c.tables.heapHi && phys % 4096 == 0
    ensures c.tables.Table(c.tables.free / 1024) != 0
    ensures Untouched(c.tables, GrabMapped(c, size, phys).tables)
  {
    MapTaken(c, size, phys);
    var s, c1 := c.tables, Grabbed(c, size);
    assert c1.tables.Table(s.free / 1024) == s.Table(s.free / 1024);
    MapPageUntouched(c1.tables, s.free, phys, PAGE_ENTRY_RW);
    forall f: Page, i | !s.InHeap(f) && 0 <= i < 1024
      ensures GrabMapped(c, size, phys).tables.mem[At(f, i)] == s.mem[At(f, i)]
    {
      assert !c1.tables.InHeap(f);
    }
  }

  /** Remapping a present, writable page with RW keeps its flags. */
  lemma RemapKernelPage(frame: Page, to: Page)
    ensures Remap(Some(Mapping(frame, 3)), to, PAGE_ENTRY_RW) == Mapping(to, 3)
  {
    JoinFrameExact(to, PAGE_ENTRY_RW);
    assert Or(1, 1) == 1;
    assert Or(3, 2) == 2 * Or(1, 1) + 1;
    assert Or(1, 0) == 1;
    assert Or(3, 1) == 2 * Or(1, 0) + 1;
  }

  // ---------------------------------------------------------------------------
  // The two pages of kmain
  // ---------------------------------------------------------------------------

  /** The page for the list of modules, and the page for the module. */
  function ListPage(l: Layout): Page
    requires l.Linked()
  {
    l.heapStart / 4096 + 4
  }

  function ModulePage(l: Layout): Page
    requires l.Linked()
  {
    l.heapStart / 4096 + 5
  }

  /** What is mapped in the end: the two pages to the frames of `modsAddr` and `modStart`, and every other page as
      `init_paging` left it. */
  function ModuleMap(l: Layout, modsAddr: Word, modStart: Word, u: Page): Option<Mapping>
    requires l.Linked()
  {
    if u == ListPage(l) then Some(Mapping(modsAddr / 4096, 3))
    else if u == ModulePage(l) then Some(Mapping(modStart / 4096, 3))
    else KernelMap(l, u)
  }

  lemma ListPageAddress(l: Layout)
    requires l.Linked()
    ensures ListPage(l) * 4096 == l.heapStart + 0x4000 && (l.heapStart + 0x4000) / 4096 == ListPage(l)
  {
    assert l.heapStart % 4096 == 0;
  }

  /** The heap pages of an initial state, as numbers. */
  lemma InitialHeap(c: Config, l: Layout)
    requires l.Linked() && c.Valid() && Initial(c, l)
    ensures c.tables.free == ListPage(l) && c.tables.free + 2 < c.tables.heapHi
    ensures ListPage(l) * 4096 == l.heapStart + 0x4000 && ModulePage(l) * 4096 == l.heapStart + 0x5000
    ensures ModulePage(l) == ListPage(l) + 1
    ensures KernelMap(l, ListPage(l)) == Some(Mapping(Home(ListPage(l)), 3))
    ensures KernelMap(l, ModulePage(l)) == Some(Mapping(Home(ModulePage(l)), 3))
  {
    assert l.heapStart % 4096 == 0;
    assert l.FirstPage() <= ListPage(l) < ModulePage(l) < l.EndPage();
  }

  /** The state with the list of modules mapped. */
  ghost predicate Listed(c: Config, l: Layout, modsAddr: Word) {
    && l.Linked() && c.Valid()
    && c.heap == Heap(true, l.heapStart, l.heapStart + 0x4010, l.heapEnd)
    && c.tables.free == ModulePage(l) < c.tables.heapHi
    && forall u: Page ::
         c.tables.Map(u) == if u == ListPage(l) then Some(Mapping(modsAddr / 4096, 3)) else KernelMap(l, u)
  }

  lemma ListIsMapped(c: Config, l: Layout, modsAddr: Word)
    requires l.Linked() && c.Valid() && Initial(c, l) && modsAddr % 4096 == 0
    ensures c.tables.free < c.tables.heapHi && c.tables.Table(c.tables.free / 1024) != 0
    ensures Listed(GrabMapped(c, MODULE_ENTRY, modsAddr), l, modsAddr)
  {
    InitialHeap(c, l);
    MapTaken(c, MODULE_ENTRY, modsAddr);
    var c2 := GrabMapped(c, MODULE_ENTRY, modsAddr);
    forall u: Page
      ensures c2.tables.Map(u) == if u == ListPage(l) then Some(Mapping(modsAddr / 4096, 3)) else KernelMap(l, u)
    {
      GrabMappedMaps(c, MODULE_ENTRY, modsAddr, u);
      RemapKernelPage(Home(ListPage(l)), modsAddr / 4096);
    }
  }

  /** From `c` to `c2` the list of modules was mapped, without a write outside the heap, and its first word can be
      read. */
  ghost predicate ListReady(c: Config, c2: Config, l: Layout, modsAddr: Word) {
    && Listed(c2, l, modsAddr) && Untouched(c.tables, c2.tables)
    && var s := c2.tables; LoadAt(s.mem, Home(s.dir), ListPage(l), 0) == Ok(s.mem[At(modsAddr / 4096, 0)])
  }

  lemma ListIsReady(c: Config, c2: Config, l: Layout, modsAddr: Word)
    requires l.Linked() && c.Valid() && Initial(c, l) && modsAddr % 4096 == 0
    requires c.tables.free < c.tables.heapHi && c.tables.Table(c.tables.free / 1024) != 0
    requires c2 == GrabMapped(c, MODULE_ENTRY, modsAddr)
    ensures ListReady(c, c2, l, modsAddr)
  {
    ListIsMapped(c, l, modsAddr);
    GrabMappedUntouched(c, MODULE_ENTRY, modsAddr);
    assert c2.tables.Map(ListPage(l)) == Some(Mapping(modsAddr / 4096, 3));
  }

  /** The state with the module mapped too. */
  ghost predicate Loaded(c: Config, l: Layout, modsAddr: Word, modStart: Word) {
    && l.Linked() && c.Valid()
    && c.heap == Heap(true, l.heapStart, l.heapStart + 0x5004, l.heapEnd)
    && forall u: Page :: c.tables.Map(u) == ModuleMap(l, modsAddr, modStart, u)
  }

  lemma ModulePageMapped(l: Layout)
    requires l.Linked()
    ensures KernelMap(l, ModulePage(l)) == Some(Mapping(Home(ModulePage(l)), 3))
    ensures ModulePage(l) * 4096 == l.heapStart + 0x5000 && ModulePage(l) != ListPage(l)
  {
    assert l.heapStart % 4096 == 0;
    assert l.FirstPage() <= ModulePage(l) < l.EndPage();
  }

  lemma ModuleMapped(c: Config, l: Layout, modsAddr: Word, modStart: Word, u: Page)
    requires Listed(c, l, modsAddr) && modStart % 4096 == 0
    ensures c.tables.Table(c.tables.free / 1024) != 0
    ensures GrabMapped(c, UINT32_SIZE, modStart).tables.Map(u) == ModuleMap(l, modsAddr, modStart, u)
  {
    ModulePageMapped(l);
    GrabMappedMaps(c, UINT32_SIZE, modStart, u);
    assert c.tables.Map(u) == if u == ListPage(l) then Some(Mapping(modsAddr / 4096, 3)) else KernelMap(l, u);
    RemapKernelPage(Home(ModulePage(l)), modStart / 4096);
  }

  lemma ModuleIsMapped(c: Config, l: Layout, modsAddr: Word, modStart: Word)
    requires Listed(c, l, modsAddr) && modStart % 4096 == 0
    ensures c.tables.Table(c.tables.free / 1024) != 0
    ensures Loaded(GrabMapped(c, UINT32_SIZE, modStart), l, modsAddr, modStart)
  {
    MapTaken(c, UINT32_SIZE, modStart);
    ModulePageMapped(l);
    forall u: Page ensures GrabMapped(c, UINT32_SIZE, modStart).tables.Map(u) == ModuleMap(l, modsAddr, modStart, u) {
      ModuleMapped(c, l, modsAddr, modStart, u);
    }
  }

  /** Taking a page and mapping it, and then the rest. */
  function GrabMapOps(size: Word, virt: Word, phys: Word, rest: seq<Op>): seq<Op> {
    [Grab(PageAligned(size))] + ([Map(virt, phys, PAGE_ENTRY_RW)] + rest)
  }

  /** The operations of `kmain`. */
  function KmainOps(l: Layout, modsAddr: Word, modStart: Word): seq<Op>
    requires l.Linked()
  {
    GrabMapOps(MODULE_ENTRY, l.heapStart + 0x4000, modsAddr,
               GrabMapOps(UINT32_SIZE, l.heapStart + 0x5000, modStart, []))
  }

  /** One operation in front of a run. */
  ghost predicate Leads(c: Config, ops: seq<Op>, c': Config) {
    c.Valid() && Orderly(c, ops) && Reaches(c, ops, c')
  }

  lemma LeadsCons(c: Config, op: Op, c1: Config, rest: seq<Op>, c': Config)
    requires c.Valid() && Permitted(c, op) && Step(c, op) == Ok(c1) && Leads(c1, rest, c')
    ensures Leads(c, [op] + rest, c')
  {
    OrderlyCons(c, op, rest);
    assert ([op] + rest)[0] == op && ([op] + rest)[1..] == rest;
  }

  /** Taking a page and mapping it, in front of a run. */
  lemma LeadsGrabMap(c: Config, size: Word, virt: Word, phys: Word, rest: seq<Op>, c': Config)
    requires c.Valid() && 0 < size <= PAGE_SIZE && c.tables.free < c.tables.heapHi && phys % 4096 == 0
    requires virt == c.tables.free * 4096 && c.tables.Table(c.tables.free / 1024) != 0
    requires Leads(GrabMapped(c, size, phys), rest, c')
    ensures Leads(c, GrabMapOps(size, virt, phys, rest), c')
  {
    MapTaken(c, size, phys);
    GrabbedIsStep(c, size);
    LeadsCons(Grabbed(c, size), Map(virt, phys, PAGE_ENTRY_RW), GrabMapped(c, size, phys), rest, c');
    LeadsCons(c, Grab(PageAligned(size)), Grabbed(c, size), [Map(virt, phys, PAGE_ENTRY_RW)] + rest, c');
  }

  lemma LeadsNowhere(c: Config)
    requires c.Valid()
    ensures Leads(c, [], c)
  {
  }

  lemma ModuleLeads(c: Config, l: Layout, modsAddr: Word, modStart: Word) returns (c': Config)
    requires Listed(c, l, modsAddr) && modStart % 4096 == 0
    ensures Leads(c, GrabMapOps(UINT32_SIZE, l.heapStart + 0x5000, modStart, []), c')
    ensures Loaded(c', l, modsAddr, modStart)
  {
    ModuleIsMapped(c, l, modsAddr, modStart);
    ModulePageMapped(l);
    c' := GrabMapped(c, UINT32_SIZE, modStart);
    LeadsNowhere(c');
    LeadsGrabMap(c, UINT32_SIZE, l.heapStart + 0x5000, modStart, [], c');
  }

  lemma ListLeads(c: Config, l: Layout, modsAddr: Word, rest: seq<Op>, c': Config)
    requires l.Linked() && c.Valid() && c.tables.free == ListPage(l) && modsAddr % 4096 == 0
    requires c.tables.free < c.tables.heapHi && c.tables.Table(c.tables.free / 1024) != 0
    requires Leads(GrabMapped(c, MODULE_ENTRY, modsAddr), rest, c')
    ensures Leads(c, GrabMapOps(MODULE_ENTRY, l.heapStart + 0x4000, modsAddr, rest), c')
  {
    ListPageAddress(l);
    LeadsGrabMap(c, MODULE_ENTRY, l.heapStart + 0x4000, modsAddr, rest, c');
  }

  lemma KmainLeads(c: Config, c2: Config, l: Layout, modsAddr: Word, modStart: Word) returns (c': Config)
    requires l.Linked() && c.Valid() && c.tables.free == ListPage(l) && modsAddr % 4096 == 0 && modStart % 4096 == 0
    requires c.tables.free < c.tables.heapHi && c.tables.Table(c.tables.free / 1024) != 0
    requires c2 == GrabMapped(c, MODULE_ENTRY, modsAddr) && Listed(c2, l, modsAddr)
    ensures Leads(c, KmainOps(l, modsAddr, modStart), c') && Loaded(c', l, modsAddr, modStart)
  {
    c' := ModuleLeads(c2, l, modsAddr, modStart);
    ListLeads(c, l, modsAddr, GrabMapOps(UINT32_SIZE, l.heapStart + 0x5000, modStart, []), c');
  }

  /** For every page-aligned list and module, the four operations are orderly from the state that `init_paging` leaves,
      none of them halts, and they map the two heap pages and nothing else. */
  lemma KmainRuns(c: Config, l: Layout, modsAddr: Word, modStart: Word) returns (c': Config)
    requires l.Linked() && c.Valid() && Initial(c, l) && modsAddr % 4096 == 0 && modStart % 4096 == 0
    ensures Leads(c, KmainOps(l, modsAddr, modStart), c') && Loaded(c', l, modsAddr, modStart)
  {
    InitialHeap(c, l);
    ListIsMapped(c, l, modsAddr);
    c' := KmainLeads(c, GrabMapped(c, MODULE_ENTRY, modsAddr), l, modsAddr, modStart);
  }

  /** So they are a run that boot and `init_paging` can be followed by. */
  lemma KmainOrderly(l: Layout, modsAddr: Word, modStart: Word)
    requires l.Linked() && modsAddr % 4096 == 0 && modStart % 4096 == 0
    ensures forall c: Config | c.Valid() && Initial(c, l) :: Orderly(c, KmainOps(l, modsAddr, modStart))
  {
    forall c: Config | c.Valid() && Initial(c, l) ensures Orderly(c, KmainOps(l, modsAddr, modStart)) {
      var c' := KmainRuns(c, l, modsAddr, modStart);
    }
  }
}
