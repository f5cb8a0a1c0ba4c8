/** The boot page tables of src/asm/boot.asm, over the layout of config/linker.ld. */
module Boot {
  import opened Division
  import opened Words
  import opened PageWalk
  import opened Machine

  const KERNEL_BASE := 0xc000_0000
  const PAGE_PERM := 3

  /** The linker symbols. `earlyBss` is the frame of `page_directory`; `lowmem_pt` and `kernel_pt` follow it. */
  datatype Layout = Layout(earlyBss: Page, earlyEnd: Word, kernelStart: Word, kernelEnd: Word,
                           heapStart: Word, heapEnd: Word)
  {
    /** What config/linker.ld arranges and asserts, with the kernel starting on a page boundary. */
    predicate Arranged() {
      && 0x103 <= earlyBss && (earlyBss + 3) * 4096 <= earlyEnd
      && earlyEnd % 4096 == 0 && kernelStart == earlyEnd + KERNEL_BASE
      && kernelStart < kernelEnd && kernelEnd - kernelStart < 0x30_0000
      && kernelStart <= heapStart && heapEnd == heapStart + 0x10_0000 && heapEnd <= kernelEnd
      && heapStart % 4096 == 0
    }

    /** The early kernel is covered by one page table, which the script does not assert. */
    predicate EarlyFits() {
      earlyEnd <= 0x40_0000
    }

    predicate Linked() {
      Arranged() && EarlyFits()
    }

    /** The whole kernel is covered by one page table; the linker's limit of 3 MB does not quite say so. */
    predicate OneTable() {
      kernelEnd <= 0xc040_0000
    }

    function LowTable(): Page requires earlyBss < 0x400 { earlyBss + 1 }
    function HighTable(): Page requires earlyBss < 0x400 { earlyBss + 2 }
    function EarlyPages(): Page { earlyEnd / 4096 }
    function FirstPage(): Page { kernelStart / 4096 }
    /** One past the last page that meets the kernel. */
    function EndPage(): int { (kernelEnd + 4095) / 4096 }
  }

  /** The kernel page whose entry is `j`, if there is one. */
  function KernelPage(l: Layout, j: int): int {
    if BASE_PAGE + j >= l.FirstPage() then BASE_PAGE + j else BASE_PAGE + 1024 + j
  }

  /** Entry `j` of `lowmem_pt` after `n` pages. */
  function LowEntry(n: int, j: int): Word
    requires 0 <= j < 1024
  {
    if j < n then j * 4096 + 3 else 0
  }

  /** Entry `j` of `kernel_pt` after the kernel pages below `q`. */
  function HighEntry(l: Layout, q: int, j: int): Word
    requires 0 <= j < 1024 && l.Linked()
  {
    var p := KernelPage(l, j);
    if l.FirstPage() <= p < q then (p - BASE_PAGE) * 4096 + 3 else 0
  }

  function DirEntry(l: Layout, low: bool, high: bool, i: int): Word
    requires l.Linked()
  {
    if i == 0 && low then l.LowTable() * 4096 + 3
    else if i == 768 && high then l.HighTable() * 4096 + 3
    else 0
  }

  /** The three tables while they are being built. */
  predicate Tables(m: Memory, l: Layout, low: bool, n: int, high: bool, q: int)
    requires l.Linked()
  {
    && (forall i | 0 <= i < 1024 :: m[At(l.earlyBss, i)] == DirEntry(l, low, high, i))
    && (forall j | 0 <= j < 1024 :: m[At(l.LowTable(), j)] == LowEntry(n, j))
    && (forall j | 0 <= j < 1024 :: m[At(l.HighTable(), j)] == HighEntry(l, q, j))
  }

  /** The translation boot.asm leaves: low memory onto itself, the kernel 0xC0000000 lower. */
  function BootWalk(l: Layout, v: Page): Option<Mapping>
    requires l.Linked()
  {
    if v / 1024 == 0 then Entry(LowEntry(l.EarlyPages(), v % 1024))
    else if v / 1024 == 768 then Entry(HighEntry(l, l.EndPage(), v % 1024))
    else None
  }

  predicate Booted(m: Memory, root: Page, l: Layout)
    requires l.Linked()
  {
    root == l.earlyBss && Tables(m, l, true, l.EarlyPages(), true, l.EndPage())
  }

  lemma EntryOf(frame: Page)
    ensures Entry(frame * 4096 + 3) == Some(Mapping(frame, 3))
    ensures (frame * 4096 + 3) / 4096 == frame && (frame * 4096 + 3) % 2 == 1
  {
    var w := frame * 4096 + 3;
    DivModUnique(w, 4096, frame, 3);
    DivModUnique(w, 2, frame * 2048 + 1, 1);
  }

  lemma WalkTo(m: Memory, root: Page, v: Page, table: Page)
    requires m[At(root, v / 1024)] == table * 4096 + 3
    ensures Walk(m, root, v) == Entry(m[At(table, v % 1024)])
  {
    EntryOf(table);
  }

  lemma BootedWalk(m: Memory, root: Page, l: Layout, v: Page)
    requires l.Linked() && Booted(m, root, l)
    ensures Walk(m, root, v) == BootWalk(l, v)
  {
    var i, j := v / 1024, v % 1024;
    var pde := m[At(root, i)];
    assert pde == DirEntry(l, true, true, i);
    if i == 0 {
      assert m[At(l.LowTable(), j)] == LowEntry(l.EarlyPages(), j);
      WalkTo(m, root, v, l.LowTable());
    } else if i == 768 {
      assert m[At(l.HighTable(), j)] == HighEntry(l, l.EndPage(), j);
      WalkTo(m, root, v, l.HighTable());
    } else {
      assert pde == 0;
    }
  }

  /** The kernel page whose entry is at index `j`, by its address. */
  lemma KernelPageAddress(l: Layout, v: Page)
    requires l.Linked() && 0xc_0000 <= v < 0xc_0400
    ensures var p := KernelPage(l, v % 1024);
            l.FirstPage() <= p < l.EndPage() <==>
            l.kernelStart <= v * 4096 < l.kernelEnd || l.kernelStart <= (v + 1024) * 4096 < l.kernelEnd
    ensures l.kernelStart <= v * 4096 < l.kernelEnd ==> KernelPage(l, v % 1024) == v
    ensures l.kernelStart <= (v + 1024) * 4096 < l.kernelEnd && !(l.kernelStart <= v * 4096 < l.kernelEnd) ==>
              KernelPage(l, v % 1024) == v + 1024
  {
    assert v % 1024 == v - 0xc_0000;
    assert l.kernelStart == l.FirstPage() * 4096;
  }

  /** The translation boot.asm leaves, by address: the pages below the end of the early kernel onto themselves;
      the kernel 0xC0000000 lower, and what of it lies above 0xC0400000 a whole table too low; nothing else. */
  lemma BootedByAddress(m: Memory, root: Page, l: Layout, v: Page)
    requires l.Linked() && Booted(m, root, l)
    ensures v < 1024 ==> Walk(m, root, v) == if v * 4096 < l.earlyEnd then Some(Mapping(v, 3)) else None
    ensures 0xc_0000 <= v < 0xc_0400 ==>
              Walk(m, root, v) ==
              if l.kernelStart <= v * 4096 < l.kernelEnd then Some(Mapping(v - 0xc_0000, 3))
              else if l.kernelStart <= (v + 1024) * 4096 < l.kernelEnd then Some(Mapping(v + 1024 - 0xc_0000, 3))
              else None
    ensures !(v < 1024) && !(0xc_0000 <= v < 0xc_0400) ==> Walk(m, root, v) == None
  {
    BootedWalk(m, root, l, v);
    if v < 1024 {
      EntryOf(v);
    } else if 0xc_0000 <= v < 0xc_0400 {
      KernelPageAddress(l, v);
      var p := KernelPage(l, v % 1024);
      if l.FirstPage() <= p < l.EndPage() { EntryOf(p - 0xc_0000); }
    }
  }

  /** `KernelPage` inverts the index computation of the `.higher` loop: the kernel spans less than a table. */
  lemma KernelPageIndex(l: Layout, q: int, j: int)
    requires l.Linked() && l.FirstPage() <= q < l.EndPage() && 0 <= j < 1024
    ensures KernelPage(l, j) == q <==> j == q % 1024
  {
    assert BASE_PAGE % 1024 == 0;
    assert l.FirstPage() >= BASE_PAGE && l.EndPage() <= l.FirstPage() + 768;
    assert q % 1024 == (if q < BASE_PAGE + 1024 then q - BASE_PAGE else q - BASE_PAGE - 1024);
  }

  lemma KernelMapped(l: Layout, v: Page)
    requires l.Linked() && l.OneTable() && l.FirstPage() <= v < l.EndPage()
    ensures BootWalk(l, v) == Some(Mapping(v - BASE_PAGE, 3))
  {
    assert v / 1024 == 768;
    KernelPageIndex(l, v, v % 1024);
    EntryOf(v - BASE_PAGE);
  }

  /** Every kernel page is mapped 0xC0000000 lower if and only if the kernel ends by 0xC0400000. */
  lemma BootMapsKernelIff(l: Layout)
    requires l.Linked()
    ensures (forall v: Page | l.FirstPage() <= v < l.EndPage() :: BootWalk(l, v) == Some(Mapping(v - BASE_PAGE, 3)))
            <==> l.OneTable()
  {
    if l.OneTable() {
      forall v: Page | l.FirstPage() <= v < l.EndPage() ensures BootWalk(l, v) == Some(Mapping(v - BASE_PAGE, 3)) {
        KernelMapped(l, v);
      }
    } else {
      assert l.FirstPage() <= 0xc_0400 < l.EndPage();
      assert BootWalk(l, 0xc_0400).None?;
    }
  }

  lemma LowStep(m: Memory, l: Layout, n: int)
    requires l.Linked() && 0 <= n < l.EarlyPages() && Tables(m, l, true, n, false, l.FirstPage())
    ensures Tables(m[At(l.LowTable(), n) := n * 4096 + 3], l, true, n + 1, false, l.FirstPage())
  {
    var m' := m[At(l.LowTable(), n) := n * 4096 + 3];
    forall j | 0 <= j < 1024 ensures m'[At(l.LowTable(), j)] == LowEntry(n + 1, j) {
      AtInjective(l.LowTable(), j, l.LowTable(), n);
    }
  }

  lemma HighStep(m: Memory, l: Layout, q: int)
    requires l.Linked() && l.FirstPage() <= q < l.EndPage() && Tables(m, l, true, l.EarlyPages(), true, q)
    ensures Tables(m[At(l.HighTable(), q % 1024) := (q - BASE_PAGE) * 4096 + 3], l, true, l.EarlyPages(), true, q + 1)
  {
    var m' := m[At(l.HighTable(), q % 1024) := (q - BASE_PAGE) * 4096 + 3];
    forall j | 0 <= j < 1024 ensures m'[At(l.HighTable(), j)] == HighEntry(l, q + 1, j) {
      AtInjective(l.HighTable(), j, l.HighTable(), q % 1024);
      KernelPageIndex(l, q, j);
    }
  }

  /** A layout the linker accepts whose last page boot.asm leaves unmapped. */
  lemma LinkerLimitIsTooWeak()
    ensures var l := Layout(0x103, 0x10_6000, 0xc010_6000, 0xc040_5000, 0xc030_5000, 0xc040_5000);
            l.Linked() && BootWalk(l, 0xc_0400).None?
  {
  }

  lemma LowMapped(l: Layout, v: Page)
    requires l.Linked() && v < l.EarlyPages()
    ensures BootWalk(l, v) == Some(Mapping(v, 3))
  {
    assert v / 1024 == 0 && v % 1024 == v;
    EntryOf(v);
  }

  lemma OrPerm(d: Word)
    requires d % 4096 == 0
    ensures Or32(d, PAGE_PERM) == d + 3
  {
    var e := Or32(d, 3);
    assert e / 4096 == d / 4096 && e % 4096 == 3;
  }

  /** The signed reading of a word, as `jl` compares it. */
  function Signed(w: Word): int {
    if w < 0x8000_0000 then w else w - WORD_LIMIT
  }

  /** `mov [table + i*4], d` and `or dword [table + i*4], PAGE_PERM`, with paging off. */
  method PutEntry(cpu: Cpu, table: Page, i: int, d: Word)
    requires cpu.Valid() && 0 <= i < 1024 && d % 4096 == 0
    modifies cpu.ram
    ensures cpu.Mem() == old(cpu.Mem())[At(table, i) := d + 3]
  {
    cpu.StorePhysical(table, i, d);
    OrPerm(d);
    var w := cpu.ram[At(table, i)];
    cpu.StorePhysical(table, i, Or32(w, PAGE_PERM));
  }

  /** Zero one frame of the early BSS. */
  method ZeroFrame(cpu: Cpu, frame: Page)
    requires cpu.Valid()
    modifies cpu.ram
    ensures forall i | 0 <= i < 1024 :: cpu.Mem()[At(frame, i)] == 0
    ensures forall f: Page, i | f != frame && 0 <= i < 1024 :: cpu.Mem()[At(f, i)] == old(cpu.Mem())[At(f, i)]
  {
    for n := 0 to 1024
      invariant forall i | 0 <= i < n :: cpu.Mem()[At(frame, i)] == 0
      invariant forall f: Page, i | f != frame && 0 <= i < 1024 :: cpu.Mem()[At(f, i)] == old(cpu.Mem())[At(f, i)]
    {
      cpu.StorePhysical(frame, n, 0);
    }
  }

  /** The `.lowmem` loop. */
  method MapLowMemory(cpu: Cpu, l: Layout)
    requires cpu.Valid() && l.Linked() && Tables(cpu.Mem(), l, true, 0, false, l.FirstPage())
    modifies cpu.ram
    ensures Tables(cpu.Mem(), l, true, l.EarlyPages(), false, l.FirstPage())
  {
    var eax: Word := 0;
    var more := true;
    ghost var n := 0;
    while more
      invariant 0 <= n <= l.EarlyPages() && eax == n * 4096 && more == (n < l.EarlyPages())
      invariant Tables(cpu.Mem(), l, true, n, false, l.FirstPage())
      decreases l.EarlyPages() - n
    {
      LowStep(cpu.Mem(), l, n);
      var ecx := (eax / 4096) % 1024;
      assert ecx == n;
      PutEntry(cpu, l.LowTable(), ecx, eax);
      eax := Add32(eax, PAGE_SIZE);
      n := n + 1;
      more := Signed(eax) < Signed(l.earlyEnd);
    }
  }

  /** The `.higher` loop. */
  method MapKernel(cpu: Cpu, l: Layout)
    requires cpu.Valid() && l.Linked() && Tables(cpu.Mem(), l, true, l.EarlyPages(), true, l.FirstPage())
    modifies cpu.ram
    ensures Tables(cpu.Mem(), l, true, l.EarlyPages(), true, l.EndPage())
  {
    var eax := l.kernelStart;
    var more := true;
    ghost var q := l.FirstPage();
    while more
      invariant l.FirstPage() <= q <= l.EndPage() && eax == q * 4096 && more == (q < l.EndPage())
      invariant Tables(cpu.Mem(), l, true, l.EarlyPages(), true, q)
      decreases l.EndPage() - q
    {
      HighStep(cpu.Mem(), l, q);
      var ecx := (eax / 4096) % 1024;
      assert ecx == q % 1024;
      var ebx := eax - KERNEL_BASE;
      PutEntry(cpu, l.HighTable(), ecx, ebx);
      eax := Add32(eax, PAGE_SIZE);
      q := q + 1;
      more := Signed(eax) < Signed(l.kernelEnd);
    }
  }

  /** `_start` up to the point where paging is on. */
  method Start(cpu: Cpu, l: Layout)
    requires cpu.Valid() && l.Linked()
    modifies cpu, cpu.ram
    ensures Booted(cpu.Mem(), cpu.cr3, l)
    ensures forall v: Page | v < 1024 ::
              Walk(cpu.Mem(), cpu.cr3, v) == if v * 4096 < l.earlyEnd then Some(Mapping(v, 3)) else None
  {
    ZeroFrame(cpu, l.earlyBss);
    ZeroFrame(cpu, l.LowTable());
    ZeroFrame(cpu, l.HighTable());
    PutEntry(cpu, l.earlyBss, 0, l.LowTable() * 4096);
    MapLowMemory(cpu, l);
    PutEntry(cpu, l.earlyBss, KERNEL_BASE / 0x40_0000, l.HighTable() * 4096);
    MapKernel(cpu, l);
    cpu.cr3 := l.earlyBss;
    forall v: Page | v < 1024
      ensures Walk(cpu.Mem(), cpu.cr3, v) == if v * 4096 < l.earlyEnd then Some(Mapping(v, 3)) else None
    {
      BootedByAddress(cpu.Mem(), cpu.cr3, l, v);
    }
  }
}
