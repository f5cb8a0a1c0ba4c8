/** The kernel pager of src/mm/paging.c as an object: `virt_to_phys`, `page_map` and their helpers. */
module Pager {
  import opened Words
  import opened PageWalk
  import opened EarlyHeap
  import opened Machine
  import opened Paging
  import opened PagingCode
  import opened PagingSteps
  import opened PagingRuns
  import opened Boot
  import opened PagingTheorems
  import opened Kmain

  class Kernel {
    const cpu: Cpu
    const heap: Allocator
    var pageDirectory: Page         // a page-aligned pointer, as its page number; 0 is NULL
    var ptPhysToVirt: Page          // likewise
    var kernelPagingEnabled: bool

    constructor (cpu: Cpu, heap: Allocator)
      ensures this.cpu == cpu && this.heap == heap
      ensures pageDirectory == 0 && ptPhysToVirt == 0 && !kernelPagingEnabled
    {
      this.cpu := cpu;
      this.heap := heap;
      pageDirectory, ptPhysToVirt, kernelPagingEnabled := 0, 0, false;
    }

    ghost predicate Ready()
      reads this, cpu, heap
    {
      && cpu.Valid()
      && heap.State().Valid() && heap.initialBase % 4096 == 0 && heap.maxBase % 4096 == 0
      && heap.maxBase <= 0xc040_0000
    }

    /** The tables as a value. */
    ghost function View(): Space
      requires Ready()
      reads this, cpu, heap, cpu.ram
    {
      Space(cpu.Mem(), pageDirectory, ptPhysToVirt,
            heap.initialBase / 4096, PageAlignUp(heap.currentBase) / 4096, heap.maxBase / 4096)
    }

    ghost function Config(): PagingTheorems.Config
      requires Ready()
      reads this, cpu, heap, cpu.ram
    {
      PagingTheorems.Config(View(), heap.State())
    }

    ghost predicate Inv()
      reads this, cpu, heap, cpu.ram
    {
      Ready() && Sound(View(), cpu.cr3, kernelPagingEnabled)
    }

    /** The head of `virt_to_phys`: the directory entry, from the shadow index after the switch. */
    method ReadPde(pageDirI: int) returns (r: Res<Word>)
      requires cpu.Valid() && 0 <= pageDirI < 1024
      ensures r == SoftPde(cpu.Mem(), cpu.cr3, kernelPagingEnabled, pageDirectory, ptPhysToVirt, pageDirI)
    {
      if kernelPagingEnabled {
        var table :- cpu.Load(ptPhysToVirt, pageDirI);
        var entry :- cpu.Load(pageDirectory, pageDirI);
        return Ok(OrPresent(table, entry));
      } else {
        r := cpu.Load(cpu.cr3, pageDirI);
      }
    }

    /** The tail of `virt_to_phys`: the two assertions and the final load. */
    method ReadPte(pde: Word, pageTableI: int) returns (r: Res<Word>)
      requires cpu.Valid() && 0 <= pageTableI < 1024
      ensures r == SoftPte(cpu.Mem(), cpu.cr3, pde, pageTableI)
    {
      if !IsPresent(pde) {
        return Halt(AssertionFailed);
      }
      var pte :- cpu.Load(RoundDown(pde) / 4096, pageTableI);
      if !IsPresent(pte) {
        return Halt(AssertionFailed);
      }
      return Ok(RoundDown(pte));
    }

    /** No part of the page before the first free one is left over. */
    ghost predicate Tidy()
      reads this, cpu, heap, cpu.ram
    {
      Ready() && heap.currentBase == View().free * 4096
    }

    /** `virt_to_phys`. */
    method VirtToPhys(virt: Word) returns (r: Res<Word>)
      requires cpu.Valid()
      ensures r == SoftWalk(cpu.Mem(), cpu.cr3, kernelPagingEnabled, pageDirectory, ptPhysToVirt, virt / 4096)
    {
      var index := virt / PAGE_SIZE;
      var pageDirI := (index / 1024) % 1024;
      var pageTableI := index % 1024;
      DirectoryIndex(virt);
      var pde :- ReadPde(pageDirI);
      r := ReadPte(pde, pageTableI);
    }

    /** `memset(pageTable, 0, PAGE_TABLE_SIZE)`, a word at a time. */
    method ClearTable(p: Page) returns (r: Res<()>)
      requires cpu.Valid()
      modifies cpu.ram
      ensures match ClearCode(old(cpu.Mem()), cpu.cr3, p, 1024)
              case Ok(m) => r == Ok(()) && cpu.Mem() == m
              case Halt(why) => r == Halt(why)
    {
      ghost var m := cpu.Mem();
      var n := 0;
      while n < 1024
        invariant 0 <= n <= 1024 && ClearCode(m, cpu.cr3, p, n) == Ok(cpu.Mem())
      {
        var next := n + 1;
        ClearStep(m, cpu.Mem(), cpu.cr3, p, n, next);
        var stored := cpu.Store(p, n, 0);
        if stored.Halt? {
          ClearHalts(m, cpu.cr3, p, next, 1024);
          return stored;
        }
        n := next;
      }
      assert n == 1024;
      return Ok(());
    }

    /** The same where every store reaches the page. */
    method ClearReached(p: Page, ghost table: Page)
      requires cpu.Valid() && p == table && ClearReaches(cpu.Mem(), cpu.cr3, table)
      modifies cpu.ram
      ensures cpu.Mem() == Cleared(old(cpu.Mem()), table, 1024)
    {
      ClearCodeReaches(cpu.Mem(), cpu.cr3, table, 1024);
      var cleared := ClearTable(p);
    }

    /** `kmalloc_early_align(PAGE_TABLE_SIZE)`: the first free page, or a halt. */
    method AllocTable() returns (r: Res<Word>)
      requires Ready() && View().free <= View().heapHi
      modifies heap
      ensures r == if old(View().free) < old(View().heapHi) then Ok(old(View().free) * 4096) else Halt(OutOfMemory)
      ensures r.Ok? ==> Ready() && View() == old(View()).(free := old(View().free) + 1)
      ensures r.Ok? ==> heap.State() == old(heap.State()).(currentBase := (old(View().free) + 1) * 4096)
    {
      r := heap.AllocAligned(PAGE_TABLE_SIZE);
    }

    /** `phys | PAGE_ENTRY_PRESENT | PAGE_ENTRY_RW`. */
    method PresentWritable(phys: Word, ghost frame: Page) returns (d: Word)
      requires phys == frame * 4096
      ensures d == frame * 4096 + 3
    {
      PresentReadWrite(phys);
      d := Or32(Or32(phys, PAGE_ENTRY_PRESENT), PAGE_ENTRY_RW);
    }

    /** Enter the table at page `table` as table `i` in the directory and in the shadow index. */
    method EnterTable(i: int, d: Word, t: Word, ghost table: Page)
      requires cpu.Valid() && 0 <= i < 1024 && d == Home(table) * 4096 + 3 && t == table * 4096
      requires AtHome(cpu.Mem(), cpu.cr3, pageDirectory)
      requires AtHome(cpu.Mem()[At(Home(pageDirectory), i) := Home(table) * 4096 + 3], cpu.cr3, ptPhysToVirt)
      modifies cpu.ram
      ensures cpu.Mem() == old(cpu.Mem())[At(Home(pageDirectory), i) := Home(table) * 4096 + 3]
                                         [At(Home(ptPhysToVirt), i) := table * 4096]
    {
      var stored := cpu.Store(pageDirectory, i, d);
      stored := cpu.Store(ptPhysToVirt, i, t);
    }

    /** Clear the page handed out, find its frame, and enter it in the directory and the shadow index. */
    method FillTable(pageTable: Word, pageDirI: int, ghost table: Page)
      requires cpu.Valid() && 0 <= pageDirI < 1024 && pageTable == table * 4096
      requires FillReaches(cpu.Mem(), cpu.cr3, kernelPagingEnabled, pageDirectory, ptPhysToVirt, table, pageDirI)
      modifies cpu.ram
      ensures cpu.Mem() == Entered(old(cpu.Mem()), pageDirectory, ptPhysToVirt, table, pageDirI)
    {
      PageAddress(table);
      assert pageTable / 4096 == table;
      ClearReached(pageTable / 4096, table);
      var phys := VirtToPhys(pageTable);
      var d := PresentWritable(phys.value, Home(table));
      EnterTable(pageDirI, d, pageTable, table);
    }

    /** The branch of `page_map` that creates table `pageDirI`. */
    method NewTable(pageDirI: int) returns (r: Res<()>)
      requires Inv() && 0 <= pageDirI < 1024 && View().Table(pageDirI) == 0
      modifies heap, cpu.ram
      ensures r == if old(View().free) < old(View().heapHi) then Ok(()) else Halt(OutOfMemory)
      ensures r.Ok? ==> Ready() && View() == Link(old(View()), pageDirI)
      ensures r.Ok? ==> heap.State() == old(heap.State()).(currentBase := (old(View().free) + 1) * 4096)
    {
      ghost var s := View();
      var table :- AllocTable();
      ghost var s1 := View();
      NewTableReaches(s, cpu.cr3, kernelPagingEnabled, pageDirI);
      FillTable(table, pageDirI, s.free);
      assert View() == s1.(mem := cpu.Mem());
      return Ok(());
    }

    /** One statement of `page_map_pte`: read the entry, change it, write it back. */
    method EditEntry(table: Page, index: int, e: Edit) returns (r: Res<()>)
      requires cpu.Valid() && 0 <= index < 1024
      modifies cpu.ram
      ensures match EditAt(old(cpu.Mem()), cpu.cr3, table, index, e)
              case Ok(m) => r == Ok(()) && cpu.Mem() == m
              case Halt(why) => r == Halt(why)
    {
      var w :- cpu.Load(table, index);
      r := cpu.Store(table, index, Edited(w, e));
    }

    /** `page_map_pte`. */
    method PageMapPte(table: Page, index: int, phys: Word, perm: Word) returns (r: Res<()>)
      requires cpu.Valid() && 0 <= index
      modifies cpu.ram
      ensures table == 0 || index >= 1024 ==> r == Halt(AssertionFailed) && cpu.Mem() == old(cpu.Mem())
      ensures table != 0 && index < 1024 ==>
                match PteCode(old(cpu.Mem()), cpu.cr3, table, index, phys, perm)
                case Ok(m) => r == Ok(()) && cpu.Mem() == m
                case Halt(why) => r == Halt(why)
    {
      if table == 0 || !(index < PAGE_ENTRIES) {
        return Halt(AssertionFailed);
      }
      var _ :- EditEntry(table, index, KeepFlags);
      var _ :- EditEntry(table, index, Join(phys));
      var _ :- EditEntry(table, index, Join(perm));
      r := EditEntry(table, index, Join(PAGE_ENTRY_PRESENT));
    }

    /** The branch of `page_map` for a directory entry that is not present. */
    method EnsureTable(pageDirI: int, ghost v: Page) returns (r: Res<()>)
      requires Inv() && pageDirI == v / 1024
      modifies heap, cpu.ram
      ensures r == if old(Room(View(), v)) then Ok(()) else Halt(OutOfMemory)
      ensures r.Ok? ==> Ready() && View() == WithTable(old(View()), v)
      ensures r.Ok? ==> heap.State() == HeapAfterMap(old(Config()), v)
    {
      ghost var s := View();
      DirectoryReaches(s, cpu.cr3, kernelPagingEnabled, pageDirI);
      var entry := cpu.Load(pageDirectory, pageDirI);
      if IsPresent(entry.value) {
        return Ok(());
      }
      r := NewTable(pageDirI);
    }

    /** The rest of `page_map`, once there is a table at virtual address `t`. */
    method SetMapping(pageDirI: int, pageTableI: int, phys: Word, perm: Word, ghost t: Word) returns (r: Res<Word>)
      requires cpu.Valid() && 0 <= pageDirI < 1024 && 0 <= pageTableI < 1024
      requires LoadAt(cpu.Mem(), cpu.cr3, ptPhysToVirt, pageDirI) == Ok(t) && t / 4096 != 0 && t <= PAGE_ALIGN
      requires PteCode(cpu.Mem(), cpu.cr3, t / 4096, pageTableI, phys, perm).Ok?
      modifies cpu.ram
      ensures Ok(cpu.Mem()) == PteCode(old(cpu.Mem()), cpu.cr3, t / 4096, pageTableI, phys, perm)
      ensures r.Ok? && r.value == t + 4 * pageTableI
    {
      var table := cpu.Load(ptPhysToVirt, pageDirI);
      var done := PageMapPte(table.value / 4096, pageTableI, phys, perm);
      r := Ok(table.value + 4 * pageTableI);
    }

    /** The rest of `page_map` as a step from the tables `s`, where `s1` has the table. */
    method EditMapping(pageDirI: int, pageTableI: int, phys: Word, perm: Word,
                       ghost s: Space, ghost s1: Space, ghost v: Page)
      returns (r: Res<Word>)
      requires cpu.Valid() && pageDirI == v / 1024 && pageTableI == v % 1024 && phys % 4096 == 0
      requires Sound(s, cpu.cr3, kernelPagingEnabled) && Room(s, v)
      requires s1 == WithTable(s, v) && s1.mem == cpu.Mem() && s1.shadow == ptPhysToVirt
      modifies cpu.ram
      ensures var s2 := s1.(mem := cpu.Mem());
              && MapOutcome(s, s2, cpu.cr3, kernelPagingEnabled, v, phys, perm)
              && r.Ok? && r.value == PteAddress(s2, v)
    {
      ghost var t := s1.Table(pageDirI);
      TableIsReady(s, cpu.cr3, kernelPagingEnabled, v, pageDirI, pageTableI, phys, perm);
      r := SetMapping(pageDirI, pageTableI, phys, perm, t);
      ghost var s2 := s1.(mem := cpu.Mem());
      PageIsMapped(s, s1, s2, cpu.cr3, kernelPagingEnabled, v, pageDirI, pageTableI, t, phys, perm);
    }

    /** The body of `page_map` after the assertions and the index computation. */
    method MapAt(pageDirI: int, pageTableI: int, phys: Word, perm: Word, ghost v: Page) returns (r: Res<Word>)
      requires Inv() && phys % 4096 == 0
      requires pageDirI == v / 1024 && pageTableI == v % 1024
      modifies heap, cpu.ram
      ensures if old(Room(View(), v)) then r.Ok? else r == Halt(OutOfMemory)
      ensures r.Ok? ==>
                && Ready() && heap.State() == HeapAfterMap(old(Config()), v) && r.value == PteAddress(View(), v)
                && MapOutcome(old(View()), View(), cpu.cr3, kernelPagingEnabled, v, phys, perm)
    {
      ghost var s := View();
      var _ :- EnsureTable(pageDirI, v);
      ghost var s1 := View();
      r := EditMapping(pageDirI, pageTableI, phys, perm, s, s1, v);
      assert View() == s1.(mem := cpu.Mem());
    }

    /** `page_map`: halts on unaligned arguments, without a directory, or when a table is needed and the heap is full,
        and for no other reason. Otherwise it runs the edits of the code to their end; the invariant survives if and
        only if the call is harmless, and then exactly one mapping was installed. */
    method PageMap(virt: Word, phys: Word, perm: Word) returns (r: Res<Word>)
      requires pageDirectory != 0 ==> Inv()
      modifies heap, cpu.ram
      ensures virt % 4096 != 0 || phys % 4096 != 0 || pageDirectory == 0 ==> r == Halt(AssertionFailed)
      ensures virt % 4096 == 0 && phys % 4096 == 0 && pageDirectory != 0 ==>
                if old(Room(View(), virt / 4096)) then r.Ok? else r == Halt(OutOfMemory)
      ensures r.Ok? ==>
                && Ready() && heap.State() == HeapAfterMap(old(Config()), virt / 4096)
                && r.value == PteAddress(View(), virt / 4096)
                && MapOutcome(old(View()), View(), cpu.cr3, kernelPagingEnabled, virt / 4096, phys, perm)
    {
      if !Aligned(virt) || !Aligned(phys) || pageDirectory == 0 {
        return Halt(AssertionFailed);
      }
      var index := virt / PAGE_SIZE;
      var pageDirI := (index / 1024) % 1024;
      var pageTableI := index % 1024;
      DirectoryIndex(virt);
      r := MapAt(pageDirI, pageTableI, phys, perm, index);
    }

    /** A call of `page_map` for a page that is not protected. */
    method MapUnprotected(virt: Word, phys: Word, perm: Word, ghost v: Page, ghost frame: Page) returns (r: Res<()>)
      requires pageDirectory != 0 && Inv() && virt == v * 4096 && phys == frame * 4096
      requires Mappable(View(), kernelPagingEnabled, v)
      modifies heap, cpu.ram
      ensures r == if old(Room(View(), v)) then Ok(()) else Halt(OutOfMemory)
      ensures r.Ok? ==> Inv() && View() == MapPage(old(View()), v, frame * 4096, perm)
      ensures r.Ok? && old(Tidy()) ==> Tidy()
    {
      PageAddress(v); PageAddress(frame);
      var _ :- PageMap(virt, phys, perm);
      return Ok(());
    }

    /** One more page of a range: `v`, which belongs to table `i`. */
    method MapNext(virt: Word, phys: Word, perm: Word,
                   ghost s: Space, ghost a: int, ghost v: Page, ghost next: int, ghost off: int, ghost i: int)
      returns (r: Res<()>)
      requires pageDirectory != 0 && Inv() && 0 <= off <= a <= v && virt == v * 4096 && phys == (v - off) * 4096
      requires next == v + 1 && i == v / 1024
      requires Progress(s, View(), a, v, off, perm) && Mappable(s, kernelPagingEnabled, v)
      modifies heap, cpu.ram
      ensures r == if old(Room(View(), v)) then Ok(()) else Halt(OutOfMemory)
      ensures r.Ok? ==> Inv() && NextMapped(s, old(View()), View(), a, next, off, perm, i)
      ensures r.Ok? && old(Tidy()) ==> Tidy()
    {
      ghost var s1 := View();
      ProgressMappable(s, s1, a, v, off, perm, kernelPagingEnabled);
      ghost var frame := v - off;
      var _ :- MapUnprotected(virt, phys, perm, v, frame);
      NextIsMapped(s, s1, View(), a, v, next, frame, off, perm, i);
      return Ok(());
    }

    /** One turn of the loop of `page_ident_map_range`. */
    method IdentNext(at: Word, perm: Word,
                     ghost s: Space, ghost a: Page, ghost v: Page, ghost next: Page, ghost b: Page)
      returns (r: Res<()>)
      requires pageDirectory != 0 && Inv() && a <= v < next <= b && next == v + 1 && at == v * 4096
      requires Walked(s, View(), a, v, b, perm) && Mappable(s, kernelPagingEnabled, v)
      modifies heap, cpu.ram
      ensures r.Halt? ==> r == Halt(OutOfMemory) && s.free + TablesNeeded(s, a, b) > s.heapHi
      ensures r.Ok? ==> Inv() && Walked(s, View(), a, next, b, perm)
    {
      ghost var s1, i := View(), v / 1024;
      WalkedRoom(s, s1, a, v, b, perm);
      var _ :- MapNext(at, at, perm, s, a, v, next, 0, i);
      WalkedStep(s, s1, View(), a, v, next, b, perm, i);
      return Ok(());
    }

    /** The loop of `page_ident_map_range`. */
    method IdentLoop(start: Word, last: Word, perm: Word, ghost a: Page, ghost b: Page) returns (r: Res<()>)
      requires pageDirectory != 0 && Inv() && start == a * 4096 && last == b * 4096 && a < b
      requires forall v: Page | a <= v < b :: Mappable(View(), kernelPagingEnabled, v)
      modifies heap, cpu.ram
      ensures r == if old(View().free) + TablesNeeded(old(View()), a, b) <= old(View().heapHi) then Ok(())
                   else Halt(OutOfMemory)
      ensures r.Ok? ==> Inv() && Progress(old(View()), View(), a, b, 0, perm)
    {
      ghost var s := View();
      ghost var v := a;
      WalkedStart(s, a, b, perm);
      var at := start;
      while at < last
        invariant a <= v <= b && at == v * 4096
        invariant Inv() && Walked(s, View(), a, v, b, perm)
      {
        PageAddress(v);
        ghost var next := v + 1;
        var _ :- IdentNext(at, perm, s, a, v, next, b);
        at := Add32(at, PAGE_SIZE);
        v := next;
      }
      WalkedEnd(s, View(), a, v, b, perm);
      return Ok(());
    }

    /** `page_ident_map_range`: maps onto itself exactly the pages that meet `[start, end)`, and halts for lack of
        memory exactly when there are fewer free heap pages than tables missing. An `end` in the last page of the
        address space is rounded up to zero, and then nothing is mapped. */
    method PageIdentMapRange(start: Word, end: Word, perm: Word) returns (r: Res<()>)
      requires pageDirectory != 0 ==>
                 && Inv()
                 && forall v: Page | start / 4096 <= v < PageAlignUp(end) / 4096 ::
                      Mappable(View(), kernelPagingEnabled, v)
      modifies heap, cpu.ram
      ensures start >= end ==> r == Halt(AssertionFailed)
      ensures start < end && end > PAGE_ALIGN ==>
                r == Ok(()) && (pageDirectory != 0 ==> Inv() && View() == old(View()))
      ensures start < end && end <= PAGE_ALIGN && (start % 4096 != 0 || pageDirectory == 0) ==>
                r == Halt(AssertionFailed)
      ensures start < end && end <= PAGE_ALIGN && start % 4096 == 0 && pageDirectory != 0 ==>
                var a, b := start / 4096, PageAlignUp(end) / 4096;
                && (r == if old(View().free) + TablesNeeded(old(View()), a, b) <= old(View().heapHi) then Ok(())
                         else Halt(OutOfMemory))
                && (r.Ok? ==> Inv() && Progress(old(View()), View(), a, b, 0, perm))
    {
      if !(start < end) {
        return Halt(AssertionFailed);
      }
      var last := PageAlignUp(end);
      RangeAddresses(start, end, last);
      if start >= last {
        return Ok(());
      }
      if start % 4096 != 0 || pageDirectory == 0 {
        var first := PageMap(start, start, perm);
        return Halt(first.why);
      }
      r := IdentLoop(start, last, perm, start / 4096, last / 4096);
    }

    /** The two allocations of `init_paging`. */
    method AllocPair() returns (r: Res<()>)
      requires Ready() && BASE_PAGE < View().heapLo <= View().free <= View().heapHi
      modifies `pageDirectory, `ptPhysToVirt, heap
      ensures r == if old(View().free) + 2 <= old(View().heapHi) then Ok(()) else Halt(OutOfMemory)
      ensures r.Ok? ==> Ready() && pageDirectory != 0 && Paired(old(View()), View()) && Tidy()
    {
      ghost var s := View();
      var dir :- AllocTable();
      PageAddress(s.free);
      pageDirectory := dir / 4096;
      var shadow :- AllocTable();
      PageAddress(s.free + 1);
      ptPhysToVirt := shadow / 4096;
      return Ok(());
    }

    /** `memset` of a heap page under the boot tables. */
    method ClearHeapPage(p: Page, ghost s: Space)
      requires cpu.Valid() && cpu.Mem() == s.mem && BootReady(s, cpu.cr3) && s.heapLo <= p < s.heapHi
      modifies cpu.ram
      ensures cpu.Mem() == Cleared(s.mem, p, 1024) && BootReady(s.(mem := cpu.Mem()), cpu.cr3)
    {
      forall n | 0 <= n <= 1024 ensures AtHome(Cleared(s.mem, p, n), cpu.cr3, p) {
        HeapClearReaches(s, cpu.cr3, p, n);
      }
      ClearReached(p, p);
      HeapClearReaches(s, cpu.cr3, p, 1024);
    }

    /** The two calls of `memset` in `init_paging`. */
    method ClearPair(ghost s: Space)
      requires cpu.Valid() && cpu.Mem() == s.mem && BootReady(s, cpu.cr3)
      requires s.heapLo <= pageDirectory < s.heapHi && s.heapLo <= ptPhysToVirt < s.heapHi
      modifies cpu.ram
      ensures cpu.Mem() == TwoCleared(s.mem, pageDirectory, ptPhysToVirt)
    {
      ClearHeapPage(pageDirectory, s);
      ClearHeapPage(ptPhysToVirt, s.(mem := cpu.Mem()));
    }

    /** The first part of `init_paging`: a cleared directory and a cleared shadow index. */
    method InitTables() returns (r: Res<()>)
      requires Ready() && !kernelPagingEnabled && BootReady(View(), cpu.cr3)
      modifies `pageDirectory, `ptPhysToVirt, heap, cpu.ram
      ensures r == if old(View().free) + 2 <= old(View().heapHi) then Ok(()) else Halt(OutOfMemory)
      ensures r.Ok? ==>
                && Inv() && pageDirectory != 0 && Emptied(old(View()), View()) && Tidy()
                && View().dir == old(View().free) && View().shadow == old(View().free) + 1
                && View().free == old(View().free) + 2
    {
      ghost var s := View();
      var _ :- AllocPair();
      ghost var s1 := View();
      ClearPair(s);
      TwoClearedEmpty(s, s1, View(), cpu.cr3);
      return Ok(());
    }

    /** One turn of a loop of `init_paging`. */
    method FillNext(virt: Word, phys: Word,
                    ghost s: Space, ghost a: int, ghost v: Page, ghost next: int, ghost off: int, ghost i: int)
      returns (r: Res<()>)
      requires pageDirectory != 0 && Inv() && !kernelPagingEnabled && Tidy()
      requires 0 <= off <= a <= v && next == v + 1 && i == v / 1024 && virt == v * 4096 && phys == (v - off) * 4096
      requires s.Table(i) == 0 && Filled(s, View(), a, v, off, i)
      modifies heap, cpu.ram
      ensures r.Halt? ==> r == Halt(OutOfMemory) && s.free >= s.heapHi
      ensures r.Ok? ==> Inv() && Filled(s, View(), a, next, off, i) && Tidy()
    {
      ghost var s1 := View();
      FilledRoom(s, s1, a, v, off, i);
      var _ :- MapNext(virt, phys, PAGE_ENTRY_RW, s, a, v, next, off, i);
      FilledStep(s, s1, View(), a, v, next, off, i);
      return Ok(());
    }

    /** The loop of `init_paging` over the first megabyte. */
    method MapFirstMegabyte() returns (r: Res<()>)
      requires pageDirectory != 0 && Inv() && !kernelPagingEnabled && View().Table(0) == 0
      requires Tidy()
      modifies heap, cpu.ram
      ensures r == if old(View().free) < old(View().heapHi) then Ok(()) else Halt(OutOfMemory)
      ensures r.Ok? ==> Inv() && Filled(old(View()), View(), 0, 256, 0, 0) && Tidy()
    {
      ghost var s := View();
      var addr: Word := 0;
      var i := 0;
      OneMegabyte();
      while i < PagesPerMb(1)
        invariant 0 <= i <= 256 && addr == i * 4096
        invariant Inv() && Filled(s, View(), 0, i, 0, 0) && Tidy()
      {
        var next := i + 1;
        LowSlot(i);
        PageAddress(i);
        var _ :- FillNext(addr, addr, s, 0, i, next, 0, 0);
        addr := Add32(addr, PAGE_SIZE);
        i := next;
      }
      assert i == 256;
      return Ok(());
    }

    /** The loop of `init_paging` over the kernel pages `[a, b)`, which are mapped 0xC0000000 above their frames. */
    method KernelLoop(start: Word, virtEnd: Word, ghost a: Page, ghost b: Page) returns (r: Res<()>)
      requires pageDirectory != 0 && Inv() && !kernelPagingEnabled && View().Table(768) == 0
      requires BASE_PAGE <= a < b <= BASE_PAGE + 1024 && start == a * 4096 && virtEnd == b * 4096
      requires Tidy()
      modifies heap, cpu.ram
      ensures r == if old(View().free) < old(View().heapHi) then Ok(()) else Halt(OutOfMemory)
      ensures r.Ok? ==> Inv() && Filled(old(View()), View(), a, b, BASE_PAGE, 768) && Tidy()
    {
      ghost var s := View();
      ghost var v := a;
      var virtStart := start;
      var addr := virtStart - KERNEL_BASE;
      while virtStart < virtEnd
        invariant a <= v <= b && virtStart == v * 4096 && addr == (v - BASE_PAGE) * 4096
        invariant Inv() && Filled(s, View(), a, v, BASE_PAGE, 768) && Tidy()
      {
        KernelSlot(v);
        ghost var next := v + 1;
        PageAddress(v); PageAddress(v - BASE_PAGE);
        var _ :- FillNext(virtStart, addr, s, a, v, next, BASE_PAGE, 768);
        virtStart := Add32(virtStart, PAGE_SIZE);
        addr := Add32(addr, PAGE_SIZE);
        v := next;
      }
      assert v == b;
      return Ok(());
    }

    /** The second loop of `init_paging`. */
    method MapKernelImage(l: Layout) returns (r: Res<()>)
      requires pageDirectory != 0 && Inv() && !kernelPagingEnabled && View().Table(768) == 0
      requires l.Linked() && l.OneTable() && Tidy()
      modifies heap, cpu.ram
      ensures r == if old(View().free) < old(View().heapHi) then Ok(()) else Halt(OutOfMemory)
      ensures r.Ok? ==>
                && Inv() && Filled(old(View()), View(), l.FirstPage(), l.EndPage(), BASE_PAGE, 768)
                && Tidy()
    {
      KernelRange(l);
      r := KernelLoop(l.kernelStart, PageAlignUp(l.kernelEnd), l.FirstPage(), l.EndPage());
    }

    /** The allocations and the two mapping loops of `init_paging`. */
    method BuildTables(l: Layout) returns (r: Res<()>)
      requires Ready() && !kernelPagingEnabled && l.Linked() && l.OneTable()
      requires heap.initialBase == l.heapStart && heap.maxBase == l.heapEnd
      requires BootReady(View(), cpu.cr3)
      modifies `pageDirectory, `ptPhysToVirt, heap, cpu.ram
      ensures r == if old(View().free) + 4 <= old(View().heapHi) then Ok(()) else Halt(OutOfMemory)
      ensures r.Ok? ==> Inv() && pageDirectory != 0 && SameHeap(old(View()), View())
      ensures r.Ok? ==> forall u: Page :: View().Map(u) == KernelMap(l, u)
      ensures r.Ok? ==> Tidy() && Built(old(View()), View())
    {
      var _ :- InitTables();
      ghost var s0 := View();
      var _ :- MapFirstMegabyte();
      ghost var s1 := View();
      KernelRange(l);
      var _ :- MapKernelImage(l);
      forall u: Page ensures View().Map(u) == KernelMap(l, u) {
        InitMaps(l, s0, s1, View(), u);
      }
      TwoTablesMade(s0, s1, View());
      return Ok(());
    }

    /** The end of `init_paging`: load CR3 with the physical address of the directory. */
    method SwitchDirectory(l: Layout)
      requires Inv() && !kernelPagingEnabled && l.Linked() && l.OneTable()
      requires View().heapLo == l.heapStart / 4096 && View().heapHi == l.heapEnd / 4096
      requires forall u: Page :: View().Map(u) == KernelMap(l, u)
      modifies cpu, `kernelPagingEnabled
      ensures Inv() && kernelPagingEnabled && View() == old(View())
      ensures forall u: Page :: Walk(cpu.Mem(), cpu.cr3, u) == KernelMap(l, u)
    {
      ghost var s := View();
      PageAddress(pageDirectory);
      var phys := VirtToPhys(pageDirectory * 4096);
      DirectoryTranslates(s, cpu.cr3);
      KernelRange(l);
      forall v: Page | s.heapLo <= v < s.heapHi ensures AtHome(s.mem, Home(s.dir), v) {
        assert s.Map(v) == KernelMap(l, v);
      }
      Switch(s, cpu.cr3);
      PageAddress(Home(s.dir));
      cpu.cr3 := phys.value / 4096;
      kernelPagingEnabled := true;
      assert View() == s;
    }

    /** `init_paging`: needs exactly four free heap pages. When it ends, the machine runs on the new
        directory, which maps the first megabyte and the kernel exactly as the boot tables did. */
    method InitPaging(l: Layout) returns (r: Res<()>)
      requires Ready() && !kernelPagingEnabled && l.Linked() && l.OneTable()
      requires heap.initialBase == l.heapStart && heap.maxBase == l.heapEnd
      requires Booted(cpu.Mem(), cpu.cr3, l)
      modifies this, heap, cpu, cpu.ram
      ensures r == if old(View().free) + 4 <= old(View().heapHi) then Ok(()) else Halt(OutOfMemory)
      ensures r.Ok? ==>
                && Inv() && kernelPagingEnabled && pageDirectory != 0
                && (forall u: Page :: Walk(cpu.Mem(), cpu.cr3, u) == KernelMap(l, u))
      ensures r.Ok? ==>
                forall u: Page :: Walk(cpu.Mem(), cpu.cr3, u).Some? ==>
                                    Walk(cpu.Mem(), cpu.cr3, u) == Walk(old(cpu.Mem()), old(cpu.cr3), u)
      ensures r.Ok? ==>
                && heap.initialized && heap.initialBase == l.heapStart && heap.maxBase == l.heapEnd
                && heap.currentBase == (old(View().free) + 4) * 4096
      ensures r.Ok? ==> Built(old(View()), View())
    {
      BootedReady(View(), cpu.cr3, l);
      forall u: Page ensures KernelMap(l, u).Some? ==> KernelMap(l, u) == Walk(cpu.Mem(), cpu.cr3, u) {
        BootedWalk(cpu.Mem(), cpu.cr3, l, u);
        if KernelMap(l, u).Some? { KernelMapIsBootMap(l, u); }
      }
      var _ :- BuildTables(l);
      SwitchDirectory(l);
      return Ok(());
    }

    /** One operation of a kernel client, as `kmain` uses them after `init_paging`. */
    method Perform(op: Op) returns (r: Res<Word>)
      requires Inv() && kernelPagingEnabled && pageDirectory != 0 && Permitted(Config(), op)
      modifies heap, cpu.ram
      ensures old(Config()).Valid()
      ensures match Step(old(Config()), op)
              case Halt(why) => r == Halt(why)
              case Ok(c) => r.Ok? && Inv() && Config() == c
    {
      match op {
        case Map(virt, phys, perm) =>
          r := PageMap(virt, phys, perm);
        case Grab(request) =>
          ghost var c := Config();
          if Serve(c.heap, request).Ok? { GrabValid(c, request); }
          match request {
            case Plain(size) => r := heap.Alloc(size);
            case PageAligned(size) => r := heap.AllocAligned(size);
          }
          assert r.Ok? ==> Config() == Step(c, op).value;
      }
    }

    /** A run of client operations. It stops at the first one that finds the heap full, after `n` of them, in the state
        `last`. If none does, the tables are what every run leaves: the two walks agree on every page and each page
        is mapped as the calls that named it say. */
    method PerformAll(ops: seq<Op>) returns (n: nat, r: Res<()>, ghost last: PagingTheorems.Config)
      requires Inv() && kernelPagingEnabled && pageDirectory != 0 && Config().Valid() && Orderly(Config(), ops)
      modifies heap, cpu.ram
      ensures old(Config()).Valid() && last.Valid() && n <= |ops| && Reaches(old(Config()), ops[..n], last)
      ensures r.Halt? ==> n < |ops| && r.why == OutOfMemory && Step(last, ops[n]) == Halt(OutOfMemory)
      ensures r.Ok? ==> n == |ops| && Inv() && Config() == last && RunResult(old(Config()), ops, last)
    {
      ghost var c := Config();
      last := c;
      n := 0;
      while n < |ops|
        invariant n <= |ops| && Inv() && Config() == last && last.Valid() && Reaches(c, ops[..n], last)
      {
        assert Permitted(last, ops[n]);
        StepValid(last, ops[n]);
        var done := Perform(ops[n]);
        if done.Halt? {
          return n, Halt(done.why), last;
        }
        ReachesNext(c, ops, n, last);
        last := Config();
        n := n + 1;
      }
      assert ops[..n] == ops;
      RunIsRight(c, ops, last);
      return n, Ok(()), last;
    }

    /** Take a page of the heap for `size` bytes and map it to the frame of `phys`. */
    method TakeAndMap(size: Word, phys: Word) returns (r: Res<Word>)
      requires Inv() && kernelPagingEnabled && pageDirectory != 0 && Config().Valid()
      requires 0 < size <= PAGE_SIZE && View().free < View().heapHi
      modifies heap, cpu.ram
      ensures phys % 4096 != 0 ==> r == Halt(AssertionFailed)
      ensures phys % 4096 == 0 ==>
                && r.Ok? && r.value == old(View().free) * 4096 && Inv()
                && old(View()).Table(old(View().free) / 1024) != 0
                && old(Config()).Valid() && Config() == GrabMapped(old(Config()), size, phys) && Config().Valid()
    {
      ghost var c := Config();
      GrabbedIsStep(c, size);
      GrabFirstFree(c, size);
      var taken := heap.AllocAligned(size);
      assert Config() == Grabbed(c, size);
      if phys % 4096 == 0 { MapTaken(c, size, phys); }
      var entry := PageMap(taken.value, phys, PAGE_ENTRY_RW);
      if entry.Halt? {
        return Halt(entry.why);
      }
      return taken;
    }

    /** Map the list of modules. */
    method MapListPage(ghost l: Layout, modsAddr: Word) returns (r: Res<Word>)
      requires Inv() && kernelPagingEnabled && pageDirectory != 0 && Config().Valid()
      requires l.Linked() && Initial(Config(), l)
      modifies heap, cpu.ram
      ensures modsAddr % 4096 != 0 ==> r == Halt(AssertionFailed)
      ensures modsAddr % 4096 == 0 ==>
                && r.Ok? && r.value == ListPage(l) * 4096
                && Inv() && ListReady(old(Config()), Config(), l, modsAddr)
    {
      ghost var c := Config();
      InitialHeap(c, l);
      r := TakeAndMap(MODULE_ENTRY, modsAddr);
      if r.Ok? { ListIsReady(c, Config(), l, modsAddr); }
    }

    /** The first word of the list of modules. */
    method ReadStart(ghost c: PagingTheorems.Config, ghost l: Layout, ghost modsAddr: Word, newLocation: Word)
      returns (r: Res<Word>)
      requires Inv() && kernelPagingEnabled && ListReady(c, Config(), l, modsAddr) && newLocation == ListPage(l) * 4096
      ensures r == Ok(cpu.Mem()[At(modsAddr / 4096, 0)])
    {
      PageAddress(ListPage(l));
      r := cpu.Load(newLocation / 4096, 0);
    }

    /** Map the module. */
    method MapStart(ghost l: Layout, ghost modsAddr: Word, modStart: Word) returns (r: Res<Word>)
      requires Inv() && kernelPagingEnabled && pageDirectory != 0 && Listed(Config(), l, modsAddr)
      modifies heap, cpu.ram
      ensures modStart % 4096 != 0 ==> r == Halt(AssertionFailed)
      ensures modStart % 4096 == 0 ==>
                && r.Ok? && r.value == l.heapStart + 0x5000
                && Inv() && Loaded(Config(), l, modsAddr, modStart)
    {
      ghost var c := Config();
      ModulePageMapped(l);
      r := TakeAndMap(UINT32_SIZE, modStart);
      if r.Ok? { ModuleIsMapped(c, l, modsAddr, modStart); }
    }

    /** `kmain` after `init_paging`: it maps the list of modules, reads where the first module starts, and maps that.
        Both must be page aligned. Then the two heap pages are mapped there, and every other page as before. */
    method MapModule(ghost l: Layout, modsAddr: Word) returns (r: Res<Word>, ghost modStart: Word)
      requires Inv() && kernelPagingEnabled && pageDirectory != 0 && Config().Valid()
      requires l.Linked() && Initial(Config(), l)
      modifies heap, cpu.ram
      ensures modsAddr % 4096 != 0 || modStart % 4096 != 0 ==> r == Halt(AssertionFailed)
      ensures modsAddr % 4096 == 0 && !old(View()).InHeap(modsAddr / 4096) ==>
                modStart == old(cpu.Mem())[At(modsAddr / 4096, 0)]
      ensures modsAddr % 4096 == 0 && modStart % 4096 == 0 ==>
                && r.Ok? && r.value == l.heapStart + 0x5000
                && Inv() && Loaded(Config(), l, modsAddr, modStart)
    {
      ghost var c := Config();
      modStart := 0;
      var newLocation :- MapListPage(l, modsAddr);
      var start := ReadStart(c, l, modsAddr, newLocation);
      modStart := start.value;
      r := MapStart(l, modsAddr, start.value);
    }
  }

  /** boot.asm and the start of `kmain`: for every layout the linker accepts whose kernel fits one table,
      paging comes up, without a halt, with the kernel where the linker put it. */
  method BringUp(cpu: Cpu, l: Layout) returns (k: Kernel, r: Res<()>)
    requires cpu.Valid() && l.Linked() && l.OneTable()
    modifies cpu, cpu.ram
    ensures fresh(k) && fresh(k.heap) && k.cpu == cpu
    ensures r == Ok(()) && k.Inv() && k.kernelPagingEnabled && k.pageDirectory != 0
    ensures forall u: Page :: Walk(cpu.Mem(), cpu.cr3, u) == KernelMap(l, u)
    ensures k.Config().Valid() && Initial(k.Config(), l)
  {
    Start(cpu, l);
    var heap := new Allocator();
    var ok := heap.Init(l.heapStart, l.heapEnd);
    k := new Kernel(cpu, heap);
    assert PageAlignUp(l.heapStart) / 4096 + 256 == l.heapEnd / 4096;
    r := k.InitPaging(l);
  }

  /** From power on to the end of a run: each page is translated as the calls that named it say, and as `init_paging`
      left it where none did. The run must be orderly from every state that `init_paging` may leave. */
  method BootAndRun(cpu: Cpu, l: Layout, ops: seq<Op>) returns (r: Res<()>)
    requires cpu.Valid() && l.Linked() && l.OneTable()
    requires forall c: Config | c.Valid() && Initial(c, l) :: Orderly(c, ops)
    modifies cpu, cpu.ram
    ensures r.Halt? ==> r.why == OutOfMemory
    ensures r.Ok? ==> forall u: Page :: Walk(cpu.Mem(), cpu.cr3, u) == Simple(KernelMap(l, u), ops, u)
  {
    var k, up := BringUp(cpu, l);
    ghost var c := k.Config();
    var n, done, last := k.PerformAll(ops);
    r := done;
    if r.Ok? {
      forall u: Page ensures Walk(cpu.Mem(), cpu.cr3, u) == Simple(KernelMap(l, u), ops, u) {
        assert last.tables.Map(u) == Simple(c.tables.Map(u), ops, u);
      }
    }
  }

  /** From power on to the module: `kmain` never halts for lack of memory, and maps exactly the list of modules and the
      module on top of what `init_paging` mapped. */
  method BootAndLoad(cpu: Cpu, l: Layout, modsAddr: Word) returns (r: Res<Word>, ghost modStart: Word)
    requires cpu.Valid() && l.Linked() && l.OneTable()
    modifies cpu, cpu.ram
    ensures modsAddr % 4096 != 0 || modStart % 4096 != 0 ==> r == Halt(AssertionFailed)
    ensures modsAddr % 4096 == 0 && modStart % 4096 == 0 ==>
              && r.Ok? && r.value == l.heapStart + 0x5000
              && forall u: Page :: Walk(cpu.Mem(), cpu.cr3, u) == ModuleMap(l, modsAddr, modStart, u)
  {
    var k, up := BringUp(cpu, l);
    r, modStart := k.MapModule(l, modsAddr);
    if modsAddr % 4096 == 0 && modStart % 4096 == 0 {
      ghost var s := k.View();
      assert s.mem == cpu.Mem() && cpu.cr3 == Home(s.dir);
      assert forall u: Page :: s.Map(u) == ModuleMap(l, modsAddr, modStart, u);
    }
  }
}
