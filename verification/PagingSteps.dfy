/** Why every access of the pager reaches the page it is meant for: the facts its methods rest on. */
module PagingSteps {
  import opened Words
  import opened Bits
  import opened PageWalk
  import opened Paging
  import opened PagingCode

  /** Addresses of whole pages. */
  lemma PageAddress(v: Page)
    ensures v * 4096 % 4096 == 0 && v * 4096 / 4096 == v
    ensures v < 0xf_ffff ==> Add32(v * 4096, PAGE_SIZE) == (v + 1) * 4096
  {
  }

  /** A range of addresses as a range of pages. */
  lemma RangeAddresses(start: Word, end: Word, last: Word)
    requires start < end && last == PageAlignUp(end)
    ensures start >= last <==> end > PAGE_ALIGN
    ensures last == last / 4096 * 4096
    ensures start % 4096 == 0 && start < last ==> start == start / 4096 * 4096 && start / 4096 < last / 4096
  {
  }

  /** The `% 1024` on the directory index changes nothing. */
  lemma DirectoryIndex(virt: Word)
    ensures (virt / PAGE_SIZE / 1024) % 1024 == virt / 4096 / 1024
  {
    assert 0 <= virt / 4096 / 1024 < 1024;
  }

  lemma DirectoryReaches(s: Space, root: Page, enabled: bool, i: int)
    requires Sound(s, root, enabled) && 0 <= i < 1024
    ensures LoadAt(s.mem, root, s.dir, i) == Ok(s.Pde(i))
    ensures s.Pde(i) % 2 == 1 <==> s.Table(i) != 0
  {
    assert s.Protected(s.dir);
    assert s.Slot(i);
  }

  /** Every store of the clearing loop reaches the page. */
  predicate ClearReaches(m: Memory, root: Page, table: Page) {
    forall n | 0 <= n <= 1024 :: AtHome(Cleared(m, table, n), root, table)
  }

  /** Then the loop clears the frame of the page. */
  lemma {:induction false} ClearCodeReaches(m: Memory, root: Page, table: Page, n: nat)
    requires n <= 1024 && ClearReaches(m, root, table)
    ensures ClearCode(m, root, table, n) == Ok(Cleared(m, table, n))
    decreases n
  {
    if n > 0 {
      ClearCodeReaches(m, root, table, n - 1);
      assert AtHome(Cleared(m, table, n - 1), root, table);
    }
  }

  /** Every access needed to fill and enter a table reaches its page. */
  predicate FillReaches(m: Memory, root: Page, enabled: bool, dir: Page, shadow: Page, table: Page, i: int)
    requires 0 <= i < 1024
  {
    var cleared := Cleared(m, table, 1024);
    && ClearReaches(m, root, table)
    && SoftWalk(cleared, root, enabled, dir, shadow, table) == Ok(Home(table) * 4096)
    && AtHome(cleared, root, dir)
    && AtHome(cleared[At(Home(dir), i) := Home(table) * 4096 + 3], root, shadow)
  }

  /** The first free page is mapped home. */
  lemma FreshTable(s: Space, root: Page, enabled: bool)
    requires Sound(s, root, enabled) && s.free < s.heapHi
    ensures AtHome(s.mem, root, s.free)
    ensures s.Detached(root) || root == Home(s.dir)
  {
    assert s.Protected(s.free);
  }

  lemma ClearedSlots(s: Space, k: int)
    requires s.Linked() && s.free < s.heapHi && 0 <= k < 1024
    ensures var s1 := s.(mem := Cleared(s.mem, s.free, 1024)); s1.Table(k) == s.Table(k) && s1.Pde(k) == s.Pde(k)
  {
    ClearedWords(s.mem, s.free, 1024, Home(s.shadow), k);
    ClearedWords(s.mem, s.free, 1024, Home(s.dir), k);
  }

  lemma ClearedLinked(s: Space)
    requires s.Linked() && s.free < s.heapHi
    ensures s.(mem := Cleared(s.mem, s.free, 1024)).Linked()
  {
    var s1 := s.(mem := Cleared(s.mem, s.free, 1024));
    forall k | 0 <= k < 1024 ensures s1.Slot(k) && s1.Table(k) == s.Table(k) {
      ClearedSlots(s, k);
      assert s.Slot(k);
    }
  }

  lemma ClearedProtected(s: Space, v: Page)
    requires s.Linked() && s.free < s.heapHi
    ensures s.(mem := Cleared(s.mem, s.free, 1024)).Protected(v) == s.Protected(v)
  {
    var s1 := s.(mem := Cleared(s.mem, s.free, 1024));
    forall k | 0 <= k < 1024 ensures s1.Table(k) == s.Table(k) {
      ClearedSlots(s, k);
    }
  }

  lemma ClearedDetached(s: Space, root: Page)
    requires s.Linked() && s.free < s.heapHi && s.Detached(root) && SelfMapped(s.mem, root)
    ensures var s1 := s.(mem := Cleared(s.mem, s.free, 1024)); s1.Detached(root) && SelfMapped(s1.mem, root)
  {
    var m := Cleared(s.mem, s.free, 1024);
    forall k | 0 <= k < 1024 ensures m[At(root, k)] == s.mem[At(root, k)] {
      ClearedWords(s.mem, s.free, 1024, root, k);
    }
    forall v: Page ensures Walk(m, root, v) == Walk(s.mem, root, v) {
      ClearedWalk(s, root, 1024, v);
    }
    assert IdentityAt(m, root, root);
    forall k | 0 <= k < 1024 && m[At(root, k)] % 2 == 1 ensures IdentityAt(m, root, m[At(root, k)] / 4096) {
      assert IdentityAt(s.mem, root, s.mem[At(root, k)] / 4096);
    }
  }

  /** Clearing the fresh page keeps every ingredient of the agreement between the two walks. */
  lemma ClearedTranslates(s: Space, root: Page, enabled: bool)
    requires Sound(s, root, enabled) && s.free < s.heapHi
    ensures SoftWalk(Cleared(s.mem, s.free, 1024), root, enabled, s.dir, s.shadow, s.free) == Ok(Home(s.free) * 4096)
  {
    var s1 := s.(mem := Cleared(s.mem, s.free, 1024));
    ClearedLinked(s);
    FreshTable(s, root, enabled);
    forall v: Page | s1.Protected(v) ensures AtHome(s1.mem, root, v) {
      ClearedProtected(s, v);
      ClearedWalk(s, root, 1024, v);
      assert AtHome(s.mem, root, v);
    }
    if !enabled { ClearedDetached(s, root); }
    SoftWalkAgrees(s1, root, enabled, s.free);
    assert s1.Protected(s.free);
  }

  /** The store that enters the table reaches the directory. */
  lemma DirectoryStore(s: Space, root: Page, enabled: bool)
    requires Sound(s, root, enabled) && s.free < s.heapHi
    ensures AtHome(Cleared(s.mem, s.free, 1024), root, s.dir)
  {
    assert s.Protected(s.dir);
    assert AtHome(s.mem, root, s.dir);
    ClearedWalk(s, root, 1024, s.dir);
  }

  /** The next store reaches the shadow index: it is mapped by another table than the new one. */
  lemma ShadowStore(s: Space, root: Page, enabled: bool, i: int)
    requires Sound(s, root, enabled) && s.free < s.heapHi && 0 <= i < 1024 && s.Table(i) == 0
    ensures AtHome(Cleared(s.mem, s.free, 1024)[At(Home(s.dir), i) := Home(s.free) * 4096 + 3], root, s.shadow)
  {
    assert s.Protected(s.shadow);
    assert AtHome(s.mem, root, s.shadow);
    if enabled { MapByTables(s, s.shadow); }
    EnteredWalk(s, root, i, Home(s.free) * 4096 + 3, s.shadow);
  }

  lemma NewTableReaches(s: Space, root: Page, enabled: bool, i: int)
    requires Sound(s, root, enabled) && s.free < s.heapHi && 0 <= i < 1024 && s.Table(i) == 0
    ensures FillReaches(s.mem, root, enabled, s.dir, s.shadow, s.free, i)
  {
    FreshTable(s, root, enabled);
    forall n | 0 <= n <= 1024 ensures AtHome(Cleared(s.mem, s.free, n), root, s.free) {
      ClearedWalk(s, root, n, s.free);
    }
    ClearedTranslates(s, root, enabled);
    DirectoryStore(s, root, enabled);
    ShadowStore(s, root, enabled, i);
  }

  lemma PresentReadWrite(d: Word)
    requires d % 4096 == 0
    ensures Or32(Or32(d, PAGE_ENTRY_PRESENT), PAGE_ENTRY_RW) == d + 3
  {
    var e := Or32(d, 1);
    assert e / 4096 == d / 4096 && e % 4096 == 1;
    assert Or(1, 2) == 3;
    var f := Or32(e, 2);
    assert f / 4096 == d / 4096 && f % 4096 == 3;
  }
}
