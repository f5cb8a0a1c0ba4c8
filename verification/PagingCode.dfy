/** `page_map` edit by edit. `page_map_pte` reads and writes its entry four times, each time through the translation
    that is active at that moment, which the entry itself may be part of. */
module PagingCode {
  import opened Words
  import opened Bits
  import opened PageWalk
  import opened Paging

  /** What one statement of `page_map_pte` does to the entry: `&= ~PAGE_ALIGN`, or `|= bits`. */
  datatype Edit = KeepFlags | Join(bits: Word)

  function Edited(w: Word, e: Edit): Word {
    match e
    case KeepFlags => PageOffset(w)
    case Join(bits) => Or32(w, bits)
  }

  function Write(m: Memory, k: int, w: Word): Memory
    requires 0 <= k < 0x4000_0000
  {
    m[k := w]
  }

  /** One edit of entry `j` of the table at virtual page `table`. */
  function EditAt(m: Memory, root: Page, table: Page, j: int, e: Edit): Res<Memory>
    requires 0 <= j < 1024
  {
    match Walk(m, root, table)
    case None => Halt(PageFault)
    case Some(t) => Ok(Write(m, At(t.frame, j), Edited(m[At(t.frame, j)], e)))
  }

  /** `page_map_pte`. */
  function PteCode(m: Memory, root: Page, table: Page, j: int, phys: Word, perm: Word): Res<Memory>
    requires 0 <= j < 1024
  {
    var m1 :- EditAt(m, root, table, j, KeepFlags);
    var m2 :- EditAt(m1, root, table, j, Join(phys));
    var m3 :- EditAt(m2, root, table, j, Join(perm));
    EditAt(m3, root, table, j, Join(PAGE_ENTRY_PRESENT))
  }

  /** `page_map` after its assertions: make a table if there is none, then edit the entry. */
  function MapPageCode(s: Space, root: Page, v: Page, phys: Word, perm: Word): Res<Space>
    requires s.Bounds() && Room(s, v)
  {
    var s1 := WithTable(s, v);
    var m :- PteCode(s1.mem, root, s1.Table(v / 1024) / 4096, v % 1024, phys, perm);
    Ok(s1.(mem := m))
  }

  /** The first `n` stores of clearing the page at `p`. */
  function ClearCode(m: Memory, root: Page, p: Page, n: nat): Res<Memory>
    requires n <= 1024
    decreases n, p
  {
    if n == 0 then Ok(m)
    else
      var m1 :- ClearCode(m, root, p, n - 1);
      match Walk(m1, root, p)
      case None => Halt(PageFault)
      case Some(t) => Ok(Write(m1, At(t.frame, n - 1), 0))
  }

  lemma {:induction false} ClearStep(m: Memory, m1: Memory, root: Page, p: Page, n: nat, next: nat)
    requires n < next <= 1024 && next == n + 1 && ClearCode(m, root, p, n) == Ok(m1)
    ensures ClearCode(m, root, p, next) ==
            match Walk(m1, root, p)
            case None => Halt(PageFault)
            case Some(t) => Ok(Write(m1, At(t.frame, n), 0))
  {
  }

  /** A halt is final. */
  lemma {:induction false} ClearHalts(m: Memory, root: Page, p: Page, k: nat, n: nat)
    requires k <= n <= 1024 && ClearCode(m, root, p, k).Halt?
    ensures ClearCode(m, root, p, n) == ClearCode(m, root, p, k)
    decreases n
  {
    if k < n { ClearHalts(m, root, p, k, n - 1); }
  }

  /** The virtual address of the entry for page `v`. */
  function PteAddress(s: Space, v: Page): int {
    s.Table(v / 1024) + 4 * (v % 1024)
  }

  // ---------------------------------------------------------------------------
  // The edits reach one entry
  // ---------------------------------------------------------------------------

  /** Whatever is written to entry `j` of `table`, the table itself stays mapped home. */
  ghost predicate StaysHome(m: Memory, root: Page, table: Page, j: int)
    requires 0 <= j < 1024
  {
    forall w: Word :: AtHome(Write(m, At(Home(table), j), w), root, table)
  }

  lemma EditHome(m: Memory, root: Page, table: Page, j: int, w: Word, e: Edit)
    requires 0 <= j < 1024 && StaysHome(m, root, table, j)
    ensures var k := At(Home(table), j);
            EditAt(Write(m, k, w), root, table, j, e) == Ok(Write(m, k, Edited(w, e)))
  {
    var k := At(Home(table), j);
    assert AtHome(Write(m, k, w), root, table);
    assert Write(Write(m, k, w), k, Edited(w, e)) == Write(m, k, Edited(w, e));
  }

  /** Then the four edits are one write. */
  lemma PteCodeHome(m: Memory, root: Page, table: Page, j: int, phys: Word, perm: Word)
    requires 0 <= j < 1024 && StaysHome(m, root, table, j)
    ensures var k := At(Home(table), j);
            PteCode(m, root, table, j, phys, perm) == Ok(Write(m, k, PteWord(m[k], phys, perm)))
  {
    var k := At(Home(table), j);
    var w0 := m[k];
    assert Write(m, k, w0) == m;
    var w1 := PageOffset(w0);
    var w2 := Or32(w1, phys);
    var w3 := Or32(w2, perm);
    EditHome(m, root, table, j, w0, KeepFlags);
    EditHome(m, root, table, j, w1, Join(phys));
    EditHome(m, root, table, j, w2, Join(perm));
    EditHome(m, root, table, j, w3, Join(PAGE_ENTRY_PRESENT));
  }

  /** The entry of `v` is edited where it should be, unless the table that holds it is page `v`. */
  lemma EntryReaches(s: Space, root: Page, enabled: bool, v: Page)
    requires Sound(s, root, enabled) && s.Table(v / 1024) != 0
    ensures LoadAt(s.mem, root, s.shadow, v / 1024) == Ok(s.Table(v / 1024))
    ensures s.Table(v / 1024) / 4096 != 0 && s.Table(v / 1024) <= 0xffff_f000
    ensures !enabled || !OwnTable(s, v) ==> StaysHome(s.mem, root, s.Table(v / 1024) / 4096, v % 1024)
  {
    assert s.Protected(s.shadow);
    assert s.Slot(v / 1024);
    var t := s.Table(v / 1024) / 4096;
    TableAtHome(s, root, v / 1024);
    if !enabled || !OwnTable(s, v) {
      forall w: Word ensures AtHome(Write(s.mem, At(Home(t), v % 1024), w), root, t) {
        SetEntryWalk(s, root, v / 1024, v % 1024, w, t);
      }
    }
  }

  // ---------------------------------------------------------------------------
  // The page of the table that is edited
  // ---------------------------------------------------------------------------

  /** Frame 0 holds no table: a write there changes no translation. */
  lemma WriteFrameZero(s: Space, j: int, w: Word, u: Page)
    requires s.Linked() && 0 <= j < 1024
    ensures s.(mem := Write(s.mem, At(0, j), w)).Map(u) == s.Map(u)
  {
    assert s.Slot(u / 1024);
  }

  lemma WriteFrameZeroLinked(s: Space, j: int, w: Word)
    requires s.Linked() && 0 <= j < 1024
    ensures var s' := s.(mem := Write(s.mem, At(0, j), w));
            s'.Linked() && forall k | 0 <= k < 1024 :: s'.Table(k) == s.Table(k)
  {
    var s' := s.(mem := Write(s.mem, At(0, j), w));
    forall k | 0 <= k < 1024 ensures s'.Table(k) == s.Table(k) && s'.Slot(k) {
      assert s.Slot(k);
    }
  }

  /** `s'` has the tables of `s`, and page `v` is mapped to frame 0. */
  ghost predicate Astray(s: Space, s': Space, v: Page) {
    && s' == s.(mem := s'.mem) && s'.Linked() && (forall k | 0 <= k < 1024 :: s'.Table(k) == s.Table(k))
    && s'.Map(v).Some? && s'.Map(v).value.frame == 0
  }

  /** Once a table's own page is mapped to frame 0, further edits land in frame 0. */
  lemma EditAstray(s: Space, s': Space, v: Page, j: int, e: Edit)
    requires Astray(s, s', v) && 0 <= j < 1024
    ensures var r := EditAt(s'.mem, Home(s.dir), v, j, e); r.Ok? && Astray(s, s.(mem := r.value), v)
  {
    var w := Edited(s'.mem[At(0, j)], e);
    WriteFrameZeroLinked(s', j, w);
    WriteFrameZero(s', j, w, v);
  }

  lemma ClearedEntry(p: Word)
    requires p % 2 == 1
    ensures Entry(PageOffset(p)).Some? && Entry(PageOffset(p)).value.frame == 0
  {
  }

  /** The first edit of the entry that maps its own table clears the frame of that very page. */
  lemma FirstEditAstray(s: Space, v: Page)
    requires Sound(s, Home(s.dir), true) && OwnTable(s, v)
    ensures var r := EditAt(s.mem, Home(s.dir), v, v % 1024, KeepFlags); r.Ok? && Astray(s, s.(mem := r.value), v)
  {
    var i, j := v / 1024, v % 1024;
    var p := s.Pte(s.Table(i), j);
    TableAtHome(s, Home(s.dir), i);
    MapByTables(s, v);
    SetEntryLinked(s, i, j, PageOffset(p));
    SetEntryMap(s, i, j, PageOffset(p), v);
    assert i * 1024 + j == v;
    ClearedEntry(p);
    forall k | 0 <= k < 1024 ensures SetEntry(s, i, j, PageOffset(p)).Table(k) == s.Table(k) {
      SetEntryKeepsSlots(s, i, j, PageOffset(p), k);
    }
  }

  /** So `page_map_pte` does not fail, and leaves its page lost. */
  lemma PteCodeAstray(s: Space, v: Page, phys: Word, perm: Word)
    requires Sound(s, Home(s.dir), true) && OwnTable(s, v)
    ensures var r := PteCode(s.mem, Home(s.dir), v, v % 1024, phys, perm);
            r.Ok? && Astray(s, s.(mem := r.value), v)
  {
    var root, j := Home(s.dir), v % 1024;
    FirstEditAstray(s, v);
    var m1 := EditAt(s.mem, root, v, j, KeepFlags).value;
    EditAstray(s, s.(mem := m1), v, j, Join(phys));
    var m2 := EditAt(m1, root, v, j, Join(phys)).value;
    EditAstray(s, s.(mem := m2), v, j, Join(perm));
    var m3 := EditAt(m2, root, v, j, Join(perm)).value;
    EditAstray(s, s.(mem := m3), v, j, Join(PAGE_ENTRY_PRESENT));
  }

  lemma AstrayNotSound(s: Space, s': Space, v: Page)
    requires s.Linked() && OwnTable(s, v) && Astray(s, s', v)
    ensures !Sound(s', Home(s.dir), true)
  {
    assert s.Slot(v / 1024);
    assert s'.Table(v / 1024) / 4096 == v;
    assert s'.Protected(v) && !AtHome(s'.mem, Home(s.dir), v);
  }

  // ---------------------------------------------------------------------------
  // When page_map keeps the invariant
  // ---------------------------------------------------------------------------

  /** A fresh table never maps its own page: that page is mapped already, by another. */
  lemma OwnTableKept(s: Space, v: Page)
    requires Sound(s, Home(s.dir), true) && Room(s, v) && !OwnTable(s, v)
    ensures !OwnTable(WithTable(s, v), v)
  {
    if s.Table(v / 1024) == 0 {
      LinkSlots(s, v / 1024, v / 1024);
      if v == s.free {
        assert s.Protected(v);
        ProtectedHasTable(s, v);
      }
    }
  }

  /** Unless the page is that of the table being edited, `page_map` installs its mapping and nothing else. */
  lemma MapPageCodeExact(s: Space, root: Page, enabled: bool, v: Page, phys: Word, perm: Word)
    requires Sound(s, root, enabled) && Room(s, v) && !(enabled && OwnTable(s, v))
    ensures MapPageCode(s, root, v, phys, perm) == Ok(MapPage(s, v, phys, perm))
  {
    WithTableSound(s, root, enabled, v);
    if enabled { OwnTableKept(s, v); }
    var s1 := WithTable(s, v);
    EntryReaches(s1, root, enabled, v);
    PteCodeHome(s1.mem, root, s1.Table(v / 1024) / 4096, v % 1024, phys, perm);
  }

  /** For the page of the table being edited, the invariant is gone. */
  lemma MapPageCodeAstray(s: Space, v: Page, phys: Word, perm: Word)
    requires Sound(s, Home(s.dir), true) && OwnTable(s, v)
    ensures var r := MapPageCode(s, Home(s.dir), v, phys, perm);
            r.Ok? && Astray(s, r.value, v) && !Sound(r.value, Home(s.dir), true)
  {
    PteCodeAstray(s, v, phys, perm);
    var s' := s.(mem := PteCode(s.mem, Home(s.dir), v, v % 1024, phys, perm).value);
    assert MapPageCode(s, Home(s.dir), v, phys, perm) == Ok(s');
    AstrayNotSound(s, s', v);
  }

  lemma OwnTableProtected(s: Space, v: Page)
    requires OwnTable(s, v)
    ensures s.Protected(v)
  {
  }

  /** `page_map` never faults, and it keeps `Sound` if and only if the call is harmless. For the protected pages in use
      see also `MapPageCodeWorksIff`. */
  lemma MapPageCodeSoundIff(s: Space, root: Page, enabled: bool, v: Page, phys: Word, perm: Word)
    requires Sound(s, root, enabled) && Room(s, v) && phys % 4096 == 0
    ensures var r := MapPageCode(s, root, v, phys, perm);
            r.Ok? && (Sound(r.value, root, enabled) <==> Harmless(s, enabled, v, phys, perm))
  {
    if enabled && OwnTable(s, v) {
      OwnTableProtected(s, v);
      MapPageCodeAstray(s, v, phys, perm);
    } else {
      MapPageCodeExact(s, root, enabled, v, phys, perm);
      MapPageSound(s, root, enabled, v, phys, perm);
    }
  }

  /** `page_map` leaves the address of the entry where it was. */
  lemma MapPageCodeEntry(s: Space, root: Page, enabled: bool, v: Page, phys: Word, perm: Word)
    requires Sound(s, root, enabled) && Room(s, v) && MapPageCode(s, root, v, phys, perm).Ok?
    ensures PteAddress(MapPageCode(s, root, v, phys, perm).value, v) == PteAddress(WithTable(s, v), v)
  {
    if enabled && OwnTable(s, v) {
      MapPageCodeAstray(s, v, phys, perm);
    } else {
      MapPageCodeExact(s, root, enabled, v, phys, perm);
      WithTableSound(s, root, enabled, v);
      var s1 := WithTable(s, v);
      var w := PteWord(s1.Pte(s1.Table(v / 1024), v % 1024), phys, perm);
      SetEntryKeepsSlots(s1, v / 1024, v % 1024, w, v / 1024);
    }
  }

  /** An identity mapping is harmless for the pages that are not protected and for no other. */
  lemma IdentityHarmlessIff(s: Space, enabled: bool, v: Page, perm: Word)
    requires s.Linked()
    ensures Harmless(s, enabled, v, v * 4096, perm) <==> Mappable(s, enabled, v)
  {
    if s.Protected(v) {
      ProtectedInHeap(s, v);
      OrGrows(v, perm / 4096);
      assert v * 4096 / 4096 == v;
    }
  }

  /** There always is a table that maps its own page: the table of the higher half maps the heap, and so itself. */
  lemma OwnTableExists(s: Space)
    requires Sound(s, Home(s.dir), true)
    ensures OwnTable(s, s.Table(768) / 4096)
  {
    assert s.Protected(s.dir);
    assert s.dir / 1024 == 768;
    ProtectedHasTable(s, s.dir);
    assert s.Slot(768);
    assert s.Table(768) / 4096 / 1024 == 768;
  }

  /** Mapping the page of such a table to the very frame it has loses it: it ends up at frame 0. */
  lemma OwnTableIsLost(s: Space, v: Page, perm: Word)
    requires Sound(s, Home(s.dir), true) && OwnTable(s, v)
    ensures AtHome(s.mem, Home(s.dir), v)
    ensures var r := MapPageCode(s, Home(s.dir), v, Home(v) * 4096, perm);
            && r.Ok? && Walk(r.value.mem, Home(s.dir), v).Some?
            && Walk(r.value.mem, Home(s.dir), v).value.frame == 0 < Home(v)
  {
    OwnTableProtected(s, v);
    assert s.Slot(v / 1024);
    MapPageCodeAstray(s, v, Home(v) * 4096, perm);
  }

  // ---------------------------------------------------------------------------
  // Free heap pages
  // ---------------------------------------------------------------------------

  /** The tables without the heap pages that are not handed out: their protected pages are those in use. */
  function Cut(s: Space): Space {
    s.(heapHi := s.free)
  }

  /** The pager works: shadow index and directory describe the same tables, and all of them are mapped home. Unlike
      `Sound`, this says nothing of the pages that later tables will be made of. */
  predicate Works(s: Space) {
    Sound(Cut(s), Home(s.dir), true)
  }

  lemma SoundWorks(s: Space)
    requires Sound(s, Home(s.dir), true)
    ensures Works(s)
  {
    var c := Cut(s);
    forall k | 0 <= k < 1024 ensures c.Slot(k) && c.Clean(k) && c.Table(k) == s.Table(k) {
      assert s.Slot(k) && s.Clean(k);
      assert forall j | 0 <= j < 1024 :: c.Pte(c.Table(k), j) == s.Pte(s.Table(k), j);
    }
    forall v: Page | c.Protected(v) ensures AtHome(c.mem, Home(s.dir), v) {
      assert s.Protected(v) by {
        if k :| 0 <= k < 1024 && c.Table(k) != 0 && c.Table(k) / 4096 == v {
          assert s.Table(k) / 4096 == v;
        }
      }
    }
  }

  /** While it works, the two walks agree on every page. */
  lemma WorksAgrees(s: Space, v: Page)
    requires Works(s)
    ensures SoftWalk(s.mem, Home(s.dir), true, s.dir, s.shadow, v) == Report(s.Map(v))
  {
    SoftWalkAgrees(Cut(s), Home(s.dir), true, v);
  }

  /** The page is not in use by the pager, or it keeps its frame and is not the page of the table being edited. */
  predicate Gentle(s: Space, v: Page, phys: Word, perm: Word) {
    Harmless(Cut(s), true, v, phys, perm)
  }

  /** With a table for `v` in place, the free heap pages play no part in `page_map`. */
  lemma MapPageCodeCut(s: Space, v: Page, phys: Word, perm: Word)
    requires s.Bounds() && s.Table(v / 1024) != 0 && MapPageCode(s, Home(s.dir), v, phys, perm).Ok?
    ensures MapPageCode(Cut(s), Home(s.dir), v, phys, perm) == Ok(Cut(MapPageCode(s, Home(s.dir), v, phys, perm).value))
    ensures MapPageCode(s, Home(s.dir), v, phys, perm).value.dir == s.dir
  {
  }

  /** A page without a table is not one of the pager's own, free or in use. */
  lemma NoTableNotProtected(s: Space, v: Page)
    requires Sound(s, Home(s.dir), true) && s.Table(v / 1024) == 0
    ensures !s.Protected(v) && !Cut(s).Protected(v)
  {
    if s.Protected(v) { ProtectedHasTable(s, v); }
    SoundWorks(s);
    if Cut(s).Protected(v) { ProtectedHasTable(Cut(s), v); }
  }

  /** The pager works after `page_map` if and only if the call was gentle: a heap page that is not handed out may be
      mapped to any frame. */
  lemma MapPageCodeWorksIff(s: Space, v: Page, phys: Word, perm: Word)
    requires Sound(s, Home(s.dir), true) && Room(s, v) && phys % 4096 == 0
    ensures var r := MapPageCode(s, Home(s.dir), v, phys, perm);
            r.Ok? && (Works(r.value) <==> Gentle(s, v, phys, perm))
  {
    MapPageCodeSoundIff(s, Home(s.dir), true, v, phys, perm);
    if s.Table(v / 1024) == 0 {
      NoTableNotProtected(s, v);
      MapPageCodeExact(s, Home(s.dir), true, v, phys, perm);
      SoundWorks(MapPage(s, v, phys, perm));
    } else {
      SoundWorks(s);
      MapPageCodeCut(s, v, phys, perm);
      MapPageCodeSoundIff(Cut(s), Home(s.dir), true, v, phys, perm);
    }
  }

  /** The pages in use and the free heap pages make up the protected pages. */
  lemma FreePageIsGentle(s: Space, v: Page, phys: Word, perm: Word)
    requires s.Linked() && s.free <= v < s.heapHi
    ensures s.Protected(v) && Gentle(s, v, phys, perm)
  {
    forall k | 0 <= k < 1024 ensures Cut(s).Table(k) == s.Table(k) && (s.Table(k) != 0 ==> s.Table(k) / 4096 < s.free) {
      assert s.Slot(k);
    }
  }

  /** Clearing a page that is mapped to the directory's frame works until it reaches the entry of its own table. */
  lemma {:induction false} ClearDirectory(s: Space, v: Page, n: nat)
    requires s.Linked() && v / 1024 == 768 && n <= 769
    requires s.Map(v).Some? && s.Map(v).value.frame == Home(s.dir)
    ensures ClearCode(s.mem, Home(s.dir), v, n) == Ok(Cleared(s.mem, s.dir, n))
    decreases n
  {
    if n > 0 {
      var k := n - 1;
      ClearDirectory(s, v, k);
      var d, m := Home(s.dir), Cleared(s.mem, s.dir, k);
      MapByTables(s, v);
      assert s.Slot(768);
      ClearedWords(s.mem, s.dir, k, d, 768);
      ClearedWords(s.mem, s.dir, k, s.Pde(768) / 4096, v % 1024);
      assert Walk(m, d, v) == s.Map(v);
    }
  }

  lemma {:induction false} DirectoryIsCleared(s: Space, v: Page)
    requires s.Linked() && v / 1024 == 768 && s.Map(v).Some? && s.Map(v).value.frame == Home(s.dir)
    ensures ClearCode(s.mem, Home(s.dir), v, 1024) == Halt(PageFault)
  {
    ClearDirectory(s, v, 769);
    ClearedWords(s.mem, s.dir, 769, Home(s.dir), 768);
    assert Walk(Cleared(s.mem, s.dir, 769), Home(s.dir), v) == None;
    assert ClearCode(s.mem, Home(s.dir), v, 770) == Halt(PageFault);
    ClearHalts(s.mem, Home(s.dir), v, 770, 1024);
  }

  /** A heap page that is not handed out is mapped by another page's table. */
  lemma FreePageTable(s: Space, v: Page)
    requires Sound(s, Home(s.dir), true) && s.free <= v < s.heapHi
    ensures v / 1024 == 768 && s.Table(v / 1024) != 0 && !OwnTable(s, v)
  {
    assert s.Protected(v);
    ProtectedHasTable(s, v);
    assert s.Slot(v / 1024);
  }

  lemma {:induction false} FreePageMapped(s: Space, v: Page, perm: Word)
    requires Sound(s, Home(s.dir), true) && s.Table(v / 1024) != 0 && v / 1024 == 768 && perm < 4096
    ensures var s' := MapPage(s, v, Home(s.dir) * 4096, perm);
            ClearCode(s'.mem, Home(s.dir), v, 1024) == Halt(PageFault)
  {
    var phys := Home(s.dir) * 4096;
    var s' := MapPage(s, v, phys, perm);
    assert phys % 4096 == 0 && phys / 4096 == Home(s.dir);
    MapPageMaps(s, v, phys, perm, v);
    JoinFrameExact(Home(s.dir), perm);
    SetEntryLinked(s, v / 1024, v % 1024, PteWord(s.Pte(s.Table(v / 1024), v % 1024), phys, perm));
    DirectoryIsCleared(s', v);
  }

  /** What goes wrong later: with the next free page mapped to the directory's frame the pager still works, but making a
      table of that page clears the directory, and faults on the way. */
  lemma FreePageOnDirectory(s: Space, perm: Word)
    requires Sound(s, Home(s.dir), true) && s.free < s.heapHi && perm < 4096
    ensures var r := MapPageCode(s, Home(s.dir), s.free, Home(s.dir) * 4096, perm);
            r.Ok? && Works(r.value) && ClearCode(r.value.mem, Home(s.dir), s.free, 1024) == Halt(PageFault)
  {
    var phys := Home(s.dir) * 4096;
    assert phys % 4096 == 0;
    FreePageTable(s, s.free);
    FreePageIsGentle(s, s.free, phys, perm);
    MapPageCodeWorksIff(s, s.free, phys, perm);
    MapPageCodeExact(s, Home(s.dir), true, s.free, phys, perm);
    FreePageMapped(s, s.free, perm);
  }
}
