/** Two-level 32-bit paging over a physical memory that holds the tables themselves
    (section 4.3 of the Intel SDM, Volume 3A), and the linking invariant of src/mm/paging.c. */
module PageWalk {
  import opened Words

  /** A page or frame number. */
  type Page = p: int | 0 <= p < 0x10_0000

  /** Physical memory: 2^30 words, that is 2^20 frames of 1024 words. */
  type Memory = m: seq<Word> | |m| == 0x4000_0000 ghost witness seq(0x4000_0000, _ => 0)

  /** The page of 0xC0000000, where the higher half starts. */
  const BASE_PAGE := 0xc_0000

  /** Word `i` of a frame. */
  function At(frame: Page, i: int): (k: int)
    requires 0 <= i < 1024
    ensures 0 <= k < 0x4000_0000
  {
    frame * 1024 + i
  }

  datatype Mapping = Mapping(frame: Page, flags: nat)

  function Entry(w: Word): Option<Mapping> {
    if w % 2 == 1 then Some(Mapping(w / 4096, w % 4096)) else None
  }

  /** The hardware walk: what the MMU does with CR3 at frame `root`. */
  function Walk(m: Memory, root: Page, v: Page): Option<Mapping> {
    var pde := m[At(root, v / 1024)];
    if pde % 2 == 0 then None else Entry(m[At(pde / 4096, v % 1024)])
  }

  /** A load of word `i` of virtual page `v`, that is of the C expression `p[i]` for a page-aligned `p`. */
  function LoadAt(m: Memory, root: Page, v: Page, i: int): Res<Word>
    requires 0 <= i < 1024
  {
    match Walk(m, root, v)
    case None => Halt(PageFault)
    case Some(t) => Ok(m[At(t.frame, i)])
  }

  /** The frame the linker placed a higher-half page in. */
  function Home(v: Page): Page {
    if v < BASE_PAGE then 0 else v - BASE_PAGE
  }

  predicate AtHome(m: Memory, root: Page, v: Page) {
    v >= BASE_PAGE && Walk(m, root, v).Some? && Walk(m, root, v).value.frame == Home(v)
  }

  /** The kernel's view of its tables: the pages of the directory and of the shadow index,
      and the heap `[heapLo, heapHi)` whose pages from `free` on are not handed out yet. */
  datatype Space = Space(mem: Memory, dir: Page, shadow: Page, heapLo: Page, free: Page, heapHi: Page) {

    /** Directory entry `i`. */
    function Pde(i: int): Word
      requires 0 <= i < 1024
    {
      mem[At(Home(dir), i)]
    }

    /** Shadow entry `i`: the virtual address of table `i`, or NULL. */
    function Table(i: int): Word
      requires 0 <= i < 1024
    {
      mem[At(Home(shadow), i)]
    }

    /** Word `j` of the table at virtual address `t`. */
    function Pte(t: Word, j: int): Word
      requires 0 <= j < 1024
    {
      mem[At(Home(t / 4096), j)]
    }

    /** The heap lies in the table of the higher half, above its first page, and holds directory and index. */
    predicate Bounds() {
      && BASE_PAGE < heapLo <= free <= heapHi <= BASE_PAGE + 1024
      && heapLo <= dir < free && heapLo <= shadow < free && dir != shadow
    }

    /** Directory and shadow entry `i` agree, and the table is a heap page of its own. */
    predicate Slot(i: int)
      requires 0 <= i < 1024
    {
      var t := Table(i);
      && (Pde(i) % 2 == 1 <==> t != 0)
      && (t != 0 ==>
            && t % 4096 == 0 && heapLo <= t / 4096 < free && t / 4096 != dir && t / 4096 != shadow
            && Pde(i) == Home(t / 4096) * 4096 + 3)
    }

    /** A table entry that is not present is all zero. */
    predicate Clean(i: int)
      requires 0 <= i < 1024
    {
      Table(i) != 0 ==> forall j | 0 <= j < 1024 :: Pte(Table(i), j) % 2 == 0 ==> Pte(Table(i), j) == 0
    }

    /** Tables never alias. */
    predicate Apart() {
      forall i, j | 0 <= i < j < 1024 :: Table(i) != 0 && Table(j) != 0 ==> Table(i) != Table(j)
    }

    /** Shadow index and directory describe the same, unaliased tables. */
    predicate Linked() {
      Bounds() && (forall i | 0 <= i < 1024 :: Slot(i)) && Apart()
    }

    /** The invariant that every completed `page_map` keeps. */
    predicate WellLinked() {
      Linked() && forall i | 0 <= i < 1024 :: Clean(i)
    }

    /** The pages that `page_map` itself writes through or will write through. */
    predicate Protected(v: Page) {
      || v == dir || v == shadow || free <= v < heapHi
      || exists i | 0 <= i < 1024 :: Table(i) != 0 && Table(i) / 4096 == v
    }

    /** Under `root`, every protected page is where the linker put it. */
    predicate Reaches(root: Page) {
      forall v: Page :: Protected(v) ==> AtHome(mem, root, v)
    }

    /** No table of `root` lies in the heap. */
    predicate Detached(root: Page) {
      && !InHeap(root)
      && forall i | 0 <= i < 1024 :: mem[At(root, i)] % 2 == 1 ==> !InHeap(mem[At(root, i)] / 4096)
    }

    predicate InHeap(frame: Page) {
      Home(heapLo) <= frame < Home(heapHi)
    }

    /** The translation of page `v` through the directory the kernel maintains. */
    function Map(v: Page): Option<Mapping> {
      Walk(mem, Home(dir), v)
    }
  }

  lemma ProtectedInHeap(s: Space, v: Page)
    requires s.Linked() && s.Protected(v)
    ensures s.heapLo <= v < s.heapHi
  {
    if k :| 0 <= k < 1024 && s.Table(k) != 0 && s.Table(k) / 4096 == v {
      assert s.Slot(k);
    }
  }

  // ---------------------------------------------------------------------------
  // Writing one table entry
  // ---------------------------------------------------------------------------

  /** Write word `w` to entry `j` of table `i`. */
  function SetEntry(s: Space, i: int, j: int, w: Word): Space
    requires 0 <= i < 1024 && 0 <= j < 1024
  {
    s.(mem := s.mem[At(Home(s.Table(i) / 4096), j) := w])
  }

  /** Two words of memory coincide only if frame and index do. */
  lemma AtInjective(f: Page, i: int, g: Page, j: int)
    requires 0 <= i < 1024 && 0 <= j < 1024
    ensures At(f, i) == At(g, j) <==> f == g && i == j
  {
  }

  lemma SetEntryKeepsSlots(s: Space, i: int, j: int, w: Word, k: int)
    requires s.Linked() && 0 <= i < 1024 && 0 <= j < 1024 && 0 <= k < 1024
    requires s.Table(i) != 0
    ensures var s' := SetEntry(s, i, j, w); s'.Table(k) == s.Table(k) && s'.Pde(k) == s.Pde(k)
  {
    assert s.Slot(i);
  }

  lemma SetEntryPte(s: Space, i: int, j: int, w: Word, k: int, l: int)
    requires s.Linked() && 0 <= i < 1024 && 0 <= j < 1024 && 0 <= k < 1024 && 0 <= l < 1024
    requires s.Table(i) != 0 && s.Table(k) != 0
    ensures SetEntry(s, i, j, w).Pte(s.Table(k), l) == if i == k && j == l then w else s.Pte(s.Table(k), l)
  {
    assert s.Slot(i) && s.Slot(k);
    AtInjective(Home(s.Table(i) / 4096), j, Home(s.Table(k) / 4096), l);
  }

  lemma SetEntryLinked(s: Space, i: int, j: int, w: Word)
    requires s.Linked() && 0 <= i < 1024 && 0 <= j < 1024 && s.Table(i) != 0
    ensures SetEntry(s, i, j, w).Linked()
  {
    var s' := SetEntry(s, i, j, w);
    forall k | 0 <= k < 1024 ensures s'.Table(k) == s.Table(k) && s'.Slot(k) {
      SetEntryKeepsSlots(s, i, j, w, k);
      assert s.Slot(k);
    }
  }

  lemma SetEntryWellLinked(s: Space, i: int, j: int, w: Word)
    requires s.WellLinked() && 0 <= i < 1024 && 0 <= j < 1024 && s.Table(i) != 0 && w % 2 == 1
    ensures SetEntry(s, i, j, w).WellLinked()
  {
    var s' := SetEntry(s, i, j, w);
    SetEntryLinked(s, i, j, w);
    forall k | 0 <= k < 1024 ensures s'.Clean(k) {
      SetEntryKeepsSlots(s, i, j, w, k);
      assert s.Clean(k);
      if s.Table(k) != 0 {
        forall l | 0 <= l < 1024 ensures s'.Pte(s.Table(k), l) % 2 == 0 ==> s'.Pte(s.Table(k), l) == 0 {
          SetEntryPte(s, i, j, w, k, l);
        }
      }
    }
  }

  /** The walk in terms of the shadow index. */
  lemma MapByTables(s: Space, v: Page)
    requires s.Linked()
    ensures s.Map(v) == if s.Table(v / 1024) == 0 then None else Entry(s.Pte(s.Table(v / 1024), v % 1024))
  {
    assert s.Slot(v / 1024);
  }

  /** Writing one entry changes the translation of exactly one page. */
  lemma SetEntryMap(s: Space, i: int, j: int, w: Word, v: Page)
    requires s.Linked() && 0 <= i < 1024 && 0 <= j < 1024 && s.Table(i) != 0
    ensures SetEntry(s, i, j, w).Map(v) == if v == i * 1024 + j then Entry(w) else s.Map(v)
  {
    SetEntryLinked(s, i, j, w);
    MapByTables(s, v);
    MapByTables(SetEntry(s, i, j, w), v);
    SetEntryKeepsSlots(s, i, j, w, v / 1024);
    if s.Table(v / 1024) != 0 {
      SetEntryPte(s, i, j, w, v / 1024, v % 1024);
    }
  }

  lemma SetEntryProtected(s: Space, i: int, j: int, w: Word, v: Page)
    requires s.Linked() && 0 <= i < 1024 && 0 <= j < 1024 && s.Table(i) != 0
    ensures SetEntry(s, i, j, w).Protected(v) == s.Protected(v)
  {
    forall k | 0 <= k < 1024 ensures SetEntry(s, i, j, w).Table(k) == s.Table(k) {
      SetEntryKeepsSlots(s, i, j, w, k);
    }
  }

  /** Under either root, writing entry `j` of table `i` moves no page but `i * 1024 + j`. */
  lemma SetEntryWalk(s: Space, root: Page, i: int, j: int, w: Word, u: Page)
    requires s.Linked() && 0 <= i < 1024 && 0 <= j < 1024 && s.Table(i) != 0
    requires s.Detached(root) || (root == Home(s.dir) && u != i * 1024 + j)
    ensures Walk(SetEntry(s, i, j, w).mem, root, u) == Walk(s.mem, root, u)
  {
    if root == Home(s.dir) && u != i * 1024 + j {
      SetEntryMap(s, i, j, w, u);
    } else {
      assert s.Slot(i);
    }
  }

  lemma SetEntryDetached(s: Space, root: Page, i: int, j: int, w: Word)
    requires s.Linked() && 0 <= i < 1024 && 0 <= j < 1024 && s.Table(i) != 0 && s.Detached(root)
    ensures SetEntry(s, i, j, w).Detached(root)
  {
    assert s.Slot(i);
  }

  // ---------------------------------------------------------------------------
  // Linking a fresh table
  // ---------------------------------------------------------------------------

  /** Clear the first `n` words of the frame of page `p`. */
  function Cleared(m: Memory, p: Page, n: nat): Memory
    requires n <= 1024
    decreases n, p
  {
    if n == 0 then m else Cleared(m, p, n - 1)[At(Home(p), n - 1) := 0]
  }

  lemma {:induction false} ClearedWords(m: Memory, p: Page, n: nat, f: Page, l: int)
    requires n <= 1024 && 0 <= l < 1024
    ensures Cleared(m, p, n)[At(f, l)] == if f == Home(p) && l < n then 0 else m[At(f, l)]
    decreases n
  {
    if n > 0 {
      ClearedWords(m, p, n - 1, f, l);
      AtInjective(f, l, Home(p), n - 1);
    }
  }

  /** Clear `table` and enter it as table `i` in directory and shadow index. */
  function Entered(m: Memory, dir: Page, shadow: Page, table: Page, i: int): Memory
    requires 0 <= i < 1024
  {
    Cleared(m, table, 1024)[At(Home(dir), i) := Home(table) * 4096 + 3][At(Home(shadow), i) := table * 4096]
  }

  /** Hand out the first free page as table `i`. */
  function Link(s: Space, i: int): Space
    requires 0 <= i < 1024 && s.free < 0xf_ffff
  {
    s.(mem := Entered(s.mem, s.dir, s.shadow, s.free, i), free := s.free + 1)
  }

  /** Every word of memory after `Link`. */
  lemma LinkWords(s: Space, i: int, f: Page, l: int)
    requires s.Bounds() && s.free < s.heapHi && 0 <= i < 1024 && 0 <= l < 1024
    ensures Link(s, i).mem[At(f, l)] ==
            if f == Home(s.shadow) && l == i then s.free * 4096
            else if f == Home(s.dir) && l == i then Home(s.free) * 4096 + 3
            else if f == Home(s.free) then 0
            else s.mem[At(f, l)]
  {
    ClearedWords(s.mem, s.free, 1024, f, l);
    AtInjective(f, l, Home(s.shadow), i);
    AtInjective(f, l, Home(s.dir), i);
  }

  lemma LinkSlots(s: Space, i: int, k: int)
    requires s.WellLinked() && s.free < s.heapHi && 0 <= i < 1024 && 0 <= k < 1024
    ensures var s' := Link(s, i);
            && s'.Table(k) == (if k == i then s.free * 4096 else s.Table(k))
            && s'.Pde(k) == (if k == i then Home(s.free) * 4096 + 3 else s.Pde(k))
  {
    LinkWords(s, i, Home(s.shadow), k);
    LinkWords(s, i, Home(s.dir), k);
  }

  lemma LinkPte(s: Space, i: int, k: int, l: int)
    requires s.WellLinked() && s.free < s.heapHi && 0 <= i < 1024 && 0 <= k < 1024 && 0 <= l < 1024
    requires Link(s, i).Table(k) != 0
    ensures var s' := Link(s, i); s'.Pte(s'.Table(k), l) == if k == i then 0 else s.Pte(s.Table(k), l)
  {
    LinkSlots(s, i, k);
    assert s.Slot(k);
    LinkWords(s, i, Home(Link(s, i).Table(k) / 4096), l);
  }

  lemma LinkSlot(s: Space, i: int, k: int)
    requires s.WellLinked() && s.free < s.heapHi && 0 <= i < 1024 && 0 <= k < 1024 && s.Table(i) == 0
    ensures Link(s, i).Slot(k)
    ensures Link(s, i).Table(k) == (if k == i then s.free * 4096 else s.Table(k))
    ensures s.Table(k) != s.free * 4096
  {
    LinkSlots(s, i, k);
    assert s.Slot(k);
  }

  lemma LinkLinked(s: Space, i: int)
    requires s.WellLinked() && s.free < s.heapHi && 0 <= i < 1024 && s.Table(i) == 0
    ensures Link(s, i).Linked()
  {
    var s' := Link(s, i);
    forall k | 0 <= k < 1024 ensures s'.Slot(k) {
      LinkSlot(s, i, k);
    }
    forall k, l | 0 <= k < l < 1024 ensures s'.Table(k) != 0 && s'.Table(l) != 0 ==> s'.Table(k) != s'.Table(l) {
      LinkSlot(s, i, k);
      LinkSlot(s, i, l);
    }
  }

  lemma LinkClean(s: Space, i: int, k: int)
    requires s.WellLinked() && s.free < s.heapHi && 0 <= i < 1024 && 0 <= k < 1024
    ensures Link(s, i).Clean(k)
  {
    var s' := Link(s, i);
    if s'.Table(k) != 0 {
      LinkSlots(s, i, k);
      assert s.Clean(k);
      forall l | 0 <= l < 1024 ensures s'.Pte(s'.Table(k), l) % 2 == 0 ==> s'.Pte(s'.Table(k), l) == 0 {
        LinkPte(s, i, k, l);
      }
    }
  }

  lemma LinkWellLinked(s: Space, i: int)
    requires s.WellLinked() && s.free < s.heapHi && 0 <= i < 1024 && s.Table(i) == 0
    ensures Link(s, i).WellLinked()
  {
    LinkLinked(s, i);
    forall k | 0 <= k < 1024 ensures Link(s, i).Clean(k) {
      LinkClean(s, i, k);
    }
  }

  /** A fresh table changes no translation. */
  lemma LinkMap(s: Space, i: int, v: Page)
    requires s.WellLinked() && s.free < s.heapHi && 0 <= i < 1024 && s.Table(i) == 0
    ensures Link(s, i).Map(v) == s.Map(v)
  {
    LinkWellLinked(s, i);
    MapByTables(s, v);
    MapByTables(Link(s, i), v);
    LinkSlots(s, i, v / 1024);
    if Link(s, i).Table(v / 1024) != 0 {
      LinkPte(s, i, v / 1024, v % 1024);
    }
  }

  lemma LinkProtected(s: Space, i: int, v: Page)
    requires s.WellLinked() && s.free < s.heapHi && 0 <= i < 1024 && s.Table(i) == 0
    ensures Link(s, i).Protected(v) == s.Protected(v)
  {
    var s' := Link(s, i);
    forall k | 0 <= k < 1024
      ensures s'.Table(k) == (if k == i then s.free * 4096 else s.Table(k))
    {
      LinkSlots(s, i, k);
    }
    if v == s.free {
      assert s'.Table(i) / 4096 == v;
    }
    if k :| 0 <= k < 1024 && s.Table(k) != 0 && s.Table(k) / 4096 == v {
      assert s'.Table(k) / 4096 == v;
    }
  }

  /** Clearing the first free page moves no page, under either root. */
  lemma {:induction false} ClearedWalk(s: Space, root: Page, n: nat, u: Page)
    requires s.Linked() && s.free < s.heapHi && n <= 1024
    requires s.Detached(root) || root == Home(s.dir)
    ensures Walk(Cleared(s.mem, s.free, n), root, u) == Walk(s.mem, root, u)
  {
    var pde := s.mem[At(root, u / 1024)];
    ClearedWords(s.mem, s.free, n, root, u / 1024);
    ClearedWords(s.mem, s.free, n, pde / 4096, u % 1024);
    if root == Home(s.dir) { assert s.Slot(u / 1024); }
  }

  /** Entering the cleared page in the directory moves no page of another table, under either root. */
  lemma EnteredWalk(s: Space, root: Page, i: int, w: Word, u: Page)
    requires s.Linked() && s.free < s.heapHi && 0 <= i < 1024
    requires s.Detached(root) || (root == Home(s.dir) && u / 1024 != i)
    ensures Walk(Cleared(s.mem, s.free, 1024)[At(Home(s.dir), i) := w], root, u) == Walk(s.mem, root, u)
  {
    ClearedWalk(s, root, 1024, u);
    var m := Cleared(s.mem, s.free, 1024);
    var pde := m[At(root, u / 1024)];
    AtInjective(root, u / 1024, Home(s.dir), i);
    AtInjective(pde / 4096, u % 1024, Home(s.dir), i);
    ClearedWords(s.mem, s.free, 1024, root, u / 1024);
    if root == Home(s.dir) { assert s.Slot(u / 1024); }
  }

  lemma LinkDetached(s: Space, root: Page, i: int)
    requires s.WellLinked() && s.free < s.heapHi && 0 <= i < 1024 && s.Detached(root)
    ensures Link(s, i).Detached(root)
    ensures forall u: Page :: Walk(Link(s, i).mem, root, u) == Walk(s.mem, root, u)
  {
    var s' := Link(s, i);
    forall k | 0 <= k < 1024 ensures s'.mem[At(root, k)] == s.mem[At(root, k)] {
      LinkWords(s, i, root, k);
    }
    forall u: Page ensures Walk(s'.mem, root, u) == Walk(s.mem, root, u) {
      LinkWords(s, i, s.mem[At(root, u / 1024)] / 4096, u % 1024);
    }
  }
}
