/** The kernel pager of src/mm/paging.c. Its directory, shadow index and tables are heap pages, read and
    written through the translation that is active at the time. */
module Paging {
  import opened Words
  import opened Bits
  import opened PageWalk

  // ---------------------------------------------------------------------------
  // Specification
  // ---------------------------------------------------------------------------

  function SoftPte(m: Memory, root: Page, pde: Word, j: int): Res<Word>
    requires 0 <= j < 1024
  {
    if !IsPresent(pde) then Halt(AssertionFailed)
    else
      var pte :- LoadAt(m, root, RoundDown(pde) / 4096, j);
      if !IsPresent(pte) then Halt(AssertionFailed) else Ok(RoundDown(pte))
  }

  /** The directory entry it uses: the boot directory's before the switch; after it, the virtual table
      address from the shadow index joined with the present bit of the directory. */
  function SoftPde(m: Memory, root: Page, enabled: bool, dir: Page, shadow: Page, i: int): Res<Word>
    requires 0 <= i < 1024
  {
    if enabled then
      var t :- LoadAt(m, root, shadow, i);
      var d :- LoadAt(m, root, dir, i);
      Ok(OrPresent(t, d))
    else
      LoadAt(m, root, root, i)
  }

  /** What `virt_to_phys` computes for page `v`, load by load. */
  function SoftWalk(m: Memory, root: Page, enabled: bool, dir: Page, shadow: Page, v: Page): Res<Word> {
    var pde :- SoftPde(m, root, enabled, dir, shadow, v / 1024);
    SoftPte(m, root, pde, v % 1024)
  }

  predicate IdentityAt(m: Memory, root: Page, v: Page) {
    Walk(m, root, v).Some? && Walk(m, root, v).value.frame == v
  }

  /** The tables of `root` are mapped to themselves, so a physical table address can be dereferenced. */
  predicate SelfMapped(m: Memory, root: Page) {
    && IdentityAt(m, root, root)
    && forall i | 0 <= i < 1024 :: m[At(root, i)] % 2 == 1 ==> IdentityAt(m, root, m[At(root, i)] / 4096)
  }

  /** Before the switch the boot tables are live and lie outside the heap; after it the kernel's own are. */
  predicate Live(s: Space, root: Page, enabled: bool) {
    if enabled then root == Home(s.dir) else s.Detached(root) && SelfMapped(s.mem, root)
  }

  predicate Sound(s: Space, root: Page, enabled: bool) {
    s.WellLinked() && s.Reaches(root) && Live(s, root, enabled)
  }

  /** What the hardware walk says, in the form `virt_to_phys` reports it. */
  function Report(o: Option<Mapping>): Res<Word> {
    match o
    case None => Halt(AssertionFailed)
    case Some(t) => Ok(t.frame * 4096)
  }

  lemma SoftPdeBoot(m: Memory, root: Page, dir: Page, shadow: Page, i: int)
    requires SelfMapped(m, root) && 0 <= i < 1024
    ensures SoftPde(m, root, false, dir, shadow, i) == Ok(m[At(root, i)])
  {
    assert IdentityAt(m, root, root);
  }

  lemma SoftPteBoot(m: Memory, root: Page, v: Page)
    requires SelfMapped(m, root)
    ensures SoftPte(m, root, m[At(root, v / 1024)], v % 1024) == Report(Walk(m, root, v))
  {
    var pde := m[At(root, v / 1024)];
    assert RoundDown(pde) / 4096 == pde / 4096;
    if pde % 2 == 1 {
      assert IdentityAt(m, root, pde / 4096);
    }
  }

  /** A table address with the present bit on it. */
  lemma TableBits(t: Word, d: Word)
    requires t % 4096 == 0 && (d % 2 == 1 <==> t != 0)
    ensures t + 1 < WORD_LIMIT
    ensures OrPresent(t, d) == if t == 0 then 0 else t + 1
    ensures IsPresent(t + 1) && RoundDown(t + 1) / 4096 == t / 4096 && !IsPresent(0)
  {
    assert t == 2 * (2048 * (t / 4096));
    assert (t + 1) / 4096 == t / 4096;
  }

  /** What the shadow index and the directory say about table `i`. */
  lemma SlotBits(s: Space, i: int)
    requires s.Linked() && 0 <= i < 1024
    ensures s.Table(i) % 4096 == 0 && (s.Pde(i) % 2 == 1 <==> s.Table(i) != 0)
    ensures s.Table(i) + 1 < WORD_LIMIT
  {
    assert s.Slot(i);
    TableBits(s.Table(i), s.Pde(i));
  }

  /** The table address as the software walk uses it. */
  function SoftTable(s: Space, i: int): Word
    requires s.Linked() && 0 <= i < 1024
  {
    SlotBits(s, i);
    if s.Table(i) == 0 then 0 else s.Table(i) + 1
  }

  /** A table that exists is mapped home. */
  lemma TableAtHome(s: Space, root: Page, i: int)
    requires s.Reaches(root) && 0 <= i < 1024 && s.Table(i) != 0
    ensures AtHome(s.mem, root, s.Table(i) / 4096)
  {
    assert s.Protected(s.Table(i) / 4096);
  }

  /** The last step of both walks. */
  lemma EntryReport(pte: Word)
    ensures (if IsPresent(pte) then Ok(RoundDown(pte)) else Halt(AssertionFailed)) == Report(Entry(pte))
  {
  }

  lemma SoftPteEnabled(s: Space, v: Page)
    requires s.Linked() && s.Reaches(Home(s.dir))
    ensures SoftPte(s.mem, Home(s.dir), SoftTable(s, v / 1024), v % 1024) == Report(s.Map(v))
  {
    var i, j := v / 1024, v % 1024;
    var t := s.Table(i);
    MapByTables(s, v);
    SlotBits(s, i);
    TableBits(t, s.Pde(i));
    if t != 0 {
      TableAtHome(s, Home(s.dir), i);
      assert LoadAt(s.mem, Home(s.dir), t / 4096, j) == Ok(s.Pte(t, j));
      EntryReport(s.Pte(t, j));
    }
  }

  lemma SoftPdeEnabled(s: Space, i: int)
    requires s.Linked() && s.Reaches(Home(s.dir)) && 0 <= i < 1024
    ensures SoftPde(s.mem, Home(s.dir), true, s.dir, s.shadow, i) == Ok(SoftTable(s, i))
  {
    var root := Home(s.dir);
    assert s.Protected(s.dir) && s.Protected(s.shadow);
    assert AtHome(s.mem, root, s.dir) && AtHome(s.mem, root, s.shadow);
    assert LoadAt(s.mem, root, s.shadow, i) == Ok(s.Table(i)) && LoadAt(s.mem, root, s.dir, i) == Ok(s.Pde(i));
    SlotBits(s, i);
    TableBits(s.Table(i), s.Pde(i));
  }

  /** The software walk and the hardware walk agree on every page, mapped or not: an unmapped
      page is an assertion failure and never a stray access. */
  lemma SoftWalkAgrees(s: Space, root: Page, enabled: bool, v: Page)
    requires s.Linked() && s.Reaches(root) && Live(s, root, enabled)
    ensures SoftWalk(s.mem, root, enabled, s.dir, s.shadow, v) == Report(Walk(s.mem, root, v))
  {
    if enabled {
      SoftPdeEnabled(s, v / 1024);
      SoftPteEnabled(s, v);
    } else {
      SoftPdeBoot(s.mem, root, s.dir, s.shadow, v / 1024);
      SoftPteBoot(s.mem, root, v);
    }
  }

  /** The word `page_map_pte` leaves in a table entry: clear the frame, then join the rest on. */
  function PteWord(previous: Word, phys: Word, perm: Word): Word {
    Or32(Or32(Or32(PageOffset(previous), phys), perm), PAGE_ENTRY_PRESENT)
  }

  lemma {:induction false} JoinFrameBound(frame: Page, perm: Word)
    ensures Or(frame, perm / 4096) < 0x10_0000
  {
    assert (frame * 4096) / 4096 == frame;
    assert Or32(frame * 4096, perm) / 4096 == Or(frame, perm / 4096);
  }

  /** The frame that results: bits of `perm` above the flags end up in it. */
  function JoinFrame(frame: Page, perm: Word): Page {
    JoinFrameBound(frame, perm);
    Or(frame, perm / 4096)
  }

  /** The frame asked for is the frame installed if and only if `perm` brings no new frame bits. */
  lemma JoinFrameExact(frame: Page, perm: Word)
    ensures perm < 4096 ==> JoinFrame(frame, perm) == frame
    ensures JoinFrame(frame, perm) == frame <==> Subset(perm / 4096, frame)
  {
    assert perm < 4096 ==> perm / 4096 == 0;
    OrAbsorbs(frame, perm / 4096);
  }

  /** Mapping frame 1 with a `perm` of 0x2002 installs frame 3. */
  lemma PermChangesFrame()
    ensures JoinFrame(1, 0x2002) == 3
  {
    assert 0x2002 / 4096 == 2;
    assert Or(0, 1) == 1;
    assert Or(1, 2) == 2 * Or(0, 1) + 1;
  }

  /** The flags of a page; none for one that is not mapped. */
  function FlagsIn(o: Option<Mapping>): nat {
    if o.None? then 0 else o.value.flags
  }

  function JoinFlags(flags: nat, perm: Word): nat {
    Or(Or(flags, perm % 4096), PAGE_ENTRY_PRESENT)
  }

  /** One call of `page_map` on the simple view of a page: the frame is replaced, the flags accumulate. */
  function Remap(o: Option<Mapping>, frame: Page, perm: Word): Mapping {
    Mapping(JoinFrame(frame, perm), JoinFlags(FlagsIn(o), perm))
  }

  lemma PteWordFrame(previous: Word, phys: Word, perm: Word)
    requires phys % 4096 == 0
    ensures PteWord(previous, phys, perm) / 4096 == JoinFrame(phys / 4096, perm)
  {
    var a := PageOffset(previous);
    var b := Or32(a, phys);
    assert a / 4096 == 0;
    assert b / 4096 == phys / 4096;
    var c := Or32(b, perm);
    assert c / 4096 == Or(phys / 4096, perm / 4096);
  }

  lemma PteWordFlags(previous: Word, phys: Word, perm: Word)
    requires phys % 4096 == 0
    ensures PteWord(previous, phys, perm) % 4096 == JoinFlags(previous % 4096, perm)
    ensures PteWord(previous, phys, perm) % 2 == 1
  {
    var a := PageOffset(previous);
    var b := Or32(a, phys);
    assert b % 4096 == previous % 4096;
    var c := Or32(b, perm);
    assert c % 4096 == Or(previous % 4096, perm % 4096);
  }

  // ---------------------------------------------------------------------------
  // The invariant under the two writes of page_map
  // ---------------------------------------------------------------------------

  lemma LinkSelfMapped(s: Space, root: Page, i: int)
    requires s.WellLinked() && s.free < s.heapHi && 0 <= i < 1024 && s.Detached(root) && SelfMapped(s.mem, root)
    ensures SelfMapped(Link(s, i).mem, root)
  {
    var s' := Link(s, i);
    LinkDetached(s, root, i);
    assert IdentityAt(s'.mem, root, root);
    forall k | 0 <= k < 1024 && s'.mem[At(root, k)] % 2 == 1
      ensures IdentityAt(s'.mem, root, s'.mem[At(root, k)] / 4096)
    {
      LinkWords(s, i, root, k);
      assert IdentityAt(s.mem, root, s.mem[At(root, k)] / 4096);
    }
  }

  lemma LinkSound(s: Space, root: Page, enabled: bool, i: int)
    requires Sound(s, root, enabled) && s.free < s.heapHi && 0 <= i < 1024 && s.Table(i) == 0
    ensures Sound(Link(s, i), root, enabled)
  {
    var s' := Link(s, i);
    LinkWellLinked(s, i);
    if enabled {
      forall v: Page | s'.Protected(v) ensures AtHome(s'.mem, root, v) {
        LinkProtected(s, i, v);
        LinkMap(s, i, v);
        assert AtHome(s.mem, root, v);
      }
    } else {
      LinkDetached(s, root, i);
      LinkSelfMapped(s, root, i);
      forall v: Page | s'.Protected(v) ensures AtHome(s'.mem, root, v) {
        LinkProtected(s, i, v);
        assert AtHome(s.mem, root, v);
        assert Walk(s'.mem, root, v) == Walk(s.mem, root, v);
      }
    }
  }

  lemma SetEntrySelfMapped(s: Space, root: Page, i: int, j: int, w: Word)
    requires s.WellLinked() && 0 <= i < 1024 && 0 <= j < 1024 && s.Table(i) != 0
    requires s.Detached(root) && SelfMapped(s.mem, root)
    ensures SelfMapped(SetEntry(s, i, j, w).mem, root)
  {
    var s' := SetEntry(s, i, j, w);
    assert s.Slot(i);
    SetEntryWalk(s, root, i, j, w, root);
    assert IdentityAt(s.mem, root, root);
    forall k | 0 <= k < 1024 && s'.mem[At(root, k)] % 2 == 1
      ensures IdentityAt(s'.mem, root, s'.mem[At(root, k)] / 4096)
    {
      assert s'.mem[At(root, k)] == s.mem[At(root, k)];
      assert IdentityAt(s.mem, root, s.mem[At(root, k)] / 4096);
      SetEntryWalk(s, root, i, j, w, s.mem[At(root, k)] / 4096);
    }
  }

  /** Writing the entry of a page that is not protected keeps everything; before the switch any page will do. */
  lemma SetEntrySound(s: Space, root: Page, enabled: bool, i: int, j: int, w: Word)
    requires Sound(s, root, enabled) && 0 <= i < 1024 && 0 <= j < 1024 && s.Table(i) != 0 && w % 2 == 1
    requires enabled ==> !s.Protected(i * 1024 + j)
    ensures Sound(SetEntry(s, i, j, w), root, enabled)
  {
    var s' := SetEntry(s, i, j, w);
    SetEntryWellLinked(s, i, j, w);
    forall v: Page | s'.Protected(v) ensures AtHome(s'.mem, root, v) {
      SetEntryProtected(s, i, j, w, v);
      assert AtHome(s.mem, root, v);
      SetEntryWalk(s, root, i, j, w, v);
    }
    if !enabled {
      SetEntryDetached(s, root, i, j, w);
      SetEntrySelfMapped(s, root, i, j, w);
    }
  }

  /** Giving a protected page another frame breaks the invariant; giving it its own does not. */
  lemma SetEntrySoundIff(s: Space, i: int, j: int, w: Word)
    requires Sound(s, Home(s.dir), true) && 0 <= i < 1024 && 0 <= j < 1024 && s.Table(i) != 0 && w % 2 == 1
    requires s.Protected(i * 1024 + j)
    ensures Sound(SetEntry(s, i, j, w), Home(s.dir), true) <==> w / 4096 == Home(i * 1024 + j)
  {
    var s' := SetEntry(s, i, j, w);
    var u := i * 1024 + j;
    SetEntryMap(s, i, j, w, u);
    SetEntryProtected(s, i, j, w, u);
    assert AtHome(s.mem, Home(s.dir), u);
    if w / 4096 == Home(u) {
      SetEntryWellLinked(s, i, j, w);
      forall v: Page | s'.Protected(v) ensures AtHome(s'.mem, Home(s.dir), v) {
        SetEntryProtected(s, i, j, w, v);
        assert AtHome(s.mem, Home(s.dir), v);
        SetEntryMap(s, i, j, w, v);
      }
    } else {
      assert !AtHome(s'.mem, Home(s.dir), u);
    }
  }

  // ---------------------------------------------------------------------------
  // page_map as a function
  // ---------------------------------------------------------------------------

  /** There is a table for `v`, or a page left to make one. */
  predicate Room(s: Space, v: Page) {
    s.Table(v / 1024) != 0 || s.free < s.heapHi
  }

  /** The tables with one for `v`. */
  function WithTable(s: Space, v: Page): Space
    requires s.Bounds() && Room(s, v)
  {
    if s.Table(v / 1024) == 0 then Link(s, v / 1024) else s
  }

  function SetPte(s: Space, v: Page, phys: Word, perm: Word): Space {
    SetEntry(s, v / 1024, v % 1024, PteWord(s.Pte(s.Table(v / 1024), v % 1024), phys, perm))
  }

  /** The tables after `page_map(v, phys, perm)`. */
  function MapPage(s: Space, v: Page, phys: Word, perm: Word): Space
    requires s.Bounds() && Room(s, v)
  {
    SetPte(WithTable(s, v), v, phys, perm)
  }

  /** The page is not one that the pager writes through. Before the switch any page will do. */
  predicate Mappable(s: Space, enabled: bool, v: Page) {
    enabled ==> !s.Protected(v)
  }

  /** The table that maps `v` is page `v` itself. */
  predicate OwnTable(s: Space, v: Page) {
    s.Table(v / 1024) != 0 && s.Table(v / 1024) / 4096 == v
  }

  /** The call keeps `Sound`: the page is not protected, or it keeps its frame and is not the page of the very table
      that is edited. */
  predicate Harmless(s: Space, enabled: bool, v: Page, phys: Word, perm: Word) {
    enabled && s.Protected(v) ==> JoinFrame(phys / 4096, perm) == Home(v) && !OwnTable(s, v)
  }

  /** A protected page already has a table, since it is mapped. */
  lemma ProtectedHasTable(s: Space, v: Page)
    requires Sound(s, Home(s.dir), true) && s.Protected(v)
    ensures s.Table(v / 1024) != 0 && s.Map(v).Some? && s.Map(v).value.frame == Home(v)
  {
    assert AtHome(s.mem, Home(s.dir), v);
    MapByTables(s, v);
  }

  lemma WithTableSound(s: Space, root: Page, enabled: bool, v: Page)
    requires Sound(s, root, enabled) && Room(s, v)
    ensures Sound(WithTable(s, v), root, enabled) && WithTable(s, v).Table(v / 1024) != 0
    ensures WithTable(s, v).Protected(v) == s.Protected(v)
    ensures enabled && s.Protected(v) ==> WithTable(s, v) == s
  {
    if s.Table(v / 1024) == 0 {
      LinkSound(s, root, enabled, v / 1024);
      LinkSlots(s, v / 1024, v / 1024);
      LinkProtected(s, v / 1024, v);
      if enabled && s.Protected(v) { ProtectedHasTable(s, v); }
    }
  }

  /** `page_map` as one step: it keeps the invariant if and only if a protected page keeps its frame. */
  lemma MapPageSound(s: Space, root: Page, enabled: bool, v: Page, phys: Word, perm: Word)
    requires Sound(s, root, enabled) && Room(s, v) && phys % 4096 == 0
    ensures Sound(MapPage(s, v, phys, perm), root, enabled) <==>
            (enabled && s.Protected(v) ==> JoinFrame(phys / 4096, perm) == Home(v))
  {
    WithTableSound(s, root, enabled, v);
    var s1 := WithTable(s, v);
    var p := s1.Pte(s1.Table(v / 1024), v % 1024);
    var w := PteWord(p, phys, perm);
    PteWordFlags(p, phys, perm);
    PteWordFrame(p, phys, perm);
    if enabled && s.Protected(v) {
      SetEntrySoundIff(s1, v / 1024, v % 1024, w);
    } else {
      SetEntrySound(s1, root, enabled, v / 1024, v % 1024, w);
    }
  }

  lemma EntryFlags(p: Word)
    requires p % 2 == 0 ==> p == 0
    ensures FlagsIn(Entry(p)) == p % 4096
  {
  }

  lemma PresentEntry(w: Word)
    requires w % 2 == 1
    ensures Entry(w) == Some(Mapping(w / 4096, w % 4096))
  {
  }

  /** The entry that is written is the remapped one. */
  lemma PteWordRemaps(p: Word, phys: Word, perm: Word)
    requires phys % 4096 == 0 && (p % 2 == 0 ==> p == 0)
    ensures Entry(PteWord(p, phys, perm)) == Some(Remap(Entry(p), phys / 4096, perm))
  {
    PteWordFrame(p, phys, perm);
    PteWordFlags(p, phys, perm);
    PresentEntry(PteWord(p, phys, perm));
    EntryFlags(p);
  }

  lemma SetPteMaps(s: Space, v: Page, phys: Word, perm: Word, u: Page)
    requires s.WellLinked() && s.Table(v / 1024) != 0 && phys % 4096 == 0
    ensures SetPte(s, v, phys, perm).Map(u) == if u == v then Some(Remap(s.Map(v), phys / 4096, perm)) else s.Map(u)
  {
    var i, j := v / 1024, v % 1024;
    var p := s.Pte(s.Table(i), j);
    SetEntryMap(s, i, j, PteWord(p, phys, perm), u);
    assert i * 1024 + j == v;
    MapByTables(s, v);
    assert s.Clean(i);
    PteWordRemaps(p, phys, perm);
  }

  /** `page_map` gives `v` the frame and adds the flags, and leaves every other page as it was, also when
      it has to create a table. */
  lemma MapPageMaps(s: Space, v: Page, phys: Word, perm: Word, u: Page)
    requires s.WellLinked() && Room(s, v) && phys % 4096 == 0
    ensures MapPage(s, v, phys, perm).Map(u) == if u == v then Some(Remap(s.Map(v), phys / 4096, perm)) else s.Map(u)
  {
    if s.Table(v / 1024) == 0 {
      LinkWellLinked(s, v / 1024);
      LinkSlots(s, v / 1024, v / 1024);
      LinkMap(s, v / 1024, u);
      LinkMap(s, v / 1024, v);
    }
    SetPteMaps(WithTable(s, v), v, phys, perm, u);
  }
}
