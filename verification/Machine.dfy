/** The processor as the paging code sees it: physical memory, CR3, and loads and stores that go
    through the active translation. */
module Machine {
  import opened Words
  import opened PageWalk

  class Cpu {
    const ram: array<Word>
    var cr3: Page      // the frame number in CR3

    constructor (ram: array<Word>)
      ensures this.ram == ram && cr3 == 0
    {
      this.ram := ram;
      cr3 := 0;
    }

    predicate Valid() {
      ram.Length == 0x4000_0000
    }

    ghost function Mem(): Memory
      requires Valid()
      reads ram
    {
      ram[..]
    }

    /** A page walk, reading the tables from memory. */
    method Translate(v: Page) returns (r: Res<Page>)
      requires Valid()
      ensures r == match Walk(Mem(), cr3, v)
                   case None => Halt(PageFault)
                   case Some(t) => Ok(t.frame)
    {
      var pde := ram[At(cr3, v / 1024)];
      if pde % 2 == 0 {
        return Halt(PageFault);
      }
      var pte := ram[At(pde / 4096, v % 1024)];
      if pte % 2 == 0 {
        return Halt(PageFault);
      }
      return Ok(pte / 4096);
    }

    /** `p[i]` for `p` the start of virtual page `v`. */
    method Load(v: Page, i: int) returns (r: Res<Word>)
      requires Valid() && 0 <= i < 1024
      ensures r == LoadAt(Mem(), cr3, v, i)
    {
      var frame :- Translate(v);
      return Ok(ram[At(frame, i)]);
    }

    /** `p[i] = w` for `p` the start of virtual page `v`. */
    method Store(v: Page, i: int, w: Word) returns (r: Res<()>)
      requires Valid() && 0 <= i < 1024
      modifies ram
      ensures match Walk(old(Mem()), cr3, v)
              case None => r == Halt(PageFault) && Mem() == old(Mem())
              case Some(t) => r == Ok(()) && Mem() == old(Mem())[At(t.frame, i) := w]
    {
      var frame :- Translate(v);
      ram[At(frame, i)] := w;
      return Ok(());
    }

    /** A store with paging off. */
    method StorePhysical(frame: Page, i: int, w: Word)
      requires Valid() && 0 <= i < 1024
      modifies ram
      ensures Mem() == old(Mem())[At(frame, i) := w]
    {
      ram[At(frame, i)] := w;
    }
  }
}
