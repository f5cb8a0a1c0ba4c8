/** 32-bit words, page arithmetic (include/paging.h) and the halting outcome of `panic`. */
module Words {
  import opened Bits

  const WORD_LIMIT := 0x1_0000_0000
  type Word = w: int | 0 <= w < 0x1_0000_0000
  const PAGE_SIZE := 0x1000
  const PAGE_ALIGN := 0xffff_f000
  const NOT_ALIGNED := 0xfff
  const PAGE_ENTRIES := 1024
  const PAGE_TABLE_SIZE := 0x1000
  const PAGE_ENTRY_PRESENT := 1
  const PAGE_ENTRY_RW := 2

  /** Why a run stopped. Every reason is a call of `panic`, which never returns. */
  datatype Reason =
    | AssertionFailed   // ASSERT(...) was false
    | PageFault         // interrupt 14: no translation for an access
    | OutOfMemory       // kmalloc_early ran past maxBase
    | NotInitialised    // kmalloc_early before kmalloc_early_init

  /** The result of code that may call `panic`. */
  datatype Res<+T> = Ok(value: T) | Halt(why: Reason) {
    predicate IsFailure() { Halt? }
    function PropagateFailure<U>(): Res<U>
      requires Halt?
    {
      Halt(why)
    }
    function Extract(): T
      requires Ok?
    {
      value
    }
  }

  datatype Option<+T> = None | Some(value: T)

  /** 32-bit unsigned addition. */
  function Add32(a: Word, b: Word): Word {
    if a + b < WORD_LIMIT then a + b else a + b - WORD_LIMIT
  }

  lemma Add32IsModular(a: Word, b: Word)
    ensures Add32(a, b) == (a + b) % WORD_LIMIT
  {
    if a + b >= WORD_LIMIT {
      assert (a + b) / WORD_LIMIT == 1;
    }
  }

  /** `w & PAGE_ALIGN`; see `Masks`. */
  function RoundDown(w: Word): Word {
    w / PAGE_SIZE * PAGE_SIZE
  }

  /** `w & NOT_ALIGNED`; see `Masks`. */
  function PageOffset(w: Word): Word {
    w % PAGE_SIZE
  }

  predicate Aligned(w: Word) {
    PageOffset(w) == 0
  }

  /** `w & PAGE_ENTRY_PRESENT`; see `Masks`. */
  function PresentBit(w: Word): Word {
    w % 2
  }

  predicate IsPresent(w: Word) {
    PresentBit(w) != 0
  }

  /** The masks of include/paging.h, bit by bit. */
  lemma {:induction false} Masks(w: Word)
    ensures RoundDown(w) == And(w, PAGE_ALIGN)
    ensures PageOffset(w) == And(w, NOT_ALIGNED)
    ensures PresentBit(w) == And(w, PAGE_ENTRY_PRESENT)
  {
    AndPageAlign(w);
    AndPageOffset(w);
    AndOne(w);
  }

  /** The macro `PAGE_ALIGN_UP`, with its 32-bit wrap in the last page. */
  function PageAlignUp(w: Word): (r: Word)
    ensures w <= 0xffff_f000 ==> r % PAGE_SIZE == 0 && w <= r < w + PAGE_SIZE
    ensures w > 0xffff_f000 ==> r == 0
  {
    if !Aligned(w) then Add32(RoundDown(w), PAGE_SIZE) else w
  }

  /** The macro `PAGES_PER_MB`. */
  function PagesPerMb(mb: nat): Word
    requires mb * 1024 * 1024 < WORD_LIMIT
  {
    PageAlignUp(mb * 1024 * 1024) / PAGE_SIZE
  }

  /** `a | (b & PAGE_ENTRY_PRESENT)`; see `OrPresentIsOr`. */
  function OrPresent(a: Word, b: Word): Word {
    if a % 2 == 1 then a else a + PresentBit(b)
  }

  lemma {:induction false} OrPresentIsOr(a: Word, b: Word)
    ensures OrPresent(a, b) == Or(a, And(b, PAGE_ENTRY_PRESENT))
  {
    AndOne(b);
    OrHalf(a, b % 2);
  }

  /** `a | b`. */
  function Or32(a: Word, b: Word): (r: Word)
    ensures r / PAGE_SIZE == Or(a / PAGE_SIZE, b / PAGE_SIZE)
    ensures r % PAGE_SIZE == Or(a % PAGE_SIZE, b % PAGE_SIZE)
    ensures r % 2 == 1 <==> a % 2 == 1 || b % 2 == 1
  {
    OrWord(a, b);
    OrPageFields(a, b);
    OrHalf(a, b);
    Or(a, b)
  }
}
