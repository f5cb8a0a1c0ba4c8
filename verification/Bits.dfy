/** Bitwise operators on naturals, defined bit by bit, and the facts about masks
    that the page tables, the printf flags and the VGA cells rest on. */
module Bits {

  /** C's `|`. */
  function Or(a: nat, b: nat): nat
    decreases a
  {
    if a == 0 then b
    else if b == 0 then a
    else 2 * Or(a / 2, b / 2) + (if a % 2 == 1 || b % 2 == 1 then 1 else 0)
  }

  /** C's `&`. */
  function And(a: nat, b: nat): nat
    decreases a
  {
    if a == 0 || b == 0 then 0
    else 2 * And(a / 2, b / 2) + (if a % 2 == 1 && b % 2 == 1 then 1 else 0)
  }

  /** Bit `k` of `a`. */
  predicate Bit(a: nat, k: nat)
    decreases k
  {
    if k == 0 then a % 2 == 1 else Bit(a / 2, k - 1)
  }

  /** C's `a >> k`. */
  function Shr(a: nat, k: nat): nat
    decreases k, a
  {
    if k == 0 then a else Shr(a / 2, k - 1)
  }

  /** The low `k` bits of `a`. */
  function Low(a: nat, k: nat): nat
    decreases k, a
  {
    if k == 0 then 0 else 2 * Low(a / 2, k - 1) + a % 2
  }

  /** C's `a << k`. */
  function Shl(a: nat, k: nat): nat
    decreases k, a
  {
    if k == 0 then a else 2 * Shl(a, k - 1)
  }

  /** A mask of `n` ones. */
  function Ones(n: nat): nat
  {
    if n == 0 then 0 else 2 * Ones(n - 1) + 1
  }

  // ---------------------------------------------------------------------------
  // Or and And are the bitwise operators
  // ---------------------------------------------------------------------------

  lemma {:induction false} ZeroBits(k: nat)
    ensures !Bit(0, k)
  {
    if k > 0 { ZeroBits(k - 1); }
  }

  lemma {:induction false} OrBits(a: nat, b: nat, k: nat)
    ensures Bit(Or(a, b), k) <==> Bit(a, k) || Bit(b, k)
    decreases k
  {
    if a == 0 || b == 0 {
      ZeroBits(k);
    } else if k > 0 {
      OrBits(a / 2, b / 2, k - 1);
    }
  }

  lemma {:induction false} AndBits(a: nat, b: nat, k: nat)
    ensures Bit(And(a, b), k) <==> Bit(a, k) && Bit(b, k)
    decreases k
  {
    if a == 0 || b == 0 {
      ZeroBits(k);
    } else if k > 0 {
      AndBits(a / 2, b / 2, k - 1);
    }
  }

  /** Two naturals with the same bits are equal. */
  lemma {:induction false} SameBits(a: nat, b: nat)
    requires forall k: nat :: Bit(a, k) == Bit(b, k)
    ensures a == b
    decreases a + b
  {
    if a != 0 || b != 0 {
      assert Bit(a, 0) == Bit(b, 0);
      forall k: nat ensures Bit(a / 2, k) == Bit(b / 2, k) {
        assert Bit(a, k + 1) == Bit(b, k + 1);
      }
      SameBits(a / 2, b / 2);
    }
  }

  lemma {:induction false} OrGrows(a: nat, b: nat)
    ensures Or(a, b) >= a
    decreases a
  {
    if a != 0 && b != 0 { OrGrows(a / 2, b / 2); }
  }

  /** Every bit of `b` is set in `a`. */
  ghost predicate Subset(b: nat, a: nat) {
    forall k: nat :: Bit(b, k) ==> Bit(a, k)
  }

  /** `|` leaves `a` alone if and only if every bit of `b` is already set in `a`. */
  lemma {:induction false} OrAbsorbs(a: nat, b: nat)
    ensures Or(a, b) == a <==> Subset(b, a)
  {
    forall k: nat ensures Bit(Or(a, b), k) <==> Bit(a, k) || Bit(b, k) {
      OrBits(a, b, k);
    }
    if Subset(b, a) {
      SameBits(Or(a, b), a);
    }
  }

  // ---------------------------------------------------------------------------
  // Fields: the bits below and above a boundary do not interact
  // ---------------------------------------------------------------------------

  lemma {:induction false} OrHalf(a: nat, b: nat)
    ensures Or(a, b) / 2 == Or(a / 2, b / 2)
    ensures Or(a, b) % 2 == if a % 2 == 1 || b % 2 == 1 then 1 else 0
  {
  }

  lemma {:induction false} AndHalf(a: nat, b: nat)
    ensures And(a, b) == 2 * And(a / 2, b / 2) + (if a % 2 == 1 && b % 2 == 1 then 1 else 0)
  {
  }

  lemma {:induction false} LowHalf(a: nat, k: nat)
    requires k > 0
    ensures Low(a, k) / 2 == Low(a / 2, k - 1) && Low(a, k) % 2 == a % 2
  {
  }

  /** `|` works on the low `k` bits and on the rest separately. */
  lemma {:induction false} OrSplits(a: nat, b: nat, k: nat)
    ensures Shr(Or(a, b), k) == Or(Shr(a, k), Shr(b, k))
    ensures Low(Or(a, b), k) == Or(Low(a, k), Low(b, k))
    decreases k
  {
    if k > 0 {
      var a', b' := a / 2, b / 2;
      OrHalf(a, b);
      OrSplits(a', b', k - 1);
      LowHalf(a, k); LowHalf(b, k); LowHalf(Or(a, b), k);
      OrHalf(Low(a, k), Low(b, k));
    }
  }

  /** A mask of `n` ones keeps the low `n` bits. */
  lemma {:induction false} AndLowMask(a: nat, n: nat)
    ensures And(a, Ones(n)) == Low(a, n)
    decreases n
  {
    if n > 0 {
      AndHalf(a, Ones(n));
      AndLowMask(a / 2, n - 1);
    }
  }

  /** A mask with `k` trailing zeros clears the low `k` bits. */
  lemma {:induction false} AndShifted(a: nat, m: nat, k: nat)
    ensures And(a, Shl(m, k)) == Shl(And(Shr(a, k), m), k)
    decreases k
  {
    if k > 0 {
      AndHalf(a, Shl(m, k));
      AndShifted(a / 2, m, k - 1);
    }
  }

  // ---------------------------------------------------------------------------
  // The masks of include/paging.h
  // ---------------------------------------------------------------------------

  /** Shifting is division by a power of two, four bits at a time. */
  lemma {:induction false} ShiftSplit(a: nat, j: nat, k: nat)
    ensures Shr(a, j + k) == Shr(Shr(a, j), k)
    ensures Low(a, j + k) == Shl(Low(Shr(a, j), k), j) + Low(a, j)
    decreases j
  {
    if j > 0 {
      ShiftSplit(a / 2, j - 1, k);
    }
  }

  lemma {:induction false} ShlJoin(a: nat, j: nat, k: nat)
    ensures Shl(a, j + k) == Shl(Shl(a, j), k)
    decreases k
  {
    if k > 0 { ShlJoin(a, j, k - 1); }
  }

  lemma {:induction false} Shift2(a: nat)
    ensures Shr(a, 2) == a / 4 && Low(a, 2) == a % 4 && Shl(a, 2) == 4 * a
  {
    assert Shr(a, 2) == Shr(a / 2, 1);
    assert Low(a, 2) == 2 * Low(a / 2, 1) + a % 2;
    assert Shl(a, 2) == 2 * Shl(a, 1);
  }

  lemma {:induction false} Shift4(a: nat)
    ensures Shr(a, 4) == a / 16 && Low(a, 4) == a % 16 && Shl(a, 4) == 16 * a
  {
    ShiftSplit(a, 2, 2); ShlJoin(a, 2, 2);
    Shift2(a); Shift2(a / 4); Shift2(4 * a); Shift2(Low(a / 4, 2));
  }

  lemma {:induction false} Shift8(a: nat)
    ensures Shr(a, 8) == a / 0x100 && Low(a, 8) == a % 0x100 && Shl(a, 8) == 0x100 * a
  {
    ShiftSplit(a, 4, 4); ShlJoin(a, 4, 4);
    Shift4(a); Shift4(a / 16); Shift4(16 * a); Shift4(Low(a / 16, 4));
  }

  lemma {:induction false} Shift12(a: nat)
    ensures Shr(a, 12) == a / 0x1000 && Low(a, 12) == a % 0x1000 && Shl(a, 12) == 0x1000 * a
  {
    ShiftSplit(a, 8, 4); ShlJoin(a, 8, 4);
    Shift8(a); Shift4(a / 0x100); Shift4(0x100 * a); Shift8(Low(a / 0x100, 4));
  }

  lemma {:induction false} Shift20(a: nat)
    ensures Shr(a, 20) == a / 0x10_0000 && Low(a, 20) == a % 0x10_0000
  {
    ShiftSplit(a, 12, 8);
    Shift12(a); Shift8(a / 0x1000); Shift12(Low(a / 0x1000, 8));
  }

  lemma {:induction false} Shift32(a: nat)
    ensures Shr(a, 32) == a / 0x1_0000_0000
  {
    ShiftSplit(a, 12, 20);
    Shift12(a); Shift20(a / 0x1000);
  }

  lemma {:induction false} OnesJoin(j: nat, k: nat)
    ensures Ones(j + k) == Shl(Ones(j), k) + Ones(k)
    decreases k
  {
    if k > 0 { OnesJoin(j, k - 1); }
  }

  lemma OnesValues()
    ensures Ones(1) == 1 && Ones(12) == 0xfff && Ones(20) == 0xf_ffff
  {
    assert Ones(4) == 15;
    OnesJoin(4, 4); Shift4(Ones(4));
    OnesJoin(8, 4); Shift4(Ones(8));
    OnesJoin(12, 4); Shift4(Ones(12));
    OnesJoin(16, 4); Shift4(Ones(16));
  }

  lemma FrameMask()
    ensures Shl(Ones(20), 12) == 0xffff_f000
  {
    OnesValues(); Shift12(Ones(20));
  }

  lemma {:induction false} FrameField(w: nat)
    requires w < 0x1_0000_0000
    ensures Low(Shr(w, 12), 20) == w / 0x1000
  {
    Shift12(w); Shift20(w / 0x1000);
  }

  /** Masking with `n` ones above `k` zeros keeps `n` bits of `a >> k`. */
  lemma {:induction false} AndFieldMask(a: nat, k: nat, n: nat, mask: nat, field: nat)
    requires Shl(Ones(n), k) == mask && Low(Shr(a, k), n) == field
    ensures And(a, mask) == Shl(field, k)
  {
    AndShifted(a, Ones(n), k);
    AndLowMask(Shr(a, k), n);
  }

  /** `w & PAGE_ALIGN` is `w` rounded down to a page. */
  lemma {:induction false} AndPageAlign(w: nat)
    requires w < 0x1_0000_0000
    ensures And(w, 0xffff_f000) == w - w % 0x1000
  {
    FrameMask(); FrameField(w);
    Shift12(w / 0x1000);
    AndFieldMask(w, 12, 20, 0xffff_f000, w / 0x1000);
  }

  /** `w & ~PAGE_ALIGN` is the offset of `w` in its page. */
  lemma {:induction false} AndPageOffset(w: nat)
    ensures And(w, 0xfff) == w % 0x1000
  {
    OnesValues(); Shift12(w);
    AndLowMask(w, 12);
  }

  lemma {:induction false} AndOne(w: nat)
    ensures And(w, 1) == w % 2
  {
    OnesValues();
    AndLowMask(w, 1);
  }

  /** `|` acts on the frame and on the flags of a table entry separately. */
  lemma {:induction false} OrPageFields(a: nat, b: nat)
    ensures Or(a, b) / 0x1000 == Or(a / 0x1000, b / 0x1000)
    ensures Or(a, b) % 0x1000 == Or(a % 0x1000, b % 0x1000)
  {
    OrSplits(a, b, 12);
    Shift12(a); Shift12(b); Shift12(Or(a, b));
  }

  /** `|` of two 32-bit words is a 32-bit word. */
  lemma {:induction false} OrWord(a: nat, b: nat)
    requires a < 0x1_0000_0000 && b < 0x1_0000_0000
    ensures Or(a, b) < 0x1_0000_0000
  {
    Shift32(a); Shift32(b); Shift32(Or(a, b));
    OrSplits(a, b, 32);
  }
}
