/**
  The words of a page table: which bits map_page sets, which bits it reads
  back, and the four index macros.  Everything above this module sees a table
  word only as "present, and pointing at frame f".
 */
module PageWords {
  import opened Bits

  const PRESENT := 1
  const WRITABLE := 2
  const PAT := 128
  const ADDRESS_MASK := 0xF_FFFF_FFFF_F000
  const FRAME_LIMIT := 0x100_0000_0000
  const PAGE_LIMIT := 0x10_0000_0000

  type Index = i: nat | i < 512

  // ---------- Arithmetic readings, used by the model ----------

  predicate Present(w: nat) {
    w % 2 == 1
  }

  /** The frame number held in bits 12..51. */
  function FrameOf(w: nat): (frame: nat)
    ensures frame < FRAME_LIMIT
  {
    w / 0x1000 % FRAME_LIMIT
  }

  /** The entry that points at the table of a given address, present and writable. */
  function TableEntry(address: nat): Word {
    0x1000 * FrameOf(address) + 3
  }

  function LeafEntry(paddress: Word): Word {
    LeafEntryBound(paddress);
    Or(Or(Or(paddress, PAT), PRESENT), WRITABLE)
  }

  /** The 36-bit number of the page that contains a virtual address. */
  function PageOf(va: nat): (page: nat)
    ensures page < PAGE_LIMIT
  {
    va / 0x1000 % PAGE_LIMIT
  }

  // ---------- The kernel's own expressions ----------

  /** Each index macro, a shift and a mask of nine ones, is one base-512 digit of the page number. */
  lemma IndexMacros(va: nat)
    ensures var page := PageOf(va);
      && And(Shr(va, 39), 0x1ff) == page / 0x800_0000
      && And(Shr(va, 30), 0x1ff) == page / 0x4_0000 % 512
      && And(Shr(va, 21), 0x1ff) == page / 512 % 512
      && And(Shr(va, 12), 0x1ff) == page % 512
  {
    var x := va / 0x1000;
    ShiftsByNine(va);
    IndexMask(x / 0x800_0000);
    IndexMask(x / 0x4_0000);
    IndexMask(x / 512);
    IndexMask(x);
    Digit0(x);
    Digit9(x);
    Digit18(x);
    Digit27(x);
  }

  lemma ShiftsByNine(va: nat)
    ensures var x := va / 0x1000;
      Shr(va, 12) == x && Shr(va, 21) == x / 512 && Shr(va, 30) == x / 0x4_0000 && Shr(va, 39) == x / 0x800_0000
  {
    Powers();
    assert Pow2(20) == 0x10_0000 && Pow2(30) == 0x4000_0000;
    assert Pow2(21) == 0x20_0000 && Pow2(36) == PAGE_LIMIT && Pow2(39) == 0x80_0000_0000;
    hide Pow2, Shr;
    ShrIsDiv(va, 12);
    ShrIsDiv(va, 21);
    ShrIsDiv(va, 30);
    ShrIsDiv(va, 39);
  }

  lemma IndexMask(x: nat)
    ensures And(x, 0x1ff) == x % 512
  {
    assert Pow2(9) == 512;
    AndLowMask(x, 9);
  }

  lemma Digit0(x: nat)
    ensures x % 512 == x % PAGE_LIMIT % 512
  {
  }

  lemma HighPart(q: nat, c: nat)
    ensures (512 * q + c) % 512 == c % 512
  {
  }

  lemma Digit9(x: nat)
    ensures x / 512 % 512 == x % PAGE_LIMIT / 512 % 512
  {
    var q, r := x / PAGE_LIMIT, x % PAGE_LIMIT;
    var high := 0x4_0000 * q;
    assert x == PAGE_LIMIT * q + r;
    DivUnique(x, 512, 512 * high + r / 512, r % 512);
    HighPart(high, r / 512);
  }

  lemma Digit18(x: nat)
    ensures x / 0x4_0000 % 512 == x % PAGE_LIMIT / 0x4_0000 % 512
  {
    var q, r := x / PAGE_LIMIT, x % PAGE_LIMIT;
    var high := 512 * q;
    assert x == PAGE_LIMIT * q + r;
    DivUnique(x, 0x4_0000, 512 * high + r / 0x4_0000, r % 0x4_0000);
    HighPart(high, r / 0x4_0000);
  }

  lemma Digit27(x: nat)
    ensures x / 0x800_0000 % 512 == x % PAGE_LIMIT / 0x800_0000
  {
    var q, r := x / PAGE_LIMIT, x % PAGE_LIMIT;
    assert x == PAGE_LIMIT * q + r;
    DivUnique(x, 0x800_0000, 512 * q + r / 0x800_0000, r % 0x800_0000);
    HighPart(q, r / 0x800_0000);
  }

  lemma PresentBit(w: nat)
    ensures And(w, PRESENT) != 0 <==> Present(w)
  {
    assert Pow2(1) == 2;
    AndLowMask(w, 1);
  }

  lemma AddressBits(w: nat)
    ensures And(w, ADDRESS_MASK) == 0x1000 * FrameOf(w)
  {
    hide And, Shl, Shr, Pow2;
    Powers();
    ShlTwelve(FRAME_LIMIT - 1);
    AndShifted(w, FRAME_LIMIT - 1, 12);
    ShrIsDiv(w, 12);
    AndLowMask(w / 0x1000, 40);
    ShlTwelve(w / 0x1000 % FRAME_LIMIT);
  }

  lemma SetTwoLowBits(g: nat)
    ensures Or(Or(4 * g, PRESENT), WRITABLE) == 4 * g + 3
  {
    assert Or(2 * (2 * g), 1) == 1 + 4 * g;
    assert (1 + 4 * g) / 2 == 2 * g;
    assert Or(1 + 4 * g, 2) == 1 + 2 * Or(2 * g, 1);
  }

  lemma TableEntryBits(address: nat)
    ensures Or(Or(And(address, ADDRESS_MASK), PRESENT), WRITABLE) == TableEntry(address)
  {
    AddressBits(address);
    SetTwoLowBits(0x400 * FrameOf(address));
  }

  lemma LeafEntryBound(paddress: Word)
    ensures Or(paddress, PAT) < WORD_LIMIT && Or(Or(paddress, PAT), PRESENT) < WORD_LIMIT
    ensures Or(Or(Or(paddress, PAT), PRESENT), WRITABLE) < WORD_LIMIT
  {
    Powers();
    OrBound(paddress, PAT, 64);
    OrBound(Or(paddress, PAT), PRESENT, 64);
    OrBound(Or(Or(paddress, PAT), PRESENT), WRITABLE, 64);
  }

  /** Setting the flag bits of a leaf leaves the address bits of the physical address alone. */
  lemma LeafEntryWord(paddress: Word)
    ensures Present(LeafEntry(paddress)) && FrameOf(LeafEntry(paddress)) == FrameOf(paddress)
  {
    var a := Or(paddress, PAT);
    var b := Or(a, PRESENT);
    LeafEntryBound(paddress);
    AndOr(paddress, PAT, ADDRESS_MASK);
    AndOr(a, PRESENT, ADDRESS_MASK);
    AndOr(b, WRITABLE, ADDRESS_MASK);
    AddressBits(PAT);
    AddressBits(PRESENT);
    AddressBits(WRITABLE);
    AddressBits(paddress);
    AddressBits(LeafEntry(paddress));
    AndOr(b, WRITABLE, PRESENT);
    AndOr(a, PRESENT, PRESENT);
    PresentBit(b);
    PresentBit(LeafEntry(paddress));
  }

  // ---------- Every bit of the two kinds of entry ----------

  lemma FlagBits(k: nat)
    ensures Bit(PRESENT, k) <==> k == 0
    ensures Bit(WRITABLE, k) <==> k == 1
    ensures Bit(PAT, k) <==> k == 7
  {
    assert Pow2(0) == 1 && Pow2(1) == 2 && Pow2(7) == 128;
    OneBit(0, k);
    OneBit(1, k);
    OneBit(7, k);
  }

  /** A leaf has the bits of its physical address, all 64 of them, and bits 0, 1 and 7. */
  lemma LeafBits(paddress: Word, k: nat)
    ensures Bit(LeafEntry(paddress), k) <==> Bit(paddress, k) || k in [0, 1, 7]
  {
    hide Or, Shr, Bit;
    FlagBits(k);
    OrBit(paddress, PAT, k);
    OrBit(Or(paddress, PAT), PRESENT, k);
    OrBit(Or(Or(paddress, PAT), PRESENT), WRITABLE, k);
  }

  /** An entry for a table has bits 12 to 51 of its address, and bits 0 and 1. */
  lemma TableBits(address: nat, k: nat)
    ensures Bit(TableEntry(address), k) <==> (12 <= k < 52 && Bit(address, k)) || k in [0, 1]
  {
    hide And, Or, Shr, Bit, Shl, Pow2;
    TableEntryBits(address);
    FlagBits(k);
    Powers();
    ShlTwelve(Pow2(40) - 1);
    MaskBit(40, 12, k);
    AndBit(address, ADDRESS_MASK, k);
    OrBit(And(address, ADDRESS_MASK), PRESENT, k);
    OrBit(Or(And(address, ADDRESS_MASK), PRESENT), WRITABLE, k);
  }

  /** The leaf of a page-aligned address below 2^52. */
  lemma AlignedLeaf(f: nat)
    requires f < FRAME_LIMIT
    ensures LeafEntry(0x1000 * f) == 0x1000 * f + 0x83
  {
    hide Or, Shl, Pow2;
    Powers();
    ShlTwelve(f);
    OrDisjoint(f, PAT, 12);
    SetTwoLowBits(0x400 * f + 32);
  }
}
