/** From an address range to a region: log2roundup (opensbi-1.2/lib/sbi/sbi_math.c) and
    sbi_domain_memregion_init (opensbi-1.2/lib/sbi/sbi_domain.c). */
module RegionInit {
  import opened Common
  import opened Bits
  import opened Domain

  method Log2RoundUp(x: Word) returns (r: nat)
    ensures r <= 64 && (forall s: nat | s < r :: x > Pow2(s)) && (r < 64 ==> x <= Pow2(r))
  {
    r := 0;
    while r < 64
      invariant r <= 64 && forall s: nat | s < r :: x > Pow2(s)
    {
      if x <= Pow2(r) {
        return;
      }
      r := r + 1;
    }
  }

  function Down(x: nat, p: nat): nat
    requires p > 0
  {
    p * (x / p)
  }

  /** The start of the block of size 2^o around an address. */
  function BlockBase(addr: Word, o: nat): nat { Down(addr, Pow2(o)) }

  /** The test of the loop, on words. */
  predicate Accepts(addr: Word, size: Word, o: nat) {
    var base := BlockBase(addr, o);
    var last := (addr + size + WORD_END - 1) % WORD_END;
    var end := (base + Pow2(o)) % WORD_END;
    base <= addr < end && base <= last < end
  }

  /** The region has the least order that is large enough and passes the test, or is the whole memory. */
  ghost predicate Chosen(addr: Word, size: Word, reg: Region) {
    && reg.order <= 64
    && (reg.order < 64 ==>
          size <= Pow2(reg.order) && Accepts(addr, size, reg.order) && reg.base == BlockBase(addr, reg.order))
    && (reg.order == 64 ==> reg.base == 0)
    && forall o: nat | o < reg.order :: size > Pow2(o) || !Accepts(addr, size, o)
  }

  /** sbi_domain_memregion_init: the least order from log2roundup(size) on that passes the test, or
      the whole memory. */
  method MemregionInit(addr: Word, size: Word, flags: Flags) returns (reg: Region)
    ensures Chosen(addr, size, reg) && reg.flags == flags
  {
    hide Accepts, BlockBase, Pow2;
    var order := Log2RoundUp(size);
    var base: Word := 0;
    while true
      invariant order <= 64 && (order < 64 ==> size <= Pow2(order))
      invariant forall o: nat | o < order :: size > Pow2(o) || !Accepts(addr, size, o)
      decreases 64 - order
    {
      if order == 64 {
        base := 0;
        break;
      }
      BlockInside(addr, order);
      base := BlockBase(addr, order);
      if Accepts(addr, size, order) {
        break;
      }
      Pow2Step(order);
      order := order + 1;
    }
    reg := Region(base, order, flags);
  }

  lemma BlockInside(addr: Word, o: nat)
    requires o <= 64
    ensures 0 <= BlockBase(addr, o) <= addr < BlockBase(addr, o) + Pow2(o) <= WORD_END
  {
    hide Pow2;
    var p := Pow2(o);
    Pow2Divides(o);
    assert addr == p * (addr / p) + addr % p;
    Steps(p, addr / p, WORD_END / p);
  }

  // ---------------------------------------------------------------- what the region is good for

  /** The block of size 2^o around addr holds the whole range. */
  ghost predicate Covers(addr: Word, last: Word, o: nat) { BlockBase(addr, o) <= last < BlockBase(addr, o) + Pow2(o) }

  /** Order o gives the smallest block that holds the range. */
  ghost predicate Smallest(addr: Word, last: Word, o: nat) {
    o <= 64 && Covers(addr, last, o) && forall s: nat | s < o :: !Covers(addr, last, s)
  }

  /** For a range that does not wrap, the test is passed by the blocks that hold it, except those
      that reach the end of memory. */
  lemma AcceptsExactly(addr: Word, size: Word, o: nat)
    requires o < 64 && size >= 1 && addr + size <= WORD_END
    ensures Accepts(addr, size, o) <==> Covers(addr, addr + size - 1, o) && BlockBase(addr, o) + Pow2(o) < WORD_END
    ensures Covers(addr, addr + size - 1, o) ==> size <= Pow2(o)
  {
    hide BlockBase, Pow2;
    BlockInside(addr, o);
  }

  /** A block around a block that reaches the end of memory reaches it too. */
  lemma {:induction false} TopStays(addr: Word, o: nat, o': nat)
    requires o <= o' <= 64 && BlockBase(addr, o) + Pow2(o) == WORD_END
    ensures BlockBase(addr, o') + Pow2(o') == WORD_END
    decreases o' - o
  {
    if o < o' {
      TopStays(addr, o, o' - 1);
      TopNext(addr, o' - 1);
    }
  }

  lemma TopNext(addr: Word, o: nat)
    requires o < 64 && BlockBase(addr, o) + Pow2(o) == WORD_END
    ensures BlockBase(addr, o + 1) + Pow2(o + 1) == WORD_END
  {
    hide Pow2;
    var p, n := Pow2(o + 1), WORD_END / Pow2(o + 1);
    Pow2Step(o);
    Pow2Divides(o + 1);
    assert p * (n - 1) == WORD_END - p;
    BlockInside(addr, o);
    Quotient(addr, n - 1, p);
  }

  /** The whole memory is a block. */
  lemma WholeCovers(addr: Word, last: Word)
    ensures Covers(addr, last, 64)
  {
    hide Pow2;
    Pow2Word();
    Quotient(addr, 0, WORD_END);
  }

  lemma SmallestExists(addr: Word, last: Word) returns (o: nat)
    ensures Smallest(addr, last, o)
  {
    hide Covers;
    WholeCovers(addr, last);
    o := 0;
    while !Covers(addr, last, o)
      invariant o <= 64 && forall s: nat | s < o :: !Covers(addr, last, s)
      decreases 64 - o
    {
      o := o + 1;
    }
  }

  /** The region is the smallest one around the range exactly when that one, which always exists, is
      the whole memory or does not reach the end of memory; otherwise the whole memory comes out. */
  lemma SmallestExactly(addr: Word, size: Word, reg: Region) returns (o: nat)
    requires size >= 1 && addr + size <= WORD_END && Chosen(addr, size, reg)
    ensures Smallest(addr, addr + size - 1, o)
    ensures reg.order == o <==> o == 64 || BlockBase(addr, o) + Pow2(o) < WORD_END
    ensures reg.order != o ==> reg.order == 64
  {
    hide Accepts, BlockBase, Pow2;
    o := SmallestExists(addr, addr + size - 1);
    BlockInside(addr, o);
    if reg.order < 64 {
      AcceptsExactly(addr, size, reg.order);
    }
    if o < 64 {
      AcceptsExactly(addr, size, o);
      if BlockBase(addr, o) + Pow2(o) == WORD_END && o <= reg.order {
        TopStays(addr, o, reg.order);
      }
    }
  }

  lemma LastPageBlocks(o: nat)
    requires o <= 12
    ensures o == 12 ==> BlockBase(0xffff_ffff_ffff_f000, o) == 0xffff_ffff_ffff_f000 && Pow2(o) == 4096
    ensures o < 12 ==> Pow2(o) < 4096
  {
    hide Pow2;
    assert Pow2(12) == 4096 by { TwelveBits(); }
    if o < 12 {
      Pow2Less(o, 12);
    }
  }

  lemma TwelveBits()
    ensures Pow2(12) == 4096
  {
    assert Pow2(4) == 16;
    assert Pow2(8) == 256;
  }

  /** The last page of memory is a block of order 12, but the whole memory comes out. */
  lemma LastPageGivesAll(reg: Region)
    requires Chosen(0xffff_ffff_ffff_f000, 0x1000, reg)
    ensures Smallest(0xffff_ffff_ffff_f000, 0xffff_ffff_ffff_ffff, 12) && reg.order == 64
  {
    hide Accepts, BlockBase, Pow2, Chosen;
    var addr: Word := 0xffff_ffff_ffff_f000;
    var o := SmallestExactly(addr, 0x1000, reg);
    LastPageBlocks(12);
    forall s: nat | s < 12
      ensures !Covers(addr, 0xffff_ffff_ffff_ffff, s)
    {
      LastPageBlocks(s);
      BlockInside(addr, s);
    }
  }

  /** One byte, unless it is the last of memory, gives a region of order 0. */
  lemma OneByteGivesOrderZero(addr: Word, reg: Region)
    requires Chosen(addr, 1, reg)
    ensures addr < WORD_END - 1 <==> reg.order == 0
  {
    hide Accepts, BlockBase, Pow2;
    Pow2Step(0);
    BlockInside(addr, 0);
    AcceptsExactly(addr, 1, 0);
  }
}
