/** Loading an ELF image into a fresh address space (load_segment of os/src/loader.c). */
module Loader {
  import opened Common
  import opened Bits
  import opened Sv39
  import opened KernelMemory
  import opened AddressSpace

  const VA_END: nat := VPN_END * PAGE_SIZE

  /** A program header and the file contents behind it, one frame for each page it occupies. */
  datatype Segment = Segment(load: bool, vaddr: Word, memsz: Word, flags: nat, image: seq<Frame>)

  /** PGROUNDUP on 64-bit words. */
  function RoundUp(x: Word): Word { (x + 4095) % WORD_END / 4096 * 4096 }

  /** flags_to_mmap_prot with PTE_U: ELF has X, W, R in bits 0..2, a page-table entry has R, W, X
      in bits 1..3. */
  function Prot(flags: nat): (r: nat)
    ensures r < 32 && r % 2 == 0
  {
    (if flags / 4 % 2 == 1 then PTE_R else 0) + (if flags / 2 % 2 == 1 then PTE_W else 0)
      + (if flags % 2 == 1 then PTE_X else 0) + PTE_U
  }

  function PageCount(seg: Segment): nat { RoundUp(seg.memsz) / 4096 }

  /** The address of the k-th page of a segment, cut to 39 bits, and the page it lies on. */
  function SegVa(seg: Segment, k: nat): (va: nat)
    ensures va < VA_END
  {
    (seg.vaddr + k * 4096) % VA_END
  }

  function SegVpn(seg: Segment, k: nat): nat { SegVa(seg, k) / 4096 }

  predicate Unaligned(seg: Segment) { seg.vaddr % 4096 != 0 }

  /** The pages that loading page b of a segment maps: one, or two at an address inside a page. */
  predicate Claims(seg: Segment, b: nat, v: nat) {
    v == SegVpn(seg, b) || (Unaligned(seg) && v == SegVpn(seg, b) + 1)
  }

  lemma SegPlace(seg: Segment, k: nat)
    ensures SegVa(seg, k) / PAGE_SIZE == SegVpn(seg, k) < VPN_END
    ensures SegVa(seg, k) % PAGE_SIZE == 0 <==> !Unaligned(seg)
    ensures PageEnd(SegVa(seg, k)) == SegVpn(seg, k) + if Unaligned(seg) then 2 else 1
    ensures VA_END == VPN_END * PAGE_SIZE && PAGE_SIZE == 4096
  {
    var w := seg.vaddr + k * 4096;
    var q := w / VA_END;
    assert SegVa(seg, k) == w - q * VA_END;
    assert SegVa(seg, k) == seg.vaddr + 4096 * (k - q * VPN_END);
    assert SegVa(seg, k) % 4096 == seg.vaddr % 4096;
  }

  /** Where the last loaded segment ends; `before` is the task's old value when there is none. */
  function LastEnd(segs: seq<Segment>, before: Word): Word {
    if segs == [] then before
    else
      var seg := segs[|segs| - 1];
      if seg.load then (seg.vaddr + seg.memsz) % WORD_END else LastEnd(segs[..|segs| - 1], before)
  }

  /** Two pages past the rounded end: a guard page and the stack. */
  function StackEnd(ustack: Word): Word { (8192 + RoundUp(ustack)) % WORD_END }

  /** base_size after loading. */
  function Base(segs: seq<Segment>, before: Word): Word { StackEnd(LastEnd(segs, before)) }

  function StackVa(base: Word): (va: nat)
    ensures va < VA_END
  {
    ((base + WORD_END - 4096) % WORD_END) % VA_END
  }

  function StackVpn(base: Word): nat { StackVa(base) / 4096 }

  /** Page b of segment a is one that has been loaded when the loops stand at (i, k). */
  predicate Before(segs: seq<Segment>, i: nat, k: nat, a: nat, b: nat) {
    a < |segs| && segs[a].load && b < PageCount(segs[a]) && (a < i || (a == i && b < k))
  }

  ghost predicate LoadedBefore(segs: seq<Segment>, i: nat, k: nat, v: nat) {
    exists a: nat, b: nat :: Before(segs, i, k, a, b) && SegVpn(segs[a], b) == v
  }

  /** Page v was mapped as the second page of a segment that is not aligned. */
  ghost predicate StrayBefore(segs: seq<Segment>, i: nat, k: nat, v: nat) {
    exists a: nat, b: nat :: Before(segs, i, k, a, b) && Unaligned(segs[a]) && v == SegVpn(segs[a], b) + 1
  }

  ghost function Strays(segs: seq<Segment>, i: nat, k: nat): iset<nat> { iset v: nat | StrayBefore(segs, i, k, v) }

  /** Exactly the pages loaded so far belong to the space, each with its segment's contents and
      permissions. */
  ghost predicate Loaded(mem: Memory, loc: Plan, root: nat, segs: seq<Segment>, i: nat, k: nat)
    requires PlanOk(mem, loc) && ImagesOk(segs)
  {
    && (forall v: nat :: Page(root, v) in loc ==> LoadedBefore(segs, i, k, v))
    && (forall a: nat, b: nat | Before(segs, i, k, a, b) :: SegPageIs(mem, loc, root, segs[a], b))
  }

  /** Page b of a segment is the space's own, with the file's contents; the page after it, if the
      segment is not aligned, is mapped to the frame after that one. */
  ghost predicate SegPageIs(mem: Memory, loc: Plan, root: nat, seg: Segment, b: nat)
    requires PlanOk(mem, loc) && b < |seg.image|
  {
    var v := SegVpn(seg, b);
    && PageIs(mem, loc, root, v, seg.image[b], Prot(seg.flags) + PTE_V)
    && (Unaligned(seg) ==> Leaf(mem, loc, root, v + 1) == NewPte(loc[Page(root, v)] + 1, Prot(seg.flags) + PTE_V))
  }

  ghost predicate PageIs(mem: Memory, loc: Plan, root: nat, v: nat, data: Frame, flags: nat)
    requires PlanOk(mem, loc)
  {
    && Page(root, v) in loc
    && mem[loc[Page(root, v)]] == data
    && PteFlags(Leaf(mem, loc, root, v)) == flags
  }

  ghost predicate ImagesOk(segs: seq<Segment>) {
    forall a | 0 <= a < |segs| ::
      |segs[a].image| == PageCount(segs[a]) && forall b | 0 <= b < |segs[a].image| :: |segs[a].image[b]| == ENTRIES
  }

  /** The condition, visible in the program headers, under which everything that was loaded belongs
      to the space and lies below base_size: every loaded segment starts on a page boundary and ends
      at base_size or before. */
  predicate Fits(segs: seq<Segment>, before: Word) {
    var base := Base(segs, before);
    && 4096 <= base <= TRAP_VPN * 4096
    && forall a | 0 <= a < |segs| && segs[a].load && PageCount(segs[a]) > 0 ::
         !Unaligned(segs[a]) && segs[a].vaddr % VA_END + PageCount(segs[a]) * 4096 <= base
  }

  lemma BaseAligned(segs: seq<Segment>, before: Word)
    ensures Base(segs, before) % 4096 == 0
  {
    var up := RoundUp(LastEnd(segs, before));
    assert up % 4096 == 0;
    assert Base(segs, before) == 8192 + up || Base(segs, before) == 8192 + up - WORD_END;
  }

  /** A segment ends below a bound exactly when all its pages do. */
  lemma EndBounds(seg: Segment, pages: nat)
    requires PageCount(seg) > 0 && !Unaligned(seg) && pages <= TRAP_VPN
    ensures seg.vaddr % VA_END + PageCount(seg) * 4096 <= pages * 4096 <==>
      forall b: nat | b < PageCount(seg) :: SegVpn(seg, b) < pages
  {
    hide PageCount;
    var first, n := seg.vaddr % VA_END / 4096, PageCount(seg);
    assert seg.vaddr % VA_END == first * 4096;
    forall b: nat | first + b < VPN_END
      ensures SegVpn(seg, b) == first + b
    {
      NoCut(seg.vaddr, first, b);
    }
    if first + n > pages {
      var b := if first >= pages then 0 else pages - first;
      assert SegVpn(seg, b) == first + b >= pages;
    }
  }

  lemma NoCut(vaddr: nat, first: nat, b: nat)
    requires vaddr % VA_END == first * 4096 && first + b < VPN_END
    ensures (vaddr + b * 4096) % VA_END / 4096 == first + b
  {
    var q := vaddr / VA_END;
    assert vaddr + b * 4096 == VA_END * q + (first + b) * 4096;
    DivMod(vaddr + b * 4096, VA_END, q, (first + b) * 4096);
  }

  /** The bound page by page. */
  lemma FitsByPage(segs: seq<Segment>, before: Word)
    ensures Fits(segs, before) <==>
      && 1 <= Base(segs, before) / 4096 <= TRAP_VPN
      && (forall a: nat, b: nat | Before(segs, |segs|, 0, a, b) ::
            !Unaligned(segs[a]) && SegVpn(segs[a], b) < Base(segs, before) / 4096)
  {
    hide Base, PageCount, SegVpn, Unaligned;
    var base := Base(segs, before);
    BaseAligned(segs, before);
    var pages := base / 4096;
    assert base == pages * 4096;
    if pages <= TRAP_VPN {
      forall a: nat | a < |segs| && segs[a].load && PageCount(segs[a]) > 0
        ensures Before(segs, |segs|, 0, a, 0)
        ensures !Unaligned(segs[a]) ==>
          (segs[a].vaddr % VA_END + PageCount(segs[a]) * 4096 <= base <==>
           forall b: nat | b < PageCount(segs[a]) :: SegVpn(segs[a], b) < pages)
      {
        if !Unaligned(segs[a]) {
          EndBounds(segs[a], pages);
        }
      }
      assert forall a: nat, b: nat | a < |segs| && segs[a].load && b < PageCount(segs[a]) ::
        Before(segs, |segs|, 0, a, b);
    }
  }

  /** Page v, which page b of segment a claims, is also claimed by one loaded earlier or by the
      stack, or it is the trap page or the trampoline: mapping it fails. */
  ghost predicate Taken(segs: seq<Segment>, a: nat, b: nat, v: nat, base: Word) {
    v >= TRAP_VPN || v == StackVpn(base) || ClaimedBefore(segs, a, b, v)
  }

  ghost predicate ClaimedBefore(segs: seq<Segment>, i: nat, k: nat, v: nat) {
    exists a: nat, b: nat :: Before(segs, i, k, a, b) && Claims(segs[a], b, v)
  }

  ghost predicate Overlaps(segs: seq<Segment>, base: Word) {
    || StackVpn(base) >= TRAP_VPN
    || (exists a: nat, b: nat, v: nat ::
          Before(segs, |segs|, 0, a, b) && Claims(segs[a], b, v) && Taken(segs, a, b, v, base))
  }

  /** So far no page was claimed twice. */
  ghost predicate ApartSoFar(segs: seq<Segment>, i: nat, k: nat) {
    forall a: nat, b: nat, v: nat | Before(segs, i, k, a, b) && Claims(segs[a], b, v) ::
      v < TRAP_VPN && !ClaimedBefore(segs, a, b, v)
  }

  /** What is claimed is mapped, and nothing else below the trap page. */
  lemma ClaimedIsMapped(mem: Memory, loc: Plan, root: nat, segs: seq<Segment>, i: nat, k: nat, trap: nat,
                        trampoline: nat, v: nat)
    requires SpaceBut(mem, loc, root, TRAP_VPN, trap, trampoline, Strays(segs, i, k))
    requires ImagesOk(segs) && Loaded(mem, loc, root, segs, i, k)
    ensures v < VPN_END ==> (IsValid(Leaf(mem, loc, root, v)) <==> v >= TRAP_VPN || ClaimedBefore(segs, i, k, v))
    ensures ClaimedBefore(segs, i, k, v) ==> v < TRAP_VPN
  {
    hide Shape, SegVpn, PageCount, Prot, Leaf, Unaligned;
    if v in Strays(segs, i, k) {
      assert StrayOk(mem, loc, root, TRAP_VPN, v);
      var a: nat, b: nat :| Before(segs, i, k, a, b) && Unaligned(segs[a]) && v == SegVpn(segs[a], b) + 1;
      assert Claims(segs[a], b, v);
    } else {
      assert PageOk(mem, loc, root, TRAP_VPN, trap, trampoline, v);
      if Page(root, v) in loc {
        var a: nat, b: nat :| Before(segs, i, k, a, b) && SegVpn(segs[a], b) == v;
        assert Claims(segs[a], b, v);
      }
      if ClaimedBefore(segs, i, k, v) {
        var a: nat, b: nat :| Before(segs, i, k, a, b) && Claims(segs[a], b, v);
        assert v == SegVpn(segs[a], b);
        assert SegPageIs(mem, loc, root, segs[a], b);
      }
    }
  }

  /** A page is found mapped exactly when the program headers overlap there. */
  lemma MappedMeansOverlap(mem: Memory, loc: Plan, root: nat, segs: seq<Segment>, i: nat, k: nat, trap: nat,
                           trampoline: nat, base: Word)
    requires SpaceBut(mem, loc, root, TRAP_VPN, trap, trampoline, Strays(segs, i, k))
    requires ImagesOk(segs) && Loaded(mem, loc, root, segs, i, k) && ApartSoFar(segs, i, k)
    requires i < |segs| && segs[i].load && k < PageCount(segs[i])
    ensures var va := SegVa(segs[i], k);
      && (SomeMapped(mem, loc, root, va / PAGE_SIZE, PageEnd(va)) ==> Overlaps(segs, base))
      && (!SomeMapped(mem, loc, root, va / PAGE_SIZE, PageEnd(va)) ==> ApartSoFar(segs, i, k + 1))
  {
    hide Shape, Leaf, SegVpn, PageCount, Prot, Unaligned, PageEnd, SpaceBut, Loaded, SegVa;
    SegPlace(segs[i], k);
    var va := SegVa(segs[i], k);
    assert Before(segs, |segs|, 0, i, k);
    if v: nat :| va / PAGE_SIZE <= v < PageEnd(va) && IsValid(Leaf(mem, loc, root, v)) {
      assert Claims(segs[i], k, v);
      if v < VPN_END {
        ClaimedIsMapped(mem, loc, root, segs, i, k, trap, trampoline, v);
      }
      assert Taken(segs, i, k, v, base);
    }
    if !SomeMapped(mem, loc, root, va / PAGE_SIZE, PageEnd(va)) {
      ClaimedIsMapped(mem, loc, root, segs, i, k, trap, trampoline, SegVpn(segs[i], k));
      assert !IsValid(Leaf(mem, loc, root, SegVpn(segs[i], k)));
      forall v: nat | Claims(segs[i], k, v)
        ensures v < TRAP_VPN && !ClaimedBefore(segs, i, k, v)
      {
        ClaimedIsMapped(mem, loc, root, segs, i, k, trap, trampoline, v);
      }
    }
  }

  lemma StackMeansOverlap(mem: Memory, loc: Plan, root: nat, segs: seq<Segment>, trap: nat, trampoline: nat, base: Word)
    requires SpaceBut(mem, loc, root, TRAP_VPN, trap, trampoline, Strays(segs, |segs|, 0)) && base % 4096 == 0
    requires ImagesOk(segs) && Loaded(mem, loc, root, segs, |segs|, 0) && ApartSoFar(segs, |segs|, 0)
    ensures SomeMapped(mem, loc, root, StackVa(base) / PAGE_SIZE, PageEnd(StackVa(base))) <==> Overlaps(segs, base)
  {
    hide Shape, Leaf, SegVpn, PageCount, Prot, StackVpn, StackVa, Unaligned, PageEnd, SpaceBut, Loaded,
      SomeMapped, Claims;
    StackPlace(base);
    var v := StackVpn(base);
    ClaimedIsMapped(mem, loc, root, segs, |segs|, 0, trap, trampoline, v);
    OneMapped(mem, loc, root, v);
    if ClaimedBefore(segs, |segs|, 0, v) {
      var a: nat, b: nat :| Before(segs, |segs|, 0, a, b) && Claims(segs[a], b, v);
      assert Taken(segs, a, b, v, base);
    }
    if v < TRAP_VPN && Overlaps(segs, base) {
      var a: nat, b: nat, w: nat :|
        Before(segs, |segs|, 0, a, b) && Claims(segs[a], b, w) && Taken(segs, a, b, w, base);
      assert w == v;
    }
  }

  lemma StackPlace(base: Word)
    requires base % 4096 == 0
    ensures StackVa(base) / PAGE_SIZE == StackVpn(base) < VPN_END && StackVa(base) % PAGE_SIZE == 0
    ensures PageEnd(StackVa(base)) == StackVpn(base) + 1 && PAGE_SIZE == 4096
    ensures var v := StackVpn(base); v < TRAP_VPN || v == TRAP_VPN || v == TRAMPOLINE_VPN
    ensures PTE_R + PTE_W + PTE_U < 256 && WORD_END > 0
  {
    assert (base + WORD_END - 4096) % WORD_END == if base >= 4096 then base - 4096 else base + WORD_END - 4096;
    assert VA_END % 4096 == 0;
    assert StackVa(base) % 4096 == 0;
    PagesOf(StackVa(base));
  }

  /** The strays after one more page. */
  lemma StraysStep(segs: seq<Segment>, i: nat, k: nat)
    requires i < |segs| && segs[i].load && k < PageCount(segs[i])
    ensures Strays(segs, i, k + 1) == Spill(Strays(segs, i, k), SegVpn(segs[i], k), PageEnd(SegVa(segs[i], k)))
  {
    hide SegVpn, SegVa, PageCount, PageEnd, Unaligned;
    SegPlace(segs[i], k);
    forall v: nat
      ensures StrayBefore(segs, i, k + 1, v) <==>
        StrayBefore(segs, i, k, v) || (Unaligned(segs[i]) && v == SegVpn(segs[i], k) + 1)
    {
      assert Before(segs, i, k + 1, i, k);
      if StrayBefore(segs, i, k, v) {
        var a: nat, b: nat :| Before(segs, i, k, a, b) && Unaligned(segs[a]) && v == SegVpn(segs[a], b) + 1;
        assert Before(segs, i, k + 1, a, b);
      }
      if StrayBefore(segs, i, k + 1, v) {
        var a: nat, b: nat :| Before(segs, i, k + 1, a, b) && Unaligned(segs[a]) && v == SegVpn(segs[a], b) + 1;
        assert (a == i && b == k) || Before(segs, i, k, a, b);
      }
    }
  }

  lemma LoadStep(mem1: Memory, loc1: Plan, mem2: Memory, loc2: Plan, root: nat, segs: seq<Segment>, i: nat, k: nat)
    requires PlanOk(mem1, loc1) && PlanOk(mem2, loc2) && ImagesOk(segs)
    requires i < |segs| && segs[i].load && k < PageCount(segs[i])
    requires Loaded(mem1, loc1, root, segs, i, k) && ApartSoFar(segs, i, k + 1)
    requires PageAdded(mem1, loc1, mem2, loc2, root, SegVpn(segs[i], k), PageEnd(SegVa(segs[i], k)), segs[i].image[k],
                       Prot(segs[i].flags))
    ensures Loaded(mem2, loc2, root, segs, i, k + 1)
  {
    hide PlanOk, Framed, SegVpn, SegVa, PageCount, PageEnd, Prot, Leaf, Unaligned, SegPageIs, RangeSet;
    SegPlace(segs[i], k);
    assert Before(segs, i, k + 1, i, k);
    forall a: nat, b: nat | Before(segs, i, k + 1, a, b)
      ensures SegPageIs(mem2, loc2, root, segs[a], b)
    {
      if a != i || b != k {
        assert Before(segs, i, k, a, b);
        NotClaimedAgain(segs, i, k, a, b, SegVpn(segs[a], b));
        NotClaimedAgain(segs, i, k, a, b, SegVpn(segs[a], b) + 1);
        SegPageStays(mem1, loc1, mem2, loc2, root, segs[a], b, SegVpn(segs[i], k), PageEnd(SegVa(segs[i], k)),
                     segs[i].image[k], Prot(segs[i].flags));
      } else {
        SegPageNew(mem1, loc1, mem2, loc2, root, segs[i], k);
      }
    }
    forall v: nat | Page(root, v) in loc2
      ensures LoadedBefore(segs, i, k + 1, v)
    {
      if v != SegVpn(segs[i], k) {
        var a: nat, b: nat :| Before(segs, i, k, a, b) && SegVpn(segs[a], b) == v;
        assert Before(segs, i, k + 1, a, b);
      }
    }
  }

  /** A page loaded earlier is as it was. */
  lemma SegPageStays(mem1: Memory, loc1: Plan, mem2: Memory, loc2: Plan, root: nat, seg: Segment, b: nat,
                     vpn: nat, hi: nat, data: Frame, flags: nat)
    requires PlanOk(mem1, loc1) && PlanOk(mem2, loc2) && b < |seg.image| && SegPageIs(mem1, loc1, root, seg, b)
    requires flags < 256 && PageAdded(mem1, loc1, mem2, loc2, root, vpn, hi, data, flags)
    requires !(vpn <= SegVpn(seg, b) < hi) && (Unaligned(seg) ==> !(vpn <= SegVpn(seg, b) + 1 < hi))
    ensures SegPageIs(mem2, loc2, root, seg, b)
  {
    hide PlanOk, Framed, SegVpn, Prot, Leaf, NewPte, Unaligned, PteFlags;
    assert Page(root, SegVpn(seg, b)) in loc2;
  }

  lemma SegPageNew(mem1: Memory, loc1: Plan, mem2: Memory, loc2: Plan, root: nat, seg: Segment, b: nat)
    requires PlanOk(mem1, loc1) && PlanOk(mem2, loc2) && b < |seg.image|
    requires PageAdded(mem1, loc1, mem2, loc2, root, SegVpn(seg, b), PageEnd(SegVa(seg, b)), seg.image[b],
                       Prot(seg.flags))
    ensures SegPageIs(mem2, loc2, root, seg, b)
  {
    hide PlanOk, Framed, SegVpn, SegVa, PageEnd, Prot, Leaf, NewPte, Unaligned, PteFlags;
    SegPlace(seg, b);
    PlaceInRange(mem2, loc2, Page(root, SegVpn(seg, b)));
    PteRoundTrip(loc2[Page(root, SegVpn(seg, b))], WithValid(Prot(seg.flags)));
  }

  lemma NotClaimedAgain(segs: seq<Segment>, i: nat, k: nat, a: nat, b: nat, v: nat)
    requires ApartSoFar(segs, i, k + 1) && i < |segs| && segs[i].load && k < PageCount(segs[i])
    requires Before(segs, i, k, a, b)
    ensures Claims(segs[a], b, v) ==> !Claims(segs[i], k, v)
  {
    hide Claims, PageCount;
    assert Before(segs, i, k + 1, i, k);
  }

  /** Between segments nothing is loaded. */
  lemma LoadTurn(mem: Memory, loc: Plan, root: nat, segs: seq<Segment>, i: nat, k: nat)
    requires PlanOk(mem, loc) && ImagesOk(segs) && i < |segs| && Loaded(mem, loc, root, segs, i, k)
    requires ApartSoFar(segs, i, k)
    requires if segs[i].load then k == PageCount(segs[i]) else k == 0
    ensures Loaded(mem, loc, root, segs, i + 1, 0) && ApartSoFar(segs, i + 1, 0)
    ensures Strays(segs, i + 1, 0) == Strays(segs, i, k)
  {
    hide PlanOk, SegVpn, PageCount, Prot, SegPageIs, Claims, Unaligned;
    assert forall a: nat, b: nat :: Before(segs, i + 1, 0, a, b) <==> Before(segs, i, k, a, b);
    forall v: nat
      ensures LoadedBefore(segs, i, k, v) ==> LoadedBefore(segs, i + 1, 0, v)
      ensures StrayBefore(segs, i, k, v) <==> StrayBefore(segs, i + 1, 0, v)
    {
      if LoadedBefore(segs, i, k, v) {
        var a: nat, b: nat :| Before(segs, i, k, a, b) && SegVpn(segs[a], b) == v;
        assert Before(segs, i + 1, 0, a, b);
      }
      if StrayBefore(segs, i, k, v) {
        var a: nat, b: nat :| Before(segs, i, k, a, b) && Unaligned(segs[a]) && v == SegVpn(segs[a], b) + 1;
        assert Before(segs, i + 1, 0, a, b);
      }
    }
  }

  /** The outer loop's body: one segment, page by page. */
  method LoadSegment(m: Machine, root: nat, segs: seq<Segment>, i: nat, ghost trap: nat, ghost trampoline: nat,
                     ghost base: Word)
    returns (r: Status)
    requires m.Valid() && Rooted(m.loc) && ImagesOk(segs) && i < |segs| && segs[i].load
    requires SpaceBut(m.mem, m.loc, root, TRAP_VPN, trap, trampoline, Strays(segs, i, 0))
    requires Loaded(m.mem, m.loc, root, segs, i, 0) && ApartSoFar(segs, i, 0)
    modifies m
    ensures m.FramesOk() && r != EmptyRange
    ensures (r == OutOfMemory ==> m.Exhausted()) && (r == AlreadyMapped ==> Overlaps(segs, base))
    ensures r == Done ==>
      && Rooted(m.loc) && SpaceBut(m.mem, m.loc, root, TRAP_VPN, trap, trampoline, Strays(segs, i + 1, 0))
      && Framed(old(m.mem), old(m.loc), m.mem, m.loc, root)
      && Loaded(m.mem, m.loc, root, segs, i + 1, 0) && ApartSoFar(segs, i + 1, 0)
  {
    hide *;
    MachineParts(m);
    ghost var mem0, loc0 := m.mem, m.loc;
    FramedReflexive(mem0, loc0, root);
    r := Done;
    var k := 0;
    var size := RoundUp(segs[i].memsz);
    while k * 4096 < size
      invariant k <= PageCount(segs[i])
      invariant r == Done && m.FramesOk() && Rooted(m.loc)
      invariant SpaceBut(m.mem, m.loc, root, TRAP_VPN, trap, trampoline, Strays(segs, i, k))
      invariant Framed(mem0, loc0, m.mem, m.loc, root)
      invariant Loaded(m.mem, m.loc, root, segs, i, k) && ApartSoFar(segs, i, k)
      decreases PageCount(segs[i]) - k
    {
      ghost var mem1, loc1 := m.mem, m.loc;
      MachineValid(m);
      SegmentPage(segs, i, k);
      SegPlace(segs[i], k);
      StraysStep(segs, i, k);
      var va := SegVa(segs[i], k);
      r := AddPage(m, root, va, segs[i].image[k], Prot(segs[i].flags), TRAP_VPN, trap, trampoline, Strays(segs, i, k));
      MappedMeansOverlap(mem1, loc1, root, segs, i, k, trap, trampoline, base);
      if r != Done {
        return;
      }
      LoadStep(mem1, loc1, m.mem, m.loc, root, segs, i, k);
      AddedKeeps(mem1, loc1, m.mem, m.loc, root, SegVpn(segs[i], k), PageEnd(va), segs[i].image[k],
                 Prot(segs[i].flags), loc1);
      FramedTransitive(mem0, loc0, mem1, loc1, m.mem, m.loc, root);
      k := k + 1;
    }
    SegmentEnd(segs[i], k);
    LoadTurn(m.mem, m.loc, root, segs, i, k);
  }

  lemma FramedReflexive(mem: Memory, loc: Plan, root: nat)
    requires PlanOk(mem, loc)
    ensures Framed(mem, loc, mem, loc, root)
  {
  }

  lemma SegmentPage(segs: seq<Segment>, i: nat, k: nat)
    requires ImagesOk(segs) && i < |segs| && k * 4096 < RoundUp(segs[i].memsz)
    ensures k < PageCount(segs[i]) && k < |segs[i].image| && |segs[i].image[k]| == ENTRIES
    ensures var vpn := SegVpn(segs[i], k); vpn < TRAP_VPN || vpn == TRAP_VPN || vpn == TRAMPOLINE_VPN
    ensures Prot(segs[i].flags) < 256
  {
    hide SegVpn;
    SegPlace(segs[i], k);
  }

  lemma SegmentEnd(seg: Segment, k: nat)
    requires k <= PageCount(seg) && k * 4096 >= RoundUp(seg.memsz)
    ensures k == PageCount(seg)
  {
  }

  /** Pages a space owns after loading: those of the segments, and the stack. */
  ghost predicate OwnsExactly(loc: Plan, root: nat, segs: seq<Segment>, base: Word) {
    forall v: nat :: Page(root, v) in loc <==> LoadedBefore(segs, |segs|, 0, v) || v == StackVpn(base)
  }

  /** Every loaded page holds its part of the file with the segment's permissions. */
  ghost predicate ImageLoaded(mem: Memory, loc: Plan, root: nat, segs: seq<Segment>)
    requires PlanOk(mem, loc) && ImagesOk(segs)
  {
    forall a: nat, b: nat | Before(segs, |segs|, 0, a, b) :: SegPageIs(mem, loc, root, segs[a], b)
  }

  /** The page below base_size is the space's own, cleared, and user code may read and write it. */
  ghost predicate StackReady(mem: Memory, loc: Plan, root: nat, base: Word)
    requires PlanOk(mem, loc)
  {
    PageIs(mem, loc, root, StackVpn(base), ZeroFrame(), PTE_V + PTE_R + PTE_W + PTE_U)
  }

  lemma StackIsReady(mem1: Memory, loc1: Plan, mem2: Memory, loc2: Plan, root: nat, base: Word)
    requires PlanOk(mem1, loc1) && PlanOk(mem2, loc2)
    requires PageAdded(mem1, loc1, mem2, loc2, root, StackVpn(base), StackVpn(base) + 1, ZeroFrame(),
                       PTE_R + PTE_W + PTE_U)
    ensures StackReady(mem2, loc2, root, base)
  {
    hide PlanOk, Framed, StackVpn, Leaf, NewPte, PteFlags, ZeroFrame;
    PlaceInRange(mem2, loc2, Page(root, StackVpn(base)));
    PteRoundTrip(loc2[Page(root, StackVpn(base))], WithValid(PTE_R + PTE_W + PTE_U));
  }

  lemma StackBelowBase(segs: seq<Segment>, before: Word)
    requires 1 <= Base(segs, before) / 4096 <= TRAP_VPN
    ensures StackVpn(Base(segs, before)) == Base(segs, before) / 4096 - 1
  {
    hide Base;
    BaseAligned(segs, before);
    var base := Base(segs, before);
    assert base < VA_END;
    assert (base + WORD_END - 4096) % WORD_END == base - 4096;
  }

  lemma NoStrayLeft(mem: Memory, loc: Plan, root: nat, pages: nat, trap: nat, trampoline: nat, strays: iset<nat>,
                    v: nat)
    requires SpaceBut(mem, loc, root, TRAP_VPN, trap, trampoline, strays)
    requires Space(mem, loc, root, pages, trap, trampoline)
    ensures v !in strays
  {
    hide Shape, Leaf;
    assert PageOk(mem, loc, root, pages, trap, trampoline, v);
  }

  /** base_size bounds the space, and the space owns what it maps, exactly when the program headers
      fit: otherwise a page is left above it, or mapped to a frame that is not the space's. */
  lemma BoundedExactly(mem: Memory, loc: Plan, root: nat, segs: seq<Segment>, before: Word, trap: nat, trampoline: nat)
    requires SpaceBut(mem, loc, root, TRAP_VPN, trap, trampoline, Strays(segs, |segs|, 0))
    requires OwnsExactly(loc, root, segs, Base(segs, before))
    ensures Space(mem, loc, root, Base(segs, before) / 4096, trap, trampoline) <==> Fits(segs, before)
  {
    FitsByPage(segs, before);
    var pages := Base(segs, before) / 4096;
    if Fits(segs, before) {
      StackBelowBase(segs, before);
      hide Shape, Base, StackVpn, SegVpn, Fits, Unaligned;
      assert forall v: nat :: v !in Strays(segs, |segs|, 0);
      forall v: nat
        ensures PageOk(mem, loc, root, pages, trap, trampoline, v)
      {
        assert PageOk(mem, loc, root, TRAP_VPN, trap, trampoline, v);
        LeafZeroOrValid(mem, loc, root, v);
        if LoadedBefore(segs, |segs|, 0, v) {
          var a: nat, b: nat :| Before(segs, |segs|, 0, a, b) && SegVpn(segs[a], b) == v;
        }
      }
    }
    if Space(mem, loc, root, pages, trap, trampoline) {
      hide Shape, Base, StackVpn, SegVpn, Fits, Unaligned;
      assert Page(root, StackVpn(Base(segs, before))) in loc;
      assert PageOk(mem, loc, root, pages, trap, trampoline, StackVpn(Base(segs, before)));
      forall a: nat, b: nat | Before(segs, |segs|, 0, a, b)
        ensures !Unaligned(segs[a]) && SegVpn(segs[a], b) < pages
      {
        assert LoadedBefore(segs, |segs|, 0, SegVpn(segs[a], b));
        assert PageOk(mem, loc, root, pages, trap, trampoline, SegVpn(segs[a], b));
        NoStrayLeft(mem, loc, root, pages, trap, trampoline, Strays(segs, |segs|, 0), SegVpn(segs[a], b) + 1);
      }
    }
  }

  lemma NoSegments(segs: seq<Segment>, before: Word)
    ensures LastEnd(segs[..0], before) == before
  {
  }

  lemma LastEndNext(segs: seq<Segment>, i: nat, before: Word)
    requires i < |segs|
    ensures LastEnd(segs[..i + 1], before) ==
      if segs[i].load then (segs[i].vaddr + segs[i].memsz) % WORD_END else LastEnd(segs[..i], before)
  {
    assert segs[..i + 1][..i] == segs[..i];
  }

  lemma NothingLoaded(mem: Memory, loc: Plan, root: nat, segs: seq<Segment>)
    requires PlanOk(mem, loc) && ImagesOk(segs) && forall v: nat :: Page(root, v) !in loc
    ensures Loaded(mem, loc, root, segs, 0, 0) && ApartSoFar(segs, 0, 0) && Strays(segs, 0, 0) == iset{}
  {
  }

  lemma StackAdded(mem1: Memory, loc1: Plan, mem2: Memory, loc2: Plan, root: nat, segs: seq<Segment>, base: Word,
                   data: Frame, flags: nat)
    requires PlanOk(mem1, loc1) && PlanOk(mem2, loc2) && ImagesOk(segs) && flags < 256
    requires Loaded(mem1, loc1, root, segs, |segs|, 0) && !Overlaps(segs, base)
    requires PageAdded(mem1, loc1, mem2, loc2, root, StackVpn(base), StackVpn(base) + 1, data, flags)
    ensures OwnsExactly(loc2, root, segs, base) && ImageLoaded(mem2, loc2, root, segs)
  {
    hide PlanOk, Framed, SegVpn, PageCount, Prot, StackVpn, Leaf, NewPte, Unaligned;
    forall a: nat, b: nat | Before(segs, |segs|, 0, a, b)
      ensures SegPageIs(mem2, loc2, root, segs[a], b)
    {
      assert SegPageIs(mem1, loc1, root, segs[a], b);
      NotTheStack(segs, a, b, base);
    }
    forall v: nat
      ensures Page(root, v) in loc2 <==> LoadedBefore(segs, |segs|, 0, v) || v == StackVpn(base)
    {
      if LoadedBefore(segs, |segs|, 0, v) {
        var a: nat, b: nat :| Before(segs, |segs|, 0, a, b) && SegVpn(segs[a], b) == v;
        assert SegPageIs(mem2, loc2, root, segs[a], b);
      }
    }
  }

  lemma NotTheStack(segs: seq<Segment>, a: nat, b: nat, base: Word)
    requires !Overlaps(segs, base) && Before(segs, |segs|, 0, a, b)
    ensures SegVpn(segs[a], b) != StackVpn(base) && (Unaligned(segs[a]) ==> SegVpn(segs[a], b) + 1 != StackVpn(base))
  {
    hide SegVpn, StackVpn, Unaligned, PageCount;
    assert Claims(segs[a], b, SegVpn(segs[a], b));
    assert Taken(segs, a, b, StackVpn(base), base);
  }

  /** load_segment: the space owns exactly the pages of the loaded segments, with the file's
      contents and the segments' permissions, and one stack page. It maps a second page for each
      page of a segment that is not aligned. */
  method LoadImage(m: Machine, root: nat, segs: seq<Segment>, before: Word, ghost trap: nat, ghost trampoline: nat)
    returns (r: Status, base: Word)
    requires m.Valid() && Rooted(m.loc) && ImagesOk(segs)
    requires Space(m.mem, m.loc, root, 0, trap, trampoline)
    modifies m
    ensures m.FramesOk() && base == Base(segs, before) && r != EmptyRange
    ensures (r == OutOfMemory ==> m.Exhausted()) && (r == AlreadyMapped ==> Overlaps(segs, base))
    ensures r == Done ==>
      && Rooted(m.loc) && Framed(old(m.mem), old(m.loc), m.mem, m.loc, root) && !Overlaps(segs, base)
      && SpaceBut(m.mem, m.loc, root, TRAP_VPN, trap, trampoline, Strays(segs, |segs|, 0))
      && OwnsExactly(m.loc, root, segs, base) && ImageLoaded(m.mem, m.loc, root, segs)
      && StackReady(m.mem, m.loc, root, base)
  {
    hide *;
    MachineParts(m);
    EmptySpace(m.mem, m.loc, root, trap, trampoline);
    NothingLoaded(m.mem, m.loc, root, segs);
    SpaceExactly(m.mem, m.loc, root, TRAP_VPN, trap, trampoline);
    FramedReflexive(m.mem, m.loc, root);
    NoSegments(segs, before);
    BaseAligned(segs, before);
    BaseIs(segs, before);
    ghost var mem0, loc0 := m.mem, m.loc;
    r, base := Done, Base(segs, before);
    var ustack := before;
    var i := 0;
    while i < |segs|
      invariant 0 <= i <= |segs| && r == Done
      invariant ustack == LastEnd(segs[..i], before)
      invariant m.FramesOk() && Rooted(m.loc)
      invariant SpaceBut(m.mem, m.loc, root, TRAP_VPN, trap, trampoline, Strays(segs, i, 0))
      invariant Framed(mem0, loc0, m.mem, m.loc, root)
      invariant Loaded(m.mem, m.loc, root, segs, i, 0) && ApartSoFar(segs, i, 0)
    {
      ghost var mem1, loc1 := m.mem, m.loc;
      MachineValid(m);
      LastEndNext(segs, i, before);
      if segs[i].load {
        ustack := (segs[i].vaddr + segs[i].memsz) % WORD_END;
        r := LoadSegment(m, root, segs, i, trap, trampoline, base);
        if r != Done {
          return;
        }
        FramedTransitive(mem0, loc0, mem1, loc1, m.mem, m.loc, root);
      } else {
        LoadTurn(m.mem, m.loc, root, segs, i, 0);
      }
      i := i + 1;
    }
    assert segs[..i] == segs;
    ghost var mem1, loc1 := m.mem, m.loc;
    MachineValid(m);
    base := StackEnd(ustack);
    StackPlace(base);
    StackMeansOverlap(mem1, loc1, root, segs, trap, trampoline, base);
    var flags := PTE_R + PTE_W + PTE_U;
    r := AddPage(m, root, StackVa(base), ZeroFrame(), flags, TRAP_VPN, trap, trampoline, Strays(segs, |segs|, 0));
    if r == Done {
      NoSpill(Strays(segs, |segs|, 0), StackVpn(base));
      StackAdded(mem1, loc1, m.mem, m.loc, root, segs, base, ZeroFrame(), flags);
      StackIsReady(mem1, loc1, m.mem, m.loc, root, base);
      AddedKeeps(mem1, loc1, m.mem, m.loc, root, StackVpn(base), StackVpn(base) + 1, ZeroFrame(), flags, loc1);
      FramedTransitive(mem0, loc0, mem1, loc1, m.mem, m.loc, root);
    }
  }

  lemma NoSpill(strays: iset<nat>, v: nat)
    ensures Spill(strays, v, v + 1) == strays
  {
  }

  lemma BaseIs(segs: seq<Segment>, before: Word)
    ensures Base(segs, before) == StackEnd(LastEnd(segs, before)) && WORD_END > 0
  {
  }

  lemma EmptySpace(mem: Memory, loc: Plan, root: nat, trap: nat, trampoline: nat)
    requires Space(mem, loc, root, 0, trap, trampoline)
    ensures Space(mem, loc, root, TRAP_VPN, trap, trampoline)
    ensures forall v: nat :: Page(root, v) !in loc
  {
    SpaceWiden(mem, loc, root, 0, TRAP_VPN, trap, trampoline);
    forall v: nat
      ensures Page(root, v) !in loc
    {
      assert PageOk(mem, loc, root, 0, trap, trampoline, v);
    }
  }

  // ---------------------------------------------------------------- what goes wrong otherwise

  /** An unaligned segment hands user code the frame after each of its own, whatever that one is used
      for: the page that reaches it is not the space's, but has the U bit. */
  lemma StrayReaches(mem: Memory, loc: Plan, root: nat, segs: seq<Segment>, a: nat, b: nat, trap: nat, trampoline: nat)
    requires SpaceBut(mem, loc, root, TRAP_VPN, trap, trampoline, Strays(segs, |segs|, 0))
    requires ImagesOk(segs) && ImageLoaded(mem, loc, root, segs)
    requires Before(segs, |segs|, 0, a, b) && Unaligned(segs[a])
    ensures var v := SegVpn(segs[a], b);
      && Page(root, v) in loc && Page(root, v + 1) !in loc && v + 1 < VPN_END
      && Walk(mem, root, v + 1, 0).Some?
      && var c := Walk(mem, root, v + 1, 0).value;
      && c.frame < |mem| && c.index < ENTRIES
      && PteFlags(mem[c.frame][c.index]) / PTE_U % 2 == 1
      && PtePpn(mem[c.frame][c.index]) == (loc[Page(root, v)] + 1) % PPN_END
  {
    hide Shape, Walk, Leaf, SegVpn, PageCount, Prot, Unaligned, SpaceBut, ImageLoaded, NewPte, PtePpn, PteFlags;
    var v := SegVpn(segs[a], b);
    StrayLeaf(mem, loc, root, segs, a, b, trap, trampoline);
    WalkIsLeaf(mem, loc, root, v + 1);
    PteNext(loc[Page(root, v)], Prot(segs[a].flags) + PTE_V);
    UserBit(segs[a].flags);
  }

  lemma StrayLeaf(mem: Memory, loc: Plan, root: nat, segs: seq<Segment>, a: nat, b: nat, trap: nat, trampoline: nat)
    requires SpaceBut(mem, loc, root, TRAP_VPN, trap, trampoline, Strays(segs, |segs|, 0))
    requires ImagesOk(segs) && ImageLoaded(mem, loc, root, segs)
    requires Before(segs, |segs|, 0, a, b) && Unaligned(segs[a])
    ensures var v := SegVpn(segs[a], b);
      && Page(root, v) in loc && loc[Page(root, v)] < PPN_END && Page(root, v + 1) !in loc && v + 1 < TRAP_VPN
      && IsValid(Leaf(mem, loc, root, v + 1))
      && Leaf(mem, loc, root, v + 1) == NewPte(loc[Page(root, v)] + 1, Prot(segs[a].flags) + PTE_V)
  {
    hide Shape, Leaf, SegVpn, PageCount, Prot, Unaligned, NewPte, PteFlags;
    var v := SegVpn(segs[a], b);
    assert SegPageIs(mem, loc, root, segs[a], b);
    PlaceInRange(mem, loc, Page(root, v));
    assert v + 1 in Strays(segs, |segs|, 0);
    assert StrayOk(mem, loc, root, TRAP_VPN, v + 1);
  }

  lemma PteNext(ppn: nat, flags: nat)
    requires ppn < PPN_END && flags < 256
    ensures PteFlags(NewPte(ppn + 1, flags)) == flags && PtePpn(NewPte(ppn + 1, flags)) == (ppn + 1) % PPN_END
  {
    if ppn + 1 < PPN_END {
      PteRoundTrip(ppn + 1, flags);
    } else {
      assert NewPte(ppn + 1, flags) == PPN_END * 1024 + flags;
    }
  }

  lemma UserBit(flags: nat)
    ensures (Prot(flags) + PTE_V) / PTE_U % 2 == 1
  {
  }

  /** One segment inside a page: nothing overlaps, yet it does not fit, and page 0x11 is a stray. */
  lemma UnalignedExample(f: Frame, before: Word)
    requires |f| == ENTRIES
    ensures var segs := [Segment(true, 0x10800, 0x800, 6, [f])];
      && ImagesOk(segs) && !Fits(segs, before) && !Overlaps(segs, Base(segs, before))
      && Before(segs, |segs|, 0, 0, 0) && Unaligned(segs[0]) && SegVpn(segs[0], 0) == 0x10
  {
    var seg := Segment(true, 0x10800, 0x800, 6, [f]);
    var segs := [seg];
    assert RoundUp(0x800) == 4096;
    assert PageCount(seg) == 1;
    assert SegVpn(seg, 0) == 0x10;
    assert Base(segs, before) == 0x13000;
    assert StackVpn(0x13000) == 0x12;
    forall a: nat, b: nat, v: nat | Before(segs, |segs|, 0, a, b) && Claims(segs[a], b, v)
      ensures !Taken(segs, a, b, v, 0x13000)
    {
      assert a == 0 && b == 0;
    }
  }

  /** With a second page an unaligned segment overlaps itself, whatever else is loaded. */
  lemma UnalignedOverlapsItself(segs: seq<Segment>, a: nat, base: Word)
    requires a < |segs| && segs[a].load && Unaligned(segs[a]) && PageCount(segs[a]) >= 2
    ensures Overlaps(segs, base)
  {
    hide SegVpn, PageCount, StackVpn;
    var seg := segs[a];
    SegPlace(seg, 0);
    SegPlace(seg, 1);
    Following(seg);
    assert Before(segs, |segs|, 0, a, 1) && Before(segs, a, 1, a, 0) && Before(segs, |segs|, 0, a, 0);
    var v := SegVpn(seg, 1);
    assert Claims(seg, 1, v) && Claims(seg, 0, SegVpn(seg, 0));
    if v == SegVpn(seg, 0) + 1 {
      assert Claims(segs[a], 0, v);
      assert Taken(segs, a, 1, v, base);
    } else {
      assert Taken(segs, a, 0, SegVpn(seg, 0), base);
    }
  }

  lemma Following(seg: Segment)
    ensures SegVpn(seg, 1) == SegVpn(seg, 0) + 1 || SegVpn(seg, 0) >= TRAP_VPN
  {
    var va := seg.vaddr % VA_END;
    assert SegVa(seg, 0) == va;
    assert SegVa(seg, 1) == if va + 4096 < VA_END then va + 4096 else va + 4096 - VA_END;
  }

  /** Tearing a space down leaves its tables empty exactly when no page at base_size or above was
      mapped. */
  lemma LeftoverExactly(mem0: Memory, loc0: Plan, mem1: Memory, loc1: Plan, mem2: Memory, loc2: Plan,
                        mem3: Memory, loc3: Plan, root: nat, pages: nat, free: bool, tags: nat -> Tag, own: nat -> Tag)
    requires Unmapped(mem0, loc0, mem1, loc1, root, TRAMPOLINE_VPN, TRAMPOLINE_VPN + 1, false, tags)
    requires Unmapped(mem1, loc1, mem2, loc2, root, TRAP_VPN, TRAP_VPN + 1, free, tags)
    requires Unmapped(mem2, loc2, mem3, loc3, root, 0, pages, true, own)
    requires Shape(mem3, loc3)
    ensures AllClear(mem3, loc3, Table(root, 0, 0)) <==>
      forall v: nat | pages <= v < TRAP_VPN :: Leaf(mem0, loc0, root, v) == 0
  {
    hide Shape, PlanOk, AllClear, Released;
    ClearExactly(mem3, loc3, root);
    forall v: nat
      ensures Leaf(mem3, loc3, root, v) ==
        if v < pages || v == TRAP_VPN || v == TRAMPOLINE_VPN then 0 else Leaf(mem0, loc0, root, v)
    {
      assert Leaf(mem2, loc2, root, v) == if v == TRAP_VPN then 0 else Leaf(mem1, loc1, root, v);
      assert Leaf(mem1, loc1, root, v) == if v == TRAMPOLINE_VPN then 0 else Leaf(mem0, loc0, root, v);
    }
    hide Leaf, Unmapped;
  }

  function TwoSegments(f: Frame, g: Frame): seq<Segment> {
    [Segment(true, 0x20000, 0x1000, 5, [f]), Segment(true, 0x10000, 0x1000, 6, [g])]
  }

  /** Two aligned segments that do not overlap, the higher one first: base_size is 0x13000, and page
      0x20 lies above it. */
  lemma DescendingExample(f: Frame, g: Frame, before: Word)
    requires |f| == ENTRIES && |g| == ENTRIES
    ensures var segs := TwoSegments(f, g);
      && ImagesOk(segs) && !Fits(segs, before) && !Overlaps(segs, Base(segs, before))
      && Base(segs, before) == 0x13000 && LoadedBefore(segs, |segs|, 0, 0x20)
  {
    var segs := TwoSegments(f, g);
    assert RoundUp(0x1000) == 4096;
    assert PageCount(segs[0]) == 1 && PageCount(segs[1]) == 1;
    assert SegVpn(segs[0], 0) == 0x20 && SegVpn(segs[1], 0) == 0x10;
    assert Base(segs, before) == 0x13000;
    assert StackVpn(0x13000) == 0x12;
    assert Before(segs, |segs|, 0, 0, 0);
    forall a: nat, b: nat, v: nat | Before(segs, |segs|, 0, a, b) && Claims(segs[a], b, v)
      ensures !Taken(segs, a, b, v, 0x13000)
    {
      assert b == 0;
    }
  }

  /** What free_page_table makes of the leftover entry of a loaded page: it takes one without any of
      the R, W and X bits for a table and goes on into the page, and panics at every other. */
  lemma LeftoverFollowed(ppn: nat, flags: nat)
    ensures var e := NewPte(ppn, Prot(flags) + PTE_V);
      IsValid(e) && (IsBranch(e) <==> flags % 8 == 0)
  {
    hide Prot, NewPte;
    ProtBits(flags);
    ProtValid(flags);
    Pieces(ppn, Prot(flags) + PTE_V);
  }

  lemma Pieces(ppn: nat, p: nat)
    requires p < 256
    ensures PteFlags(NewPte(ppn, p)) == p && NewPte(ppn, p) / 2 % 8 == p / 2 % 8
  {
    var shifted := (ppn * 1024) % WORD_END;
    var k := ppn * 1024 / WORD_END;
    var q := ppn - k * (WORD_END / 1024);
    assert shifted == 1024 * q;
    LowByte(4 * q, p);
    BitsOneToThree(q, p);
  }

  lemma BitsOneToThree(q: nat, p: nat)
    ensures (1024 * q + p) / 2 % 8 == p / 2 % 8
  {
    assert (1024 * q + p) / 2 == 512 * q + p / 2;
    assert 512 * q + p / 2 == 8 * (64 * q) + p / 2;
  }

  lemma ProtBits(flags: nat)
    ensures (Prot(flags) + PTE_V) / 2 % 8 == 0 <==> flags % 8 == 0
  {
  }

  /** Tearing that program down leaves the entry of page 0x20 behind, and it is one free_page_table
      panics at. */
  lemma DescendingLeavesPage(mem0: Memory, loc0: Plan, mem1: Memory, loc1: Plan, mem2: Memory, loc2: Plan,
                             mem3: Memory, loc3: Plan, root: nat, f: Frame, g: Frame, before: Word,
                             free: bool, tags: nat -> Tag, own: nat -> Tag)
    requires |f| == ENTRIES && |g| == ENTRIES && PlanOk(mem0, loc0)
    requires ImagesOk(TwoSegments(f, g)) && ImageLoaded(mem0, loc0, root, TwoSegments(f, g))
    requires Unmapped(mem0, loc0, mem1, loc1, root, TRAMPOLINE_VPN, TRAMPOLINE_VPN + 1, false, tags)
    requires Unmapped(mem1, loc1, mem2, loc2, root, TRAP_VPN, TRAP_VPN + 1, free, tags)
    requires Unmapped(mem2, loc2, mem3, loc3, root, 0, Base(TwoSegments(f, g), before) / 4096, true, own)
    requires Shape(mem3, loc3)
    ensures !AllClear(mem3, loc3, Table(root, 0, 0))
    ensures IsValid(Leaf(mem3, loc3, root, 0x20)) && !IsBranch(Leaf(mem3, loc3, root, 0x20))
  {
    hide *;
    Limits();
    DescendingExample(f, g, before);
    LeftoverExactly(mem0, loc0, mem1, loc1, mem2, loc2, mem3, loc3, root, 0x13, free, tags, own);
    Pages20();
    PageTwenty(mem0, loc0, root, f, g);
    StillMapped(mem0, loc0, mem1, loc1, mem2, loc2, mem3, loc3, root, 0x13, 0x20, free, tags, own);
  }

  lemma StillMapped(mem0: Memory, loc0: Plan, mem1: Memory, loc1: Plan, mem2: Memory, loc2: Plan,
                    mem3: Memory, loc3: Plan, root: nat, pages: nat, v: nat, free: bool,
                    tags: nat -> Tag, own: nat -> Tag)
    requires Unmapped(mem0, loc0, mem1, loc1, root, TRAMPOLINE_VPN, TRAMPOLINE_VPN + 1, false, tags)
    requires Unmapped(mem1, loc1, mem2, loc2, root, TRAP_VPN, TRAP_VPN + 1, free, tags)
    requires Unmapped(mem2, loc2, mem3, loc3, root, 0, pages, true, own)
    requires pages <= v < TRAP_VPN
    ensures Leaf(mem3, loc3, root, v) == Leaf(mem0, loc0, root, v)
  {
    hide PlanOk, Released, Leaf;
    assert Leaf(mem2, loc2, root, v) == Leaf(mem1, loc1, root, v) == Leaf(mem0, loc0, root, v);
  }

  lemma PageTwenty(mem: Memory, loc: Plan, root: nat, f: Frame, g: Frame)
    requires PlanOk(mem, loc) && ImagesOk(TwoSegments(f, g)) && ImageLoaded(mem, loc, root, TwoSegments(f, g))
    ensures var e := Leaf(mem, loc, root, 0x20); e != 0 && IsValid(e) && !IsBranch(e)
  {
    hide PlanOk, Leaf;
    var segs := TwoSegments(f, g);
    assert RoundUp(0x1000) == 4096;
    assert PageCount(segs[0]) == 1;
    assert SegVpn(segs[0], 0) == 0x20;
    assert Before(segs, |segs|, 0, 0, 0);
    assert SegPageIs(mem, loc, root, segs[0], 0);
    assert Prot(5) + PTE_V == 27;
    LowFlags(Leaf(mem, loc, root, 0x20));
  }

  lemma LowFlags(e: Word)
    requires PteFlags(e) == 27
    ensures e != 0 && IsValid(e) && !IsBranch(e)
  {
  }

  lemma Pages20()
    ensures 0x13 <= 0x20 < TRAP_VPN && 0x13000 / 4096 == 0x13
  {
  }

  lemma ProtValid(flags: nat)
    ensures (Prot(flags) + PTE_V) % 2 == 1
  {
  }
}
