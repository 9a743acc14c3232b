/** What user code sees through its page table: which accesses the hardware lets through, and what a
    load finds (os/src/address.c, os/src/loader.c). */
module UserView {
  import opened Common
  import opened Bits
  import opened Sv39
  import opened KernelMemory
  import opened AddressSpace
  import opened Loader
  import opened Tasks
  import opened Ownership

  /** The page-table entry the hardware finds for an address. */
  function Found(mem: Memory, root: nat, va: nat): Option<Word>
    requires Uniform(mem)
  {
    var c := Walk(mem, root, va / 4096, 0);
    if c.Some? && c.value.frame < |mem| && c.value.index < ENTRIES then Some(mem[c.value.frame][c.value.index])
    else None
  }

  /** User code may access the address in the way that needs this bit: 2 to read, 4 to write, 8 to
      execute; bit 16 marks user pages. */
  predicate May(mem: Memory, root: nat, va: nat, bit: nat)
    requires Uniform(mem) && bit > 0
  {
    var e := Found(mem, root, va);
    e.Some? && PteFlags(e.value) / 16 % 2 == 1 && PteFlags(e.value) / bit % 2 == 1
  }

  /** The word at an address. */
  function Fetch(mem: Memory, root: nat, va: nat): Option<Word>
    requires Uniform(mem)
  {
    var e := Found(mem, root, va);
    if e.Some? && PtePpn(e.value) < |mem| then Some(mem[PtePpn(e.value)][va % 4096 / 8]) else None
  }

  // ---------------------------------------------------------------- through the plan

  lemma FoundIsLeaf(mem: Memory, loc: Plan, root: nat, va: nat)
    requires Shape(mem, loc) && Table(root, 0, 0) in loc && va < VA_END
    ensures va / 4096 < VPN_END && Uniform(mem)
    ensures Found(mem, root, va) ==
      var e := Leaf(mem, loc, root, va / 4096); if IsValid(e) then Some(e) else None
  {
    hide Shape, Walk, Leaf;
    VpnBound(va);
    WalkIsLeaf(mem, loc, root, va / 4096);
    ShapeUniform(mem, loc);
  }

  lemma VpnBound(va: nat)
    requires va < VA_END
    ensures va / 4096 < VPN_END
  {
  }

  lemma ShapeUniform(mem: Memory, loc: Plan)
    requires Shape(mem, loc)
    ensures Uniform(mem)
  {
  }

  /** A page of the space's own, as user code sees it. */
  lemma OwnPageSeen(mem: Memory, loc: Plan, root: nat, pages: nat, trap: nat, trampoline: nat, va: nat, data: Frame,
                    flags: nat)
    requires Space(mem, loc, root, pages, trap, trampoline) && va < VA_END && PlanOk(mem, loc)
    requires PageIs(mem, loc, root, va / 4096, data, flags)
    ensures Uniform(mem) && |data| == ENTRIES && va % 4096 / 8 < ENTRIES
    ensures Fetch(mem, root, va) == Some(data[va % 4096 / 8])
    ensures forall bit: nat | bit > 0 :: May(mem, root, va, bit) <==> flags / 16 % 2 == 1 && flags / bit % 2 == 1
  {
    hide Leaf, Shape, Walk, Found;
    FoundIsLeaf(mem, loc, root, va);
    assert PageOk(mem, loc, root, pages, trap, trampoline, va / 4096);
    PlaceInRange(mem, loc, Page(root, va / 4096));
  }

  // ---------------------------------------------------------------- a loaded program

  /** Where the i-th word of a segment that starts on a page boundary lies. */
  lemma SegmentWord(seg: Segment, i: nat)
    requires !Unaligned(seg)
    ensures var va := (seg.vaddr + 8 * i) % VA_END;
      va < VA_END && va / 4096 == SegVpn(seg, i / 512) && va % 4096 / 8 == i % 512
  {
    var x, r := seg.vaddr + i / 512 * 4096, 8 * (i % 512);
    assert seg.vaddr + 8 * i == x + r;
    var q, lo := Divide(x, VA_END);
    assert VA_END == 4096 * VPN_END;
    AlignedRest(x, q, lo);
    DivMod(x + r, VA_END, q, lo + r);
    DivMod(lo + r, 4096, lo / 4096, r);
  }

  lemma AlignedRest(x: nat, q: nat, lo: nat)
    requires x % 4096 == 0 && x == VA_END * q + lo && lo < VA_END
    ensures lo % 4096 == 0 && lo + 4096 <= VA_END
  {
    assert VA_END * q == 4096 * (VPN_END * q);
    assert lo == 4096 * (x / 4096 - VPN_END * q);
    assert VA_END == 0x80_0000_0000;
  }

  /** The ELF permission bits read 4, write 2 and execute 1 of a segment. */
  lemma ProtMeans(flags: nat)
    ensures var f := Prot(flags) + PTE_V;
      && f / 16 % 2 == 1
      && (f / 2 % 2 == 1 <==> flags / 4 % 2 == 1) && (f / 4 % 2 == 1 <==> flags / 2 % 2 == 1)
      && (f / 8 % 2 == 1 <==> flags % 2 == 1)
  {
  }

  /** A loaded program finds every word of its file where the program header puts it, and may read,
      write and execute it exactly as the header says. */
  lemma ImageSeen(mem: Memory, loc: Plan, root: nat, pages: nat, trap: nat, trampoline: nat, segs: seq<Segment>,
                  a: nat, i: nat)
    requires Space(mem, loc, root, pages, trap, trampoline) && PlanOk(mem, loc)
    requires ImagesOk(segs) && ImageLoaded(mem, loc, root, segs)
    requires a < |segs| && segs[a].load && !Unaligned(segs[a]) && i < 512 * PageCount(segs[a])
    ensures Uniform(mem) && i / 512 < |segs[a].image| && |segs[a].image[i / 512]| == ENTRIES
    ensures var va := (segs[a].vaddr + 8 * i) % VA_END;
      && Fetch(mem, root, va) == Some(segs[a].image[i / 512][i % 512])
      && (May(mem, root, va, 2) <==> segs[a].flags / 4 % 2 == 1)
      && (May(mem, root, va, 4) <==> segs[a].flags / 2 % 2 == 1)
      && (May(mem, root, va, 8) <==> segs[a].flags % 2 == 1)
  {
    hide Space, Fetch, May, PageCount, SegVpn, Prot, Unaligned, PageIs, NewPte, Leaf;
    var seg, b := segs[a], i / 512;
    var va := (seg.vaddr + 8 * i) % VA_END;
    SegmentWord(seg, i);
    assert Before(segs, |segs|, 0, a, b);
    assert SegPageIs(mem, loc, root, seg, b);
    OwnPageSeen(mem, loc, root, pages, trap, trampoline, va, seg.image[b], Prot(seg.flags) + PTE_V);
    ProtMeans(seg.flags);
  }

  /** The stack below base_size starts out as zeros that user code may read and write but not
      execute. */
  lemma StackSeen(mem: Memory, loc: Plan, root: nat, pages: nat, trap: nat, trampoline: nat, segs: seq<Segment>,
                  before: Word, va: nat)
    requires Space(mem, loc, root, pages, trap, trampoline) && PlanOk(mem, loc) && Fits(segs, before)
    requires StackReady(mem, loc, root, Base(segs, before)) && Base(segs, before) - 4096 <= va < Base(segs, before)
    ensures Uniform(mem) && Fetch(mem, root, va) == Some(0)
    ensures May(mem, root, va, 2) && May(mem, root, va, 4) && !May(mem, root, va, 8)
  {
    hide Space, Fetch, May, Base, PageIs, Leaf;
    var base := Base(segs, before);
    BaseAligned(segs, before);
    StackBelowBase(segs, before);
    assert va / 4096 == base / 4096 - 1 && va < VA_END;
    OwnPageSeen(mem, loc, root, pages, trap, trampoline, va, ZeroFrame(), PTE_V + PTE_R + PTE_W + PTE_U);
  }

  /** Below it lies an unmapped guard page, if no segment reaches beyond the end of the last one. */
  lemma GuardSeen(mem: Memory, loc: Plan, root: nat, trap: nat, trampoline: nat, segs: seq<Segment>, before: Word,
                  va: nat)
    requires Space(mem, loc, root, Base(segs, before) / 4096, trap, trampoline) && PlanOk(mem, loc)
    requires Fits(segs, before) && OwnsExactly(loc, root, segs, Base(segs, before))
    requires forall a | 0 <= a < |segs| && segs[a].load && PageCount(segs[a]) > 0 ::
      segs[a].vaddr % VA_END + PageCount(segs[a]) * 4096 <= Base(segs, before) - 8192
    requires Base(segs, before) - 8192 <= va < Base(segs, before) - 4096 && va >= 0
    ensures Uniform(mem) && Found(mem, root, va).None?
  {
    var base, v := Base(segs, before), va / 4096;
    BaseAligned(segs, before);
    StackBelowBase(segs, before);
    hide Base, Found, Leaf, Shape;
    assert v == base / 4096 - 2 && va < VA_END;
    forall a: nat, b: nat | Before(segs, |segs|, 0, a, b)
      ensures SegVpn(segs[a], b) != v
    {
      EndBounds(segs[a], base / 4096 - 2);
    }
    assert Page(root, v) !in loc;
    assert PageOk(mem, loc, root, base / 4096, trap, trampoline, v);
    FoundIsLeaf(mem, loc, root, va);
  }

  /** base_size: a page boundary, one to two pages and a guard page above the end of the last segment
      that is loaded. */
  lemma BasePlace(segs: seq<Segment>, before: Word, i: nat)
    requires i < |segs| && segs[i].load && (forall j | i < j < |segs| :: !segs[j].load)
    requires segs[i].vaddr + segs[i].memsz + 3 * 4096 <= WORD_END
    ensures var end := segs[i].vaddr + segs[i].memsz;
      Base(segs, before) % 4096 == 0 && end + 8192 <= Base(segs, before) < end + 3 * 4096
  {
    hide LastEnd;
    LastLoaded(segs, before, i);
    RoundedEnd(segs[i].vaddr + segs[i].memsz);
  }

  lemma RoundedEnd(end: nat)
    requires end + 3 * 4096 <= WORD_END
    ensures StackEnd(end) % 4096 == 0 && end + 8192 <= StackEnd(end) < end + 3 * 4096
  {
    var q, r := Divide(end + 4095, 4096);
    assert RoundUp(end) == q * 4096;
  }

  lemma {:induction false} LastLoaded(segs: seq<Segment>, before: Word, i: nat)
    requires i < |segs| && segs[i].load && forall j | i < j < |segs| :: !segs[j].load
    ensures LastEnd(segs, before) == (segs[i].vaddr + segs[i].memsz) % WORD_END
  {
    if i < |segs| - 1 {
      LastLoaded(segs[..|segs| - 1], before, i);
    }
  }

  // ---------------------------------------------------------------- father and child

  /** After fork the child finds at every address below base_size what the father finds there, and may
      do the same with it. */
  lemma ChildSees(mem: Memory, loc: Plan, loc0: Plan, father: nat, child: nat, pages: nat, trapF: nat, trapC: nat,
                  trampoline: nat, va: nat)
    requires Space(mem, loc, father, pages, trapF, trampoline) && Space(mem, loc, child, pages, trapC, trampoline)
    requires PlanOk(mem, loc) && Copied(mem, loc, loc0, father, child, pages) && va < pages * 4096
    ensures Uniform(mem) && Fetch(mem, child, va) == Fetch(mem, father, va)
    ensures forall bit: nat | bit > 0 :: May(mem, child, va, bit) <==> May(mem, father, va, bit)
  {
    hide Leaf, Shape, Found;
    var v := va / 4096;
    assert v < pages <= TRAP_VPN && va < VA_END;
    FoundIsLeaf(mem, loc, father, va);
    FoundIsLeaf(mem, loc, child, va);
    assert PageOk(mem, loc, father, pages, trapF, trampoline, v);
    assert PageOk(mem, loc, child, pages, trapC, trampoline, v);
    if Page(father, v) in loc {
      PlaceInRange(mem, loc, Page(father, v));
      PlaceInRange(mem, loc, Page(child, v));
    }
  }

  // ---------------------------------------------------------------- other tasks

  /** Nothing user code can find at an address changed. The shared trampoline is left out. */
  ghost predicate SeesSame(mem0: Memory, root0: nat, mem: Memory, root: nat) {
    Uniform(mem0) && Uniform(mem) &&
    forall va: nat | va < VA_END && va / 4096 != TRAMPOLINE_VPN ::
      Found(mem, root, va) == Found(mem0, root0, va) && Fetch(mem, root, va) == Fetch(mem0, root0, va)
  }

  /** A task whose tables, pages and trap page are as they were sees the same. */
  lemma ViewKept(mem0: Memory, loc0: Plan, mem: Memory, loc: Plan, t: Task, s: nat, trampoline: nat, kroot: nat)
    requires TaskMemory(mem0, loc0, t, s, trampoline, kroot) && Shape(mem0, loc0) && Shape(mem, loc)
    requires PlanOk(mem0, loc0) && PlanOk(mem, loc) && SameSpace(mem0, loc0, mem, loc, t.root)
    requires Trap(s) in loc && loc[Trap(s)] == loc0[Trap(s)] && |mem| == |mem0|
    requires loc[Trap(s)] < |mem| && mem[loc[Trap(s)]] == mem0[loc[Trap(s)]]
    ensures SeesSame(mem0, t.root, mem, t.root)
  {
    hide Shape, Found;
    ShapeUniform(mem0, loc0);
    ShapeUniform(mem, loc);
    assert Mine(Table(t.root, 0, 0), t.root);
    forall va: nat | va < VA_END && va / 4096 != TRAMPOLINE_VPN
      ensures Found(mem, t.root, va) == Found(mem0, t.root, va) && Fetch(mem, t.root, va) == Fetch(mem0, t.root, va)
    {
      ViewAt(mem0, loc0, mem, loc, t, s, trampoline, kroot, va);
    }
  }

  lemma ViewAt(mem0: Memory, loc0: Plan, mem: Memory, loc: Plan, t: Task, s: nat, trampoline: nat, kroot: nat, va: nat)
    requires TaskMemory(mem0, loc0, t, s, trampoline, kroot) && Shape(mem0, loc0) && Shape(mem, loc)
    requires PlanOk(mem0, loc0) && PlanOk(mem, loc) && SameSpace(mem0, loc0, mem, loc, t.root)
    requires Trap(s) in loc && loc[Trap(s)] == loc0[Trap(s)] && |mem| == |mem0|
    requires loc[Trap(s)] < |mem| && mem[loc[Trap(s)]] == mem0[loc[Trap(s)]]
    requires va < VA_END && va / 4096 != TRAMPOLINE_VPN
    ensures Uniform(mem0) && Uniform(mem)
    ensures Found(mem, t.root, va) == Found(mem0, t.root, va) && Fetch(mem, t.root, va) == Fetch(mem0, t.root, va)
  {
    hide Shape, Found, PlanOk, Uniform;
    var v := va / 4096;
    assert Mine(Table(t.root, 0, 0), t.root) && Mine(Table(t.root, 2, v / 512), t.root);
    assert Mine(Page(t.root, v), t.root);
    FoundIsLeaf(mem0, loc0, t.root, va);
    FoundIsLeaf(mem, loc, t.root, va);
    assert Leaf(mem, loc, t.root, v) == Leaf(mem0, loc0, t.root, v);
    assert PageOk(mem0, loc0, t.root, t.base / 4096, t.trap, trampoline, v);
  }

  /** What one task did is invisible to every other task that was there before and still is. */
  ghost predicate Unnoticed(mem0: Memory, tasks0: seq<Task>, mem: Memory, tasks: seq<Task>, s: nat) {
    |tasks| == |tasks0| &&
    forall q | 0 <= q < |tasks| && q != s && !tasks0[q].state.UnInit? && !tasks[q].state.UnInit? ::
      SeesSame(mem0, tasks0[q].root, mem, tasks[q].root)
  }
}
