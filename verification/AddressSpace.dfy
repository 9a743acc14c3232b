/** Address spaces of user processes: building, copying and tearing down (os/src/task.c,
    os/src/address.c, os/src/loader.c). */
module AddressSpace {
  import opened Common
  import opened Sv39
  import opened KernelMemory

  const TRAMPOLINE_VPN: nat := VPN_END - 1
  const TRAP_VPN: nat := VPN_END - 2

  const PTE_R: nat := 2
  const PTE_W: nat := 4
  const PTE_X: nat := 8
  const PTE_U: nat := 16

  /** Frames that belong to the address space with this root. */
  predicate Mine(t: Tag, root: nat) { (t.Table? || t.Page?) && t.root == root }

  /** At most the frames of address space `root` have changed hands or contents. */
  ghost predicate Framed(mem0: Memory, loc0: Plan, mem: Memory, loc: Plan, root: nat) {
    && PlanOk(mem0, loc0) && PlanOk(mem, loc) && |mem| == |mem0|
    && forall t | !Mine(t, root) ::
         && (t in loc <==> t in loc0)
         && (t in loc ==> loc[t] == loc0[t] && mem[loc[t]] == mem0[loc[t]])
  }

  lemma FramedTransitive(mem0: Memory, loc0: Plan, mem1: Memory, loc1: Plan, mem2: Memory, loc2: Plan, root: nat)
    requires Framed(mem0, loc0, mem1, loc1, root) && Framed(mem1, loc1, mem2, loc2, root)
    ensures Framed(mem0, loc0, mem2, loc2, root)
  {
  }

  /** What page v of the space maps. Below `pages` it is a frame of the space's own or nothing;
      at the top, out of the reach of user mode, are the trap page of the task and the trampoline,
      which all spaces share. */
  ghost predicate PageOk(mem: Memory, loc: Plan, root: nat, pages: nat, trap: nat, trampoline: nat, v: nat)
    requires PlanOk(mem, loc)
  {
    var e := Leaf(mem, loc, root, v);
    if v == TRAMPOLINE_VPN then PteFlags(e) == PTE_V + PTE_R + PTE_X && PtePpn(e) == trampoline && Page(root, v) !in loc
    else if v == TRAP_VPN then PteFlags(e) == PTE_V + PTE_R + PTE_W && PtePpn(e) == trap && Page(root, v) !in loc
    else if v < pages then (IsValid(e) <==> Page(root, v) in loc) && (IsValid(e) ==> PtePpn(e) == loc[Page(root, v)])
    else e == 0 && Page(root, v) !in loc
  }

  /** A user address space: its tables, its own pages, and the two shared ones. */
  ghost predicate Space(mem: Memory, loc: Plan, root: nat, pages: nat, trap: nat, trampoline: nat)
    ensures Space(mem, loc, root, pages, trap, trampoline) ==>
      Shape(mem, loc) && Table(root, 0, 0) in loc && pages <= TRAP_VPN
  {
    && Shape(mem, loc) && Table(root, 0, 0) in loc && pages <= TRAP_VPN
    && forall v: nat :: PageOk(mem, loc, root, pages, trap, trampoline, v)
  }

  /** The same, except that the pages in `strays` are mapped without being the space's own. */
  ghost predicate SpaceBut(mem: Memory, loc: Plan, root: nat, pages: nat, trap: nat, trampoline: nat, strays: iset<nat>)
    ensures SpaceBut(mem, loc, root, pages, trap, trampoline, strays) ==>
      Shape(mem, loc) && Table(root, 0, 0) in loc && pages <= TRAP_VPN
  {
    && Shape(mem, loc) && Table(root, 0, 0) in loc && pages <= TRAP_VPN
    && (forall v: nat | v !in strays :: PageOk(mem, loc, root, pages, trap, trampoline, v))
    && (forall v | v in strays :: StrayOk(mem, loc, root, pages, v))
  }

  ghost predicate StrayOk(mem: Memory, loc: Plan, root: nat, pages: nat, v: nat)
    requires PlanOk(mem, loc)
  {
    v < pages && IsValid(Leaf(mem, loc, root, v)) && Page(root, v) !in loc
  }

  /** A space is one without strays. */
  lemma SpaceExactly(mem: Memory, loc: Plan, root: nat, pages: nat, trap: nat, trampoline: nat)
    ensures Space(mem, loc, root, pages, trap, trampoline) <==>
      SpaceBut(mem, loc, root, pages, trap, trampoline, iset{})
  {
    hide Shape, PageOk;
    if SpaceBut(mem, loc, root, pages, trap, trampoline, iset{}) {
      forall v: nat ensures PageOk(mem, loc, root, pages, trap, trampoline, v) { assert v !in iset{}; }
    }
  }

  /** The frames of address space `root` are the same, with the same contents. */
  ghost predicate SameSpace(mem0: Memory, loc0: Plan, mem: Memory, loc: Plan, root: nat)
    requires PlanOk(mem0, loc0) && PlanOk(mem, loc)
  {
    forall t | Mine(t, root) ::
      (t in loc <==> t in loc0) && (t in loc && t in loc0 ==> loc[t] == loc0[t] && mem[loc[t]] == mem0[loc0[t]])
  }

  lemma SpaceButSame(mem0: Memory, loc0: Plan, mem: Memory, loc: Plan, root: nat, pages: nat, trap: nat,
                     trampoline: nat, strays: iset<nat>)
    requires SpaceBut(mem0, loc0, root, pages, trap, trampoline, strays) && Shape(mem, loc)
    requires SameSpace(mem0, loc0, mem, loc, root)
    ensures SpaceBut(mem, loc, root, pages, trap, trampoline, strays)
  {
    hide Shape, Injective, TagOk;
    assert Mine(Table(root, 0, 0), root);
    forall v: nat
      ensures v !in strays ==> PageOk(mem, loc, root, pages, trap, trampoline, v)
      ensures v in strays ==> StrayOk(mem, loc, root, pages, v)
    {
      assert v !in strays ==> PageOk(mem0, loc0, root, pages, trap, trampoline, v);
      assert Mine(Table(root, 2, v / 512), root);
      assert Mine(Page(root, v), root);
    }
  }

  lemma SpaceSame(mem0: Memory, loc0: Plan, mem: Memory, loc: Plan, root: nat, pages: nat, trap: nat, trampoline: nat)
    requires Space(mem0, loc0, root, pages, trap, trampoline) && Shape(mem, loc)
    requires SameSpace(mem0, loc0, mem, loc, root)
    ensures Space(mem, loc, root, pages, trap, trampoline)
  {
    hide *;
    SpaceExactly(mem0, loc0, root, pages, trap, trampoline);
    SpaceButSame(mem0, loc0, mem, loc, root, pages, trap, trampoline, iset{});
    SpaceExactly(mem, loc, root, pages, trap, trampoline);
  }

  /** Working on one address space leaves every other one intact. */
  lemma SpaceFramed(mem0: Memory, loc0: Plan, mem: Memory, loc: Plan, root: nat, other: nat, pages: nat, trap: nat,
                    trampoline: nat)
    requires Framed(mem0, loc0, mem, loc, root) && other != root && Shape(mem, loc)
    requires Space(mem0, loc0, other, pages, trap, trampoline)
    ensures Space(mem, loc, other, pages, trap, trampoline)
  {
    SpaceSame(mem0, loc0, mem, loc, other, pages, trap, trampoline);
  }

  /** A space with room for more pages than it uses is a space. */
  lemma SpaceWiden(mem: Memory, loc: Plan, root: nat, pages: nat, more: nat, trap: nat, trampoline: nat)
    requires Space(mem, loc, root, pages, trap, trampoline) && pages <= more <= TRAP_VPN
    ensures Space(mem, loc, root, more, trap, trampoline)
  {
    forall v: nat
      ensures PageOk(mem, loc, root, more, trap, trampoline, v)
    {
      assert PageOk(mem, loc, root, pages, trap, trampoline, v);
    }
  }

  lemma GrewIsFramed(mem0: Memory, loc0: Plan, mem: Memory, loc: Plan, root: nat)
    requires Grew(mem0, loc0, mem, loc, root)
    ensures Framed(mem0, loc0, mem, loc, root)
    ensures forall v: nat :: Page(root, v) in loc <==> Page(root, v) in loc0
    ensures forall v: nat | Page(root, v) in loc ::
      loc[Page(root, v)] == loc0[Page(root, v)] && mem[loc[Page(root, v)]] == mem0[loc[Page(root, v)]]
  {
  }

  lemma Limits()
    ensures PAGE_SIZE == 4096
    ensures TRAMPOLINE_VPN + 1 == VPN_END && TRAP_VPN + 2 == VPN_END
  {
  }

  lemma MachineParts(m: Machine)
    requires m.Valid()
    ensures m.FramesOk() && Shape(m.mem, m.loc) && PlanOk(m.mem, m.loc)
  {
  }

  lemma MachineValid(m: Machine)
    requires m.FramesOk() && Shape(m.mem, m.loc)
    ensures m.Valid()
  {
  }

  /** Pages are only owned by address spaces that exist. */
  ghost predicate Rooted(loc: Plan) {
    Spare !in loc && forall t | t in loc && t.Page? :: Table(t.root, 0, 0) in loc
  }

  lemma RootAbove(mem: Memory, loc: Plan, t: Tag)
    requires PlanOk(mem, loc) && t in loc && t.Table?
    ensures Table(t.root, 0, 0) in loc && loc[Table(t.root, 0, 0)] == t.root
    decreases t.level
  {
    assert TagOk(loc, t);
    if t.level > 0 {
      RootAbove(mem, loc, Parent(t));
    }
  }

  /** A frame that is not in use is the root of no address space. */
  lemma FreshRoot(mem: Memory, loc: Plan, f: nat)
    requires Shape(mem, loc) && Rooted(loc) && Unused(loc, f)
    ensures forall t | t in loc :: !Mine(t, f)
  {
    forall t | t in loc
      ensures !Mine(t, f)
    {
      if t.Table? {
        RootAbove(mem, loc, t);
      } else if t.Page? {
        RootAbove(mem, loc, Table(t.root, 0, 0));
      }
    }
  }

  // ---------------------------------------------------------------- building

  /** The root table of a new address space. */
  method NewRoot(m: Machine) returns (ok: bool, root: nat)
    requires m.Valid() && Rooted(m.loc)
    modifies m
    ensures m.FramesOk() && (!ok ==> m.Exhausted())
    ensures ok ==>
      && Unused(old(m.loc), root) && Shape(m.mem, m.loc) && Rooted(m.loc)
      && Framed(old(m.mem), old(m.loc), m.mem, m.loc, root)
      && (forall t | Mine(t, root) :: t in m.loc <==> t == Table(root, 0, 0))
      && (forall v: nat :: Leaf(m.mem, m.loc, root, v) == 0)
  {
    forall f | Unused(m.loc, f) ensures Table(f, 0, 0) !in m.loc { FreshRoot(m.mem, m.loc, f); }
    ok, root := m.Alloc((f: nat) => Table(f, 0, 0));
    if ok {
      FreshRoot(old(m.mem), old(m.loc), root);
      WriteData(old(m.mem), old(m.loc), root, ZeroFrame());
      AddRoot(m.mem, old(m.loc), root);
      assert forall v: nat :: Table(root, 2, v / 512) !in m.loc;
    }
  }

  /** proc_pagetable: an address space that maps the trampoline and the trap page only. */
  method NewSpace(m: Machine, trap: nat, trampoline: nat) returns (ok: bool, root: nat)
    requires m.Valid() && Rooted(m.loc) && trap < PPN_END && trampoline < PPN_END
    modifies m
    ensures m.FramesOk() && (!ok ==> m.Exhausted())
    ensures ok ==>
      && Unused(old(m.loc), root) && Rooted(m.loc)
      && Framed(old(m.mem), old(m.loc), m.mem, m.loc, root)
      && Space(m.mem, m.loc, root, 0, trap, trampoline)
  {
    ok, root := NewRoot(m);
    if !ok {
      return;
    }
    ghost var mem1, loc1 := m.mem, m.loc;
    var r := m.MapPage(root, TRAMPOLINE_VPN, trampoline, PTE_R + PTE_X);
    if r != Done {
      return false, root;
    }
    ghost var mem2, loc2 := m.mem, m.loc;
    r := m.MapPage(root, TRAP_VPN, trap, PTE_R + PTE_W);
    if r != Done {
      return false, root;
    }
    NewSpaceOk(old(m.mem), old(m.loc), mem1, loc1, mem2, loc2, m.mem, m.loc, root, trap, trampoline);
  }

  lemma NewSpaceOk(mem0: Memory, loc0: Plan, mem1: Memory, loc1: Plan, mem2: Memory, loc2: Plan, mem3: Memory,
                   loc3: Plan,
                   root: nat, trap: nat, trampoline: nat)
    requires trap < PPN_END && trampoline < PPN_END
    requires Framed(mem0, loc0, mem1, loc1, root) && Rooted(loc1) && Shape(mem1, loc1)
    requires forall t | Mine(t, root) :: t in loc1 <==> t == Table(root, 0, 0)
    requires forall v: nat :: Leaf(mem1, loc1, root, v) == 0
    requires Grew(mem1, loc1, mem2, loc2, root)
    requires LeafSet(mem1, loc1, mem2, loc2, root, TRAMPOLINE_VPN, NewPte(trampoline, WithValid(PTE_R + PTE_X)))
    requires Grew(mem2, loc2, mem3, loc3, root)
    requires LeafSet(mem2, loc2, mem3, loc3, root, TRAP_VPN, NewPte(trap, WithValid(PTE_R + PTE_W)))
    ensures Framed(mem0, loc0, mem3, loc3, root) && Rooted(loc3)
    ensures Space(mem3, loc3, root, 0, trap, trampoline)
  {
    hide Shape, PlanOk, Framed;
    GrewTransitive(mem1, loc1, mem2, loc2, mem3, loc3, root);
    GrewIsFramed(mem1, loc1, mem3, loc3, root);
    FramedTransitive(mem0, loc0, mem1, loc1, mem3, loc3, root);
    PteRoundTrip(trampoline, WithValid(PTE_R + PTE_X));
    PteRoundTrip(trap, WithValid(PTE_R + PTE_W));
    forall v: nat
      ensures PageOk(mem3, loc3, root, 0, trap, trampoline, v)
    {
      assert Leaf(mem3, loc3, root, v) == if v == TRAP_VPN then NewPte(trap, WithValid(PTE_R + PTE_W))
                                          else Leaf(mem2, loc2, root, v);
      assert !(Page(root, v) in loc1);
    }
  }

  /** Address space `root` gained page vpn, on a frame nobody used, holding `data`; all its other
      pages are where they were. Pages vpn..hi are mapped to that frame and the ones after it. */
  ghost predicate PageAdded(mem0: Memory, loc0: Plan, mem: Memory, loc: Plan, root: nat, vpn: nat, hi: nat,
                            data: Frame, flags: nat)
    requires flags < 256
  {
    && Framed(mem0, loc0, mem, loc, root)
    && (forall t | t in loc0 :: t in loc && loc[t] == loc0[t])
    && Page(root, vpn) !in loc0 && Page(root, vpn) in loc
    && Unused(loc0, loc[Page(root, vpn)]) && mem[loc[Page(root, vpn)]] == data
    && RangeSet(mem0, loc0, mem, loc, root, vpn, hi, loc[Page(root, vpn)], flags)
    && (forall v: nat | v != vpn :: Page(root, v) in loc <==> Page(root, v) in loc0)
    && (forall v: nat | v != vpn && Page(root, v) in loc ::
          loc[Page(root, v)] == loc0[Page(root, v)] && mem[loc[Page(root, v)]] == mem0[loc[Page(root, v)]])
  }

  /** Strays after mapping pages vpn..hi where only the first is the space's own. */
  ghost function Spill(strays: iset<nat>, vpn: nat, hi: nat): iset<nat> {
    iset v: nat | v in strays || Between(vpn, v, hi)
  }

  predicate Between(lo: nat, v: nat, hi: nat) { lo < v < hi }

  lemma PageAddedOk(mem0: Memory, loc0: Plan, mem1: Memory, loc1: Plan, mem2: Memory, loc2: Plan,
                    root: nat, vpn: nat, hi: nat, ppn: nat, data: Frame, flags: nat,
                    pages: nat, trap: nat, trampoline: nat, strays: iset<nat>)
    requires flags < 256 && |data| == ENTRIES && vpn < hi && ppn < |mem0| && Rooted(loc0)
    requires vpn < pages && (hi == vpn + 1 || (hi <= VPN_END && pages == TRAP_VPN))
    requires SpaceBut(mem0, loc0, root, pages, trap, trampoline, strays)
    requires Unused(loc0, ppn) && Page(root, vpn) !in loc0 && !SomeMapped(mem0, loc0, root, vpn, hi)
    requires mem1 == mem0[ppn := data] && loc1 == loc0[Page(root, vpn) := ppn]
    requires Shape(mem1, loc1) && forall r: nat, v: nat :: Leaf(mem1, loc1, r, v) == Leaf(mem0, loc0, r, v)
    requires Grew(mem1, loc1, mem2, loc2, root)
    requires RangeSet(mem1, loc1, mem2, loc2, root, vpn, hi, ppn, flags)
    ensures PageAdded(mem0, loc0, mem2, loc2, root, vpn, hi, data, flags)
    ensures SpaceBut(mem2, loc2, root, pages, trap, trampoline, Spill(strays, vpn, hi)) && Rooted(loc2)
  {
    hide Shape, Injective, TagOk, Uniform;
    GrewIsFramed(mem1, loc1, mem2, loc2, root);
    OneMore(mem0, loc0, mem1, loc1, root, vpn, ppn, data);
    FramedTransitive(mem0, loc0, mem1, loc1, mem2, loc2, root);
    hide PlanOk, Framed, Grew;
    AddedSpace(mem0, loc0, mem1, loc1, mem2, loc2, root, vpn, hi, ppn, flags, pages, trap, trampoline, strays);
  }

  lemma OneMore(mem0: Memory, loc0: Plan, mem1: Memory, loc1: Plan, root: nat, vpn: nat, ppn: nat, data: Frame)
    requires PlanOk(mem0, loc0) && PlanOk(mem1, loc1) && ppn < |mem0| && Unused(loc0, ppn)
    requires mem1 == mem0[ppn := data] && loc1 == loc0[Page(root, vpn) := ppn] && Page(root, vpn) !in loc0
    ensures Framed(mem0, loc0, mem1, loc1, root)
    ensures forall t | t in loc0 :: t in loc1 && loc1[t] == loc0[t] && mem1[loc1[t]] == mem0[loc0[t]]
  {
  }

  lemma AddedSpace(mem0: Memory, loc0: Plan, mem1: Memory, loc1: Plan, mem2: Memory, loc2: Plan,
                   root: nat, vpn: nat, hi: nat, ppn: nat, flags: nat,
                   pages: nat, trap: nat, trampoline: nat, strays: iset<nat>)
    requires flags < 256 && vpn < hi && ppn < PPN_END
    requires vpn < pages && (hi == vpn + 1 || (hi <= VPN_END && pages == TRAP_VPN))
    requires SpaceBut(mem0, loc0, root, pages, trap, trampoline, strays) && Shape(mem1, loc1)
    requires !SomeMapped(mem0, loc0, root, vpn, hi)
    requires Page(root, vpn) !in loc0 && loc1 == loc0[Page(root, vpn) := ppn]
    requires forall r: nat, v: nat :: Leaf(mem1, loc1, r, v) == Leaf(mem0, loc0, r, v)
    requires Shape(mem2, loc2) && RangeSet(mem1, loc1, mem2, loc2, root, vpn, hi, ppn, flags)
    requires forall v: nat :: Page(root, v) in loc2 <==> Page(root, v) in loc1
    requires forall v: nat | Page(root, v) in loc2 :: loc2[Page(root, v)] == loc1[Page(root, v)]
    requires Table(root, 0, 0) in loc2
    ensures SpaceBut(mem2, loc2, root, pages, trap, trampoline, Spill(strays, vpn, hi))
  {
    hide Shape, PlanOk, Leaf, NewPte, PteFlags, PtePpn;
    PteRoundTrip(ppn, WithValid(flags));
    forall v: nat
      ensures v !in Spill(strays, vpn, hi) ==> PageOk(mem2, loc2, root, pages, trap, trampoline, v)
      ensures v in Spill(strays, vpn, hi) ==> StrayOk(mem2, loc2, root, pages, v)
    {
      assert v !in strays ==> PageOk(mem0, loc0, root, pages, trap, trampoline, v);
      assert v in strays ==> StrayOk(mem0, loc0, root, pages, v);
      assert Leaf(mem1, loc1, root, v) == Leaf(mem0, loc0, root, v);
      assert Leaf(mem2, loc2, root, v) ==
        if vpn <= v < hi then NewPte(ppn + (v - vpn), WithValid(flags)) else Leaf(mem1, loc1, root, v);
      ValidAfterNew(if v >= vpn then ppn + (v - vpn) else 0, WithValid(flags));
    }
  }

  /** kalloc followed by a copy into the new frame. */
  method TakeFrame(m: Machine, data: Frame, ghost tag: Tag) returns (ok: bool, ppn: nat)
    requires m.Valid() && tag !in m.loc && !tag.Table? && |data| == ENTRIES
    modifies m
    ensures m.FramesOk() && (!ok ==> m.Exhausted())
    ensures ok ==>
      && ppn < |old(m.mem)| && Unused(old(m.loc), ppn)
      && m.loc == old(m.loc)[tag := ppn] && m.mem == old(m.mem)[ppn := data]
      && Shape(m.mem, m.loc)
      && (forall r: nat, v: nat :: Leaf(m.mem, m.loc, r, v) == old(Leaf(m.mem, m.loc, r, v)))
  {
    ghost var mem0, loc0 := m.mem, m.loc;
    ok, ppn := m.Alloc(_ => tag);
    if ok {
      hide BooksOk;
      WriteData(mem0, loc0, ppn, data);
      m.mem := m.mem[ppn := data];
      assert m.mem == mem0[ppn := data];
      AddOther(m.mem, loc0, tag, ppn);
    }
  }

  /** The page after the last one that one page worth of bytes at va touches. */
  function PageEnd(va: nat): nat { (va + PAGE_SIZE - 1) / PAGE_SIZE + 1 }

  lemma PagesOf(va: nat)
    ensures va / PAGE_SIZE < PageEnd(va) <= va / PAGE_SIZE + 2
    ensures PageEnd(va) == va / PAGE_SIZE + 1 <==> va % PAGE_SIZE == 0
    ensures va + PAGE_SIZE <= VPN_END * PAGE_SIZE <==> PageEnd(va) <= VPN_END
  {
  }

  /** The three steps by which the kernel gives a process a page: take a frame, fill it, map it. At
      an address inside a page the mapping call reaches a second page, which gets the frame after
      the one taken. */
  method AddPage(m: Machine, root: nat, va: nat, data: Frame, flags: nat, ghost pages: nat, ghost trap: nat,
                 ghost trampoline: nat, ghost strays: iset<nat>)
    returns (r: Status)
    requires m.Valid() && Rooted(m.loc) && SpaceBut(m.mem, m.loc, root, pages, trap, trampoline, strays)
    requires var vpn := va / PAGE_SIZE; vpn < pages || vpn == TRAP_VPN || vpn == TRAMPOLINE_VPN
    requires va % PAGE_SIZE == 0 || pages == TRAP_VPN
    requires |data| == ENTRIES && flags < 256
    modifies m
    ensures m.FramesOk() && (r == OutOfMemory ==> m.Exhausted())
    ensures r == Done ==>
      && va / PAGE_SIZE < pages && !SomeMapped(old(m.mem), old(m.loc), root, va / PAGE_SIZE, PageEnd(va))
      && PageAdded(old(m.mem), old(m.loc), m.mem, m.loc, root, va / PAGE_SIZE, PageEnd(va), data, flags)
      && SpaceBut(m.mem, m.loc, root, pages, trap, trampoline, Spill(strays, va / PAGE_SIZE, PageEnd(va)))
      && Rooted(m.loc)
    ensures r != EmptyRange
    ensures r == AlreadyMapped ==> SomeMapped(old(m.mem), old(m.loc), root, va / PAGE_SIZE, PageEnd(va))
  {
    hide *;
    MachineParts(m);
    Limits();
    PagesOf(va);
    ghost var mem0, loc0 := m.mem, m.loc;
    ghost var vpn := va / PAGE_SIZE;
    PlaceForPage(mem0, loc0, root, pages, trap, trampoline, strays, vpn);
    ghost var tag := if Page(root, vpn) in m.loc || vpn >= pages then Spare else Page(root, vpn);
    var ok, ppn := TakeFrame(m, data, tag);
    if !ok {
      return OutOfMemory;
    }
    ghost var mem1, loc1 := m.mem, m.loc;
    MachineValid(m);
    FrameNumber(ppn);
    assert Leaf(mem1, loc1, root, vpn) == Leaf(mem0, loc0, root, vpn);
    r := m.MapRange(root, va, ppn * PAGE_SIZE, PAGE_SIZE, flags);
    SameMapped(mem0, loc0, mem1, loc1, root, vpn, PageEnd(va));
    if r == Done {
      NowhereMapped(mem0, loc0, root, vpn, PageEnd(va));
      PageAddedOk(mem0, loc0, mem1, loc1, m.mem, m.loc, root, vpn, PageEnd(va), ppn, data, flags,
                  pages, trap, trampoline, strays);
    }
  }

  lemma FrameNumber(ppn: nat)
    ensures ppn * PAGE_SIZE / PAGE_SIZE == ppn && PAGE_SIZE == 4096
    ensures forall va: nat :: (va + PAGE_SIZE - 1) / PAGE_SIZE + 1 == PageEnd(va)
  {
  }

  lemma SameMapped(mem0: Memory, loc0: Plan, mem1: Memory, loc1: Plan, root: nat, lo: nat, hi: nat)
    requires PlanOk(mem0, loc0) && PlanOk(mem1, loc1)
    requires forall r: nat, v: nat :: Leaf(mem1, loc1, r, v) == Leaf(mem0, loc0, r, v)
    ensures SomeMapped(mem0, loc0, root, lo, hi) <==> SomeMapped(mem1, loc1, root, lo, hi)
  {
    hide PlanOk, Leaf;
  }

  lemma NowhereMapped(mem: Memory, loc: Plan, root: nat, lo: nat, hi: nat)
    requires PlanOk(mem, loc) && !SomeMapped(mem, loc, root, lo, hi) && lo < hi
    ensures !IsValid(Leaf(mem, loc, root, lo))
  {
    hide PlanOk, Leaf;
  }

  /** A page that the space already has, or that lies at its top, is mapped. */
  lemma PlaceForPage(mem: Memory, loc: Plan, root: nat, pages: nat, trap: nat, trampoline: nat, strays: iset<nat>,
                     vpn: nat)
    requires SpaceBut(mem, loc, root, pages, trap, trampoline, strays) && Rooted(loc)
    requires vpn < pages || vpn == TRAP_VPN || vpn == TRAMPOLINE_VPN
    ensures Table(root, 0, 0) in loc && Spare !in loc && vpn < VPN_END && pages <= TRAP_VPN
    ensures Page(root, vpn) in loc || vpn >= pages ==> IsValid(Leaf(mem, loc, root, vpn))
    ensures vpn == TRAMPOLINE_VPN ==> IsValid(Leaf(mem, loc, root, vpn))
  {
    if vpn !in strays {
      assert PageOk(mem, loc, root, pages, trap, trampoline, vpn);
    }
  }

  // ---------------------------------------------------------------- copying

  /** The first n pages of `child` are those of `father`: the same pages with the same flags and
      the same contents, each on a frame that was not in use under loc0; it has no others. */
  ghost predicate Copied(mem: Memory, loc: Plan, loc0: Plan, father: nat, child: nat, n: nat)
    requires PlanOk(mem, loc)
  {
    && (forall v: nat | v < n :: Page(child, v) in loc <==> Page(father, v) in loc)
    && (forall v: nat | v < n && Page(child, v) in loc && Page(father, v) in loc ::
          && PteFlags(Leaf(mem, loc, child, v)) == PteFlags(Leaf(mem, loc, father, v))
          && mem[loc[Page(child, v)]] == mem[loc[Page(father, v)]]
          && Unused(loc0, loc[Page(child, v)]))
    && (forall v: nat | v >= n :: Page(child, v) !in loc)
  }

  lemma CopyStep(mem1: Memory, loc1: Plan, mem2: Memory, loc2: Plan, loc0: Plan, father: nat, child: nat, n: nat,
                 flags: nat)
    requires father != child && flags < 256 && PlanOk(mem1, loc1) && PlanOk(mem2, loc2)
    requires Copied(mem1, loc1, loc0, father, child, n) && Page(father, n) in loc1
    requires flags == PteFlags(Leaf(mem1, loc1, father, n)) && flags % 2 == 1
    requires PageAdded(mem1, loc1, mem2, loc2, child, n, n + 1, mem1[loc1[Page(father, n)]], flags)
    requires forall t | t in loc0 :: t in loc1 && loc1[t] == loc0[t]
    ensures Copied(mem2, loc2, loc0, father, child, n + 1)
  {
    PteRoundTrip(loc2[Page(child, n)], WithValid(flags));
    hide PlanOk;
    forall v: nat
      ensures !Mine(Page(father, v), child)
      ensures Leaf(mem2, loc2, father, v) == Leaf(mem1, loc1, father, v)
    {
    }
  }

  lemma CopyStart(mem: Memory, loc: Plan, father: nat, child: nat)
    requires PlanOk(mem, loc) && forall v: nat :: Page(child, v) !in loc
    ensures Framed(mem, loc, mem, loc, child) && Copied(mem, loc, loc, father, child, 0)
  {
  }

  lemma CopySkip(mem: Memory, loc: Plan, loc0: Plan, father: nat, child: nat, n: nat)
    requires PlanOk(mem, loc) && Copied(mem, loc, loc0, father, child, n) && Page(father, n) !in loc
    ensures Copied(mem, loc, loc0, father, child, n + 1)
  {
  }

  lemma PlaceInRange(mem: Memory, loc: Plan, t: Tag)
    requires PlanOk(mem, loc) && t in loc
    ensures loc[t] < |mem| <= PPN_END && |mem[loc[t]]| == ENTRIES
  {
  }

  lemma LeafOfPage(mem: Memory, loc: Plan, root: nat, pages: nat, trap: nat, trampoline: nat, v: nat)
    requires Space(mem, loc, root, pages, trap, trampoline) && v < pages
    ensures IsValid(Leaf(mem, loc, root, v)) <==> Page(root, v) in loc
    ensures Page(root, v) in loc ==> PtePpn(Leaf(mem, loc, root, v)) == loc[Page(root, v)]
  {
    assert PageOk(mem, loc, root, pages, trap, trampoline, v);
  }

  /** uvm_copy: the child gets the father's pages on fresh frames, the father keeps his, and the
      mapping assertion cannot fail. */
  method CopySpace(m: Machine, father: nat, child: nat, pages: nat, ghost trap: nat, ghost trap': nat,
                   ghost trampoline: nat)
    returns (r: Status)
    requires m.Valid() && Rooted(m.loc) && father != child
    requires Space(m.mem, m.loc, father, pages, trap, trampoline)
    requires Space(m.mem, m.loc, child, pages, trap', trampoline)
    requires forall v: nat :: Page(child, v) !in m.loc
    modifies m
    ensures m.FramesOk() && (r == Done || (r == OutOfMemory && m.Exhausted()))
    ensures r == Done ==>
      && Framed(old(m.mem), old(m.loc), m.mem, m.loc, child) && Rooted(m.loc)
      && Space(m.mem, m.loc, child, pages, trap', trampoline)
      && Copied(m.mem, m.loc, old(m.loc), father, child, pages)
      && (forall t | t in old(m.loc) :: t in m.loc && m.loc[t] == old(m.loc)[t])
  {
    hide *;
    Limits();
    ghost var mem0, loc0 := m.mem, m.loc;
    MachineParts(m);
    CopyStart(mem0, loc0, father, child);
    r := Done;
    var v := 0;
    while v < pages
      invariant 0 <= v <= pages && r == Done
      invariant m.FramesOk() && Rooted(m.loc)
      invariant Framed(mem0, loc0, m.mem, m.loc, child)
      invariant Space(m.mem, m.loc, father, pages, trap, trampoline)
      invariant Space(m.mem, m.loc, child, pages, trap', trampoline)
      invariant Copied(m.mem, m.loc, loc0, father, child, v)
      invariant forall t | t in loc0 :: t in m.loc && m.loc[t] == loc0[t]
    {
      ghost var mem1, loc1 := m.mem, m.loc;
      MachineValid(m);
      var pte := m.FindPte(father, v);
      LeafOfPage(m.mem, m.loc, father, pages, trap, trampoline, v);
      if pte.Some? {
        r := CopyPage(m, father, child, pages, v, trap, trap', trampoline, loc0);
        if r != Done {
          return;
        }
        FramedTransitive(mem0, loc0, mem1, loc1, m.mem, m.loc, child);
      } else {
        CopySkip(m.mem, m.loc, loc0, father, child, v);
      }
      v := v + 1;
    }
  }

  /** The body of uvm_copy's loop for a page that is mapped. */
  method CopyPage(m: Machine, father: nat, child: nat, pages: nat, v: nat, ghost trap: nat, ghost trap': nat,
                  ghost trampoline: nat, ghost loc0: Plan)
    returns (r: Status)
    requires m.Valid() && Rooted(m.loc) && father != child && v < pages
    requires Space(m.mem, m.loc, father, pages, trap, trampoline)
    requires Space(m.mem, m.loc, child, pages, trap', trampoline)
    requires Page(father, v) in m.loc && Copied(m.mem, m.loc, loc0, father, child, v)
    requires forall t | t in loc0 :: t in m.loc && m.loc[t] == loc0[t]
    modifies m
    ensures m.FramesOk() && (r == Done || (r == OutOfMemory && m.Exhausted()))
    ensures r == Done ==>
      && Framed(old(m.mem), old(m.loc), m.mem, m.loc, child) && Rooted(m.loc)
      && Space(m.mem, m.loc, father, pages, trap, trampoline) && Space(m.mem, m.loc, child, pages, trap', trampoline)
      && Copied(m.mem, m.loc, loc0, father, child, v + 1)
      && (forall t | t in loc0 :: t in m.loc && m.loc[t] == loc0[t])
  {
    hide *;
    ghost var mem1, loc1 := m.mem, m.loc;
    CopyReady(m, father, child, pages, v, trap, trap', trampoline, loc0);
    var pte := m.FindPte(father, v);
    var e := m.mem[pte.value.frame][pte.value.index];
    ghost var data := mem1[PtePpn(e)];
    PageStart(v);
    r := AddPage(m, child, v * PAGE_SIZE, m.mem[PtePpn(e)], PteFlags(e), pages, trap', trampoline, iset{});
    if r == Done {
      SpaceExactly(m.mem, m.loc, child, pages, trap', trampoline);
      AddedKeeps(mem1, loc1, m.mem, m.loc, child, v, v + 1, data, PteFlags(e), loc0);
      SpaceFramed(mem1, loc1, m.mem, m.loc, child, father, pages, trap, trampoline);
      CopyStep(mem1, loc1, m.mem, m.loc, loc0, father, child, v, PteFlags(e));
    }
  }

  /** The father's entry is where his walk ends, and the child has nothing there yet. */
  lemma CopyReady(m: Machine, father: nat, child: nat, pages: nat, v: nat, trap: nat, trap': nat, trampoline: nat,
                  loc0: Plan)
    requires m.Valid() && v < pages && Space(m.mem, m.loc, father, pages, trap, trampoline)
    requires Space(m.mem, m.loc, child, pages, trap', trampoline)
    requires Page(father, v) in m.loc && Copied(m.mem, m.loc, loc0, father, child, v)
    ensures v < VPN_END && PAGE_SIZE == 4096 && pages <= TRAP_VPN && Table(father, 0, 0) in m.loc
    ensures SpaceBut(m.mem, m.loc, child, pages, trap', trampoline, iset{})
    ensures !SomeMapped(m.mem, m.loc, child, v, v + 1)
    ensures var t, e := Table(father, 2, v / 512), Leaf(m.mem, m.loc, father, v);
      && t in m.loc && m.loc[t] < |m.mem| && v % 512 < |m.mem[m.loc[t]]| && m.mem[m.loc[t]][v % 512] == e
      && IsValid(e) && PteFlags(e) % 2 == 1 && PteFlags(e) < 256
      && PtePpn(e) == m.loc[Page(father, v)] < |m.mem| && |m.mem[PtePpn(e)]| == ENTRIES
  {
    hide Shape, BooksOk, SpaceBut, SomeMapped, PtePpn, Leaf;
    LeafOfPage(m.mem, m.loc, father, pages, trap, trampoline, v);
    LeafOfPage(m.mem, m.loc, child, pages, trap', trampoline, v);
    SpaceExactly(m.mem, m.loc, child, pages, trap', trampoline);
    WalkIsLeaf(m.mem, m.loc, father, v);
    PlaceInRange(m.mem, m.loc, Page(father, v));
    LeafCell(m.mem, m.loc, father, v);
    OneMapped(m.mem, m.loc, child, v);
  }

  lemma PageStart(v: nat)
    ensures v * PAGE_SIZE / PAGE_SIZE == v && v * PAGE_SIZE % PAGE_SIZE == 0 && PageEnd(v * PAGE_SIZE) == v + 1
    ensures Spill(iset{}, v, v + 1) == iset{}
  {
  }

  lemma OneMapped(mem: Memory, loc: Plan, root: nat, v: nat)
    requires PlanOk(mem, loc)
    ensures SomeMapped(mem, loc, root, v, v + 1) <==> IsValid(Leaf(mem, loc, root, v))
  {
    hide PlanOk, Leaf;
  }

  lemma AddedKeeps(mem1: Memory, loc1: Plan, mem2: Memory, loc2: Plan, root: nat, vpn: nat, hi: nat, data: Frame,
                   flags: nat, loc0: Plan)
    requires flags < 256 && PageAdded(mem1, loc1, mem2, loc2, root, vpn, hi, data, flags)
    requires forall t | t in loc0 :: t in loc1 && loc1[t] == loc0[t]
    ensures Framed(mem1, loc1, mem2, loc2, root)
    ensures forall t | t in loc0 :: t in loc2 && loc2[t] == loc0[t]
  {
  }

  // ---------------------------------------------------------------- tearing down

  /** What is left when an address space, and perhaps the trap page of its task, is gone. */
  ghost function Without(loc: Plan, root: nat, withTrap: bool, slot: nat): Plan {
    map t | t in loc && !Mine(t, root) && !(withTrap && t == Trap(slot)) :: loc[t]
  }

  /** The same frames serve the same purposes with the same contents. */
  ghost predicate Kept(mem0: Memory, mem: Memory, loc: Plan) {
    |mem| == |mem0| && forall t | t in loc && loc[t] < |mem| :: mem[loc[t]] == mem0[loc[t]]
  }

  ghost function PageTags(root: nat): nat -> Tag { (v: nat) => Page(root, v) }
  ghost function TrapTags(slot: nat): nat -> Tag { (v: nat) => Trap(slot) }

  /** The trampoline and the trap page are unmapped first. */
  lemma SharedGone(mem0: Memory, loc0: Plan, mem1: Memory, loc1: Plan, mem2: Memory, loc2: Plan,
                   root: nat, pages: nat, trap: nat, trampoline: nat, withTrap: bool, slot: nat)
    requires Space(mem0, loc0, root, pages, trap, trampoline)
    requires Unmapped(mem0, loc0, mem1, loc1, root, TRAMPOLINE_VPN, TRAMPOLINE_VPN + 1, false, TrapTags(slot))
    requires Unmapped(mem1, loc1, mem2, loc2, root, TRAP_VPN, TRAP_VPN + 1, withTrap, TrapTags(slot))
    ensures loc2 == if withTrap then loc0 - {Trap(slot)} else loc0
    ensures forall v: nat :: Leaf(mem2, loc2, root,
                                  v) == if v == TRAP_VPN || v == TRAMPOLINE_VPN then 0 else Leaf(mem0, loc0, root, v)
    ensures |mem2| == |mem0|
    ensures forall t | t in loc2 && !(t.Table? && t.root == root) :: mem2[loc2[t]] == mem0[loc2[t]]
  {
    assert PageOk(mem0, loc0, root, pages, trap, trampoline, TRAP_VPN);
    assert Leaf(mem1, loc1, root, TRAP_VPN) == Leaf(mem0, loc0, root, TRAP_VPN);
    if withTrap {
      assert TrapTags(slot)(TRAP_VPN) == Trap(slot);
      assert Trap(slot) in Released(mem1, loc1, root, TRAP_VPN, TRAP_VPN + 1, TrapTags(slot));
      assert Released(mem1, loc1, root, TRAP_VPN, TRAP_VPN + 1, TrapTags(slot)) == {Trap(slot)};
    }
  }

  /** After the three unmapping calls no page is mapped, and of the space only tables are left. */
  lemma OnlyTablesLeft(mem0: Memory, loc0: Plan, mem2: Memory, loc2: Plan, mem3: Memory, loc3: Plan,
                       root: nat, pages: nat, trap: nat, trampoline: nat, withTrap: bool, slot: nat)
    requires Space(mem0, loc0, root, pages, trap, trampoline)
    requires PlanOk(mem2, loc2) && loc2 == if withTrap then loc0 - {Trap(slot)} else loc0
    requires forall v: nat :: Leaf(mem2, loc2, root,
                                   v) == if v == TRAP_VPN || v == TRAMPOLINE_VPN then 0 else Leaf(mem0, loc0, root, v)
    requires Unmapped(mem2, loc2, mem3, loc3, root, 0, pages, true, PageTags(root))
    ensures forall v: nat :: Leaf(mem3, loc3, root, v) == 0
    ensures forall t :: t in loc3 <==> t in loc2 && !(t.Page? && t.root == root)
    ensures |mem3| == |mem2|
    ensures forall t | t in loc3 :: loc3[t] == loc0[t]
  {
    hide PlanOk, Shape;
    var gone := Released(mem2, loc2, root, 0, pages, PageTags(root));
    forall v: nat
      ensures Leaf(mem3, loc3, root, v) == 0
      ensures Page(root, v) in gone <==> Page(root, v) in loc2
    {
      assert PageOk(mem0, loc0, root, pages, trap, trampoline, v);
      assert PageTags(root)(v) == Page(root, v);
    }
    assert forall t | t in gone :: t.Page? && t.root == root;
  }

  /** With every page unmapped, the tables are exactly what hangs below the root. */
  lemma TablesBelowRoot(mem: Memory, loc: Plan, root: nat)
    requires Shape(mem, loc) && Table(root, 0, 0) in loc
    requires forall v: nat :: Leaf(mem, loc, root, v) == 0
    ensures AllClear(mem, loc, Table(root, 0, 0))
    ensures forall t | t in loc :: InSubtree(t, Table(root, 0, 0)) <==> t.Table? && t.root == root
  {
    var top := Table(root, 0, 0);
    forall u, j | u in loc && InSubtree(u, top) && u.level == 2 && 0 <= j < ENTRIES
      ensures mem[loc[u]][j] == 0
    {
      assert Leaf(mem, loc, root, u.prefix * 512 + j) == 0;
      assert (u.prefix * 512 + j) / 512 == u.prefix && (u.prefix * 512 + j) % 512 == j;
    }
    forall t | t in loc
      ensures InSubtree(t, top) <==> t.Table? && t.root == root
    {
      assert TagOk(loc, t);
    }
  }

  lemma ClearExactly(mem: Memory, loc: Plan, root: nat)
    requires Shape(mem, loc)
    ensures AllClear(mem, loc, Table(root, 0, 0)) <==> forall v: nat | v < VPN_END :: Leaf(mem, loc, root, v) == 0
  {
    var top := Table(root, 0, 0);
    forall u, j | u in loc && InSubtree(u, top) && u.level == 2 && 0 <= j < ENTRIES
      ensures u.prefix * 512 + j < VPN_END && Leaf(mem, loc, root, u.prefix * 512 + j) == mem[loc[u]][j]
    {
      assert TagOk(loc, u);
      assert (u.prefix * 512 + j) / 512 == u.prefix && (u.prefix * 512 + j) % 512 == j;
    }
    forall v: nat | v < VPN_END && Table(root, 2, v / 512) in loc
      ensures InSubtree(Table(root, 2, v / 512), top)
    {
      assert TagOk(loc, Table(root, 2, v / 512));
    }
  }

  /** free_proc_memory (without the trap page) and the memory part of free_child (with it): every
      frame of the space is released exactly once, nothing else changes, and neither panic of the
      teardown is reached. */
  method DestroySpace(m: Machine, root: nat, pages: nat, withTrap: bool, ghost trap: nat, ghost trampoline: nat,
                      ghost slot: nat)
    returns (r: FreeResult)
    requires m.Valid() && Rooted(m.loc) && Space(m.mem, m.loc, root, pages, trap, trampoline)
    requires withTrap ==> Trap(slot) in m.loc && m.loc[Trap(slot)] == trap
    modifies m
    ensures r == Freed && m.Valid() && Rooted(m.loc)
    ensures m.loc == Without(old(m.loc), root, withTrap, slot)
    ensures Kept(old(m.mem), m.mem, m.loc)
  {
    hide *;
    Limits();
    MachineParts(m);
    ghost var mem0, loc0 := m.mem, m.loc;
    r := m.UnmapFree(root, TRAMPOLINE_VPN, 1, false, TrapTags(slot));
    ghost var mem1, loc1 := m.mem, m.loc;
    TrapReleasable(mem0, loc0, mem1, loc1, root, pages, trap, trampoline, withTrap, slot);
    r := m.UnmapFree(root, TRAP_VPN, 1, withTrap, TrapTags(slot));
    MachineParts(m);
    ghost var mem2, loc2 := m.mem, m.loc;
    SharedGone(mem0, loc0, mem1, loc1, mem2, loc2, root, pages, trap, trampoline, withTrap, slot);
    PagesReleasable(mem0, loc0, mem2, loc2, root, pages, trap, trampoline, withTrap, slot);
    if pages > 0 {
      r := m.UnmapFree(root, 0, pages, true, PageTags(root));
    }
    MachineParts(m);
    ghost var mem3, loc3 := m.mem, m.loc;
    OnlyTablesLeft(mem0, loc0, mem2, loc2, mem3, loc3, root, pages, trap, trampoline, withTrap, slot);
    TablesBelowRoot(mem3, loc3, root);
    RootAbove(mem3, loc3, Table(root, 0, 0));
    r := m.FreeTable(root, Table(root, 0, 0));
    MachineValid(m);
    Destroyed(mem0, loc0, mem2, loc2, mem3, loc3, m.mem, m.loc, root, pages, withTrap, slot);
  }

  lemma Destroyed(mem0: Memory, loc0: Plan, mem2: Memory, loc2: Plan, mem3: Memory, loc3: Plan, mem4: Memory,
                  loc4: Plan,
                  root: nat, pages: nat, withTrap: bool, slot: nat)
    requires PlanOk(mem0, loc0) && PlanOk(mem2, loc2) && PlanOk(mem3, loc3) && PlanOk(mem4, loc4) && Rooted(loc0)
    requires |mem2| == |mem0| && |mem3| == |mem0| && |mem4| == |mem0|
    requires loc2 == if withTrap then loc0 - {Trap(slot)} else loc0
    requires forall t | t in loc2 && !(t.Table? && t.root == root) :: mem2[loc2[t]] == mem0[loc2[t]]
    requires Unmapped(mem2, loc2, mem3, loc3, root, 0, pages, true, PageTags(root))
    requires forall t :: t in loc3 <==> t in loc2 && !(t.Page? && t.root == root)
    requires forall t | t in loc3 :: loc3[t] == loc0[t]
    requires forall t | t in loc3 :: InSubtree(t, Table(root, 0, 0)) <==> t.Table? && t.root == root
    requires loc4 == Prune(loc3, Table(root, 0, 0)) && Untouched(mem3, mem4, loc4, Table(root, 0, 0))
    ensures loc4 == Without(loc0, root, withTrap, slot) && Kept(mem0, mem4, loc4) && Rooted(loc4)
  {
    hide InSubtree, Injective, TagOk, Uniform, Leaf, Released;
    forall t
      ensures t in loc4 <==> t in Without(loc0, root, withTrap, slot)
      ensures t in loc4 ==> loc4[t] == loc0[t] && t in loc3 && t in loc2 && !Mine(t, root)
    {
    }
    forall t | t in loc4
      ensures mem4[loc4[t]] == mem0[loc4[t]]
    {
      assert mem4[loc4[t]] == mem3[loc4[t]];
      assert mem3[loc3[t]] == mem2[loc2[t]];
    }
  }

  lemma TrapReleasable(mem0: Memory, loc0: Plan, mem1: Memory, loc1: Plan,
                       root: nat, pages: nat, trap: nat, trampoline: nat, withTrap: bool, slot: nat)
    requires Space(mem0, loc0, root, pages, trap, trampoline)
    requires withTrap ==> Trap(slot) in loc0 && loc0[Trap(slot)] == trap
    requires Unmapped(mem0, loc0, mem1, loc1, root, TRAMPOLINE_VPN, TRAMPOLINE_VPN + 1, false, TrapTags(slot))
    ensures loc1 == loc0
    ensures withTrap ==> Releasable(mem1, loc1, root, TRAP_VPN, TRAP_VPN + 1, TrapTags(slot))
  {
    assert PageOk(mem0, loc0, root, pages, trap, trampoline, TRAP_VPN);
    assert Leaf(mem1, loc1, root, TRAP_VPN) == Leaf(mem0, loc0, root, TRAP_VPN);
    assert TrapTags(slot)(TRAP_VPN) == Trap(slot);
  }

  lemma PagesReleasable(mem0: Memory, loc0: Plan, mem2: Memory, loc2: Plan,
                        root: nat, pages: nat, trap: nat, trampoline: nat, withTrap: bool, slot: nat)
    requires Space(mem0, loc0, root, pages, trap, trampoline)
    requires PlanOk(mem2, loc2) && loc2 == if withTrap then loc0 - {Trap(slot)} else loc0
    requires forall v: nat :: Leaf(mem2, loc2, root,
                                   v) == if v == TRAP_VPN || v == TRAMPOLINE_VPN then 0 else Leaf(mem0, loc0, root, v)
    ensures Releasable(mem2, loc2, root, 0, pages, PageTags(root))
    ensures pages == 0 ==> Unmapped(mem2, loc2, mem2, loc2, root, 0, pages, true, PageTags(root))
  {
    hide Shape;
    forall v: nat | v < pages && IsValid(Leaf(mem2, loc2, root, v))
      ensures Page(root, v) in loc2 && loc2[Page(root, v)] == PtePpn(Leaf(mem2, loc2, root, v))
    {
      assert PageOk(mem0, loc0, root, pages, trap, trampoline, v);
    }
    if pages == 0 {
      assert Released(mem2, loc2, root, 0, 0, PageTags(root)) == {};
    }
  }
}
