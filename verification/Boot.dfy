/** From an empty frame allocator to the first task (os_main of os/src/main.c). */
module Boot {
  import opened Common
  import opened Bits
  import opened Sv39
  import opened KernelMemory
  import opened AddressSpace
  import opened Loader
  import opened Tasks
  import opened Ownership
  import opened TrapPages
  import opened Kernel

  /** Only kernel tables and kernel stacks are in use. */
  ghost predicate KernelOnly(loc: Plan, kroot: nat, stacks: nat) {
    && Table(kroot, 0, 0) in loc
    && forall t | t in loc :: (t.Table? && t.root == kroot) || (t.Stack? && t.slot < stacks)
  }

  lemma KernelParts(loc: Plan, kroot: nat, stacks: nat)
    requires KernelOnly(loc, kroot, stacks)
    ensures Table(kroot, 0, 0) in loc && Rooted(loc) && Stack(stacks) !in loc
  {
  }

  lemma GrewKernel(mem0: Memory, loc0: Plan, mem: Memory, loc: Plan, kroot: nat, stacks: nat)
    requires Grew(mem0, loc0, mem, loc, kroot) && KernelOnly(loc0, kroot, stacks)
    ensures KernelOnly(loc, kroot, stacks) && Table(kroot, 0, 0) in loc && Rooted(loc)
  {
    hide Shape;
  }

  lemma OnlyRoot(mem0: Memory, mem: Memory, loc: Plan, kroot: nat)
    requires Framed(mem0, map[], mem, loc, kroot)
    requires forall t | Mine(t, kroot) :: t in loc <==> t == Table(kroot, 0, 0)
    ensures KernelOnly(loc, kroot, 0)
  {
    hide PlanOk;
    assert Mine(Table(kroot, 0, 0), kroot);
  }

  lemma Numbers()
    ensures PTE_R + PTE_X < 256 && PTE_R + PTE_W < 256 && VA_END == VPN_END * PAGE_SIZE && PAGE_SIZE == 4096
    ensures VA_END == 0x80_0000_0000 && MAX_TASKS == 10
    ensures TRAMPOLINE_VPN < VPN_END && Rooted(map[])
    ensures forall s: nat | s < MAX_TASKS :: StackPage(s) < VPN_END
  {
  }

  /** Virtual page of the kernel stack of slot s: every second page below the trampoline. */
  function StackPage(s: nat): (v: nat)
    requires s < MAX_TASKS
    ensures v < TRAP_VPN
  {
    TRAMPOLINE_VPN - 2 * (s + 1)
  }

  /** The stack pointer a slot starts with: the (sign-extended) end of its stack page. */
  function StackTop(s: nat): Word
    requires s < MAX_TASKS
  {
    WORD_END - 8192 * (s + 1)
  }

  /** The slot whose stack lies on page v. */
  ghost function StackSlot(v: nat): Option<nat> {
    if v < TRAMPOLINE_VPN && (TRAMPOLINE_VPN - v) % 2 == 0 && (TRAMPOLINE_VPN - v) / 2 <= MAX_TASKS
    then Some((TRAMPOLINE_VPN - v) / 2 - 1) else None
  }

  lemma StackSlotOf(s: nat, v: nat)
    requires s < MAX_TASKS
    ensures StackSlot(v) == Some(s) <==> v == StackPage(s)
  {
  }

  /** What kvm_make maps apart from the stacks: text, data and the trampoline. */
  ghost function KernelEntry(v: nat, base: nat, etext: nat, top: nat, trampoline: nat): Word {
    if v == TRAMPOLINE_VPN then NewPte(trampoline, WithValid(PTE_R + PTE_X))
    else if etext < top && etext / 4096 <= v <= (top - 1) / 4096 then NewPte(v, WithValid(PTE_R + PTE_W))
    else if base < etext && base / 4096 <= v <= (etext - 1) / 4096 then NewPte(v, WithValid(PTE_R + PTE_X))
    else 0
  }

  /** The kernel's page table, page by page, with the first n stacks mapped. */
  ghost predicate KernelMapped(mem: Memory, loc: Plan, kroot: nat, base: nat, etext: nat, top: nat, trampoline: nat,
                               n: nat)
    requires PlanOk(mem, loc)
  {
    && (forall s: nat | s < n :: Stack(s) in loc)
    && forall v: nat ::
         Leaf(mem, loc, kroot, v) ==
           match StackSlot(v)
           case Some(s) => if s < n && Stack(s) in loc then NewPte(loc[Stack(s)], WithValid(PTE_R + PTE_W))
                           else KernelEntry(v, base, etext, top, trampoline)
           case None => KernelEntry(v, base, etext, top, trampoline)
  }

  /** A page of the kernel's text or data. */
  predicate KernelPage(v: nat, base: nat, top: nat) { base / 4096 <= v && v * 4096 < top }

  /** Nothing of what kvm_make maps meets on a page: neither text nor data is empty, the text ends on a
      page boundary, and both lie clear of the trampoline and the stacks. */
  predicate KernelApart(base: nat, etext: nat, top: nat) {
    && base < etext < top && etext % 4096 == 0
    && !KernelPage(TRAMPOLINE_VPN, base, top)
    && forall s: nat | s < MAX_TASKS :: !KernelPage(StackPage(s), base, top)
  }

  lemma NothingMapped(mem: Memory, loc: Plan, kroot: nat, lo: nat, hi: nat)
    requires PlanOk(mem, loc) && forall v: nat :: Leaf(mem, loc, kroot, v) == 0
    ensures !SomeMapped(mem, loc, kroot, lo, hi)
  {
    hide PlanOk, Leaf;
  }

  /** Data meets text exactly when the text ends inside a page. */
  lemma DataMeetsText(mem0: Memory, loc0: Plan, mem1: Memory, loc1: Plan, kroot: nat, base: nat, etext: nat, top: nat)
    requires PlanOk(mem0, loc0) && PlanOk(mem1, loc1) && base < etext < top && PTE_R + PTE_X < 256
    requires forall v: nat :: Leaf(mem0, loc0, kroot, v) == 0
    requires RangeSet(mem0, loc0, mem1, loc1, kroot, base / 4096, (etext - 1) / 4096 + 1, base / 4096, PTE_R + PTE_X)
    ensures SomeMapped(mem1, loc1, kroot, etext / 4096, (top - 1) / 4096 + 1) <==> etext % 4096 != 0
  {
    hide PlanOk, Leaf, NewPte;
    forall v: nat
      ensures IsValid(Leaf(mem1, loc1, kroot, v)) <==> base / 4096 <= v < (etext - 1) / 4096 + 1
    {
      ValidAfterNew(base / 4096 + if v >= base / 4096 then v - base / 4096 else 0, WithValid(PTE_R + PTE_X));
    }
    if etext % 4096 != 0 {
      assert IsValid(Leaf(mem1, loc1, kroot, etext / 4096));
    }
  }

  lemma TrampolineMeets(mem0: Memory, loc0: Plan, mem1: Memory, loc1: Plan, mem2: Memory, loc2: Plan, kroot: nat,
                        base: nat, etext: nat, top: nat)
    requires PlanOk(mem0, loc0) && PlanOk(mem1, loc1) && PlanOk(mem2, loc2)
    requires base < etext < top && etext % 4096 == 0 && PTE_R + PTE_X < 256 && PTE_R + PTE_W < 256
    requires forall v: nat :: Leaf(mem0, loc0, kroot, v) == 0
    requires RangeSet(mem0, loc0, mem1, loc1, kroot, base / 4096, (etext - 1) / 4096 + 1, base / 4096, PTE_R + PTE_X)
    requires RangeSet(mem1, loc1, mem2, loc2, kroot, etext / 4096, (top - 1) / 4096 + 1, etext / 4096, PTE_R + PTE_W)
    ensures SomeMapped(mem2, loc2, kroot, TRAMPOLINE_VPN, TRAMPOLINE_VPN + 1) <==> KernelPage(TRAMPOLINE_VPN, base, top)
  {
    hide PlanOk, Leaf, NewPte;
    var v := TRAMPOLINE_VPN;
    ValidAfterNew(base / 4096 + if v >= base / 4096 then v - base / 4096 else 0, WithValid(PTE_R + PTE_X));
    ValidAfterNew(etext / 4096 + if v >= etext / 4096 then v - etext / 4096 else 0, WithValid(PTE_R + PTE_W));
    assert Leaf(mem1, loc1, kroot, v) == if base / 4096 <= v < (etext - 1) / 4096 + 1
                                         then NewPte(base / 4096 + (v - base / 4096), WithValid(PTE_R + PTE_X)) else 0;
    assert IsValid(Leaf(mem2, loc2, kroot, v)) <==> KernelPage(v, base, top);
  }

  lemma StackMeets(mem: Memory, loc: Plan, kroot: nat, base: nat, etext: nat, top: nat, trampoline: nat, s: nat)
    requires PlanOk(mem, loc) && KernelMapped(mem, loc, kroot, base, etext, top, trampoline, s) && s < MAX_TASKS
    requires base < etext < top && etext % 4096 == 0
    ensures IsValid(Leaf(mem, loc, kroot, StackPage(s))) <==> KernelPage(StackPage(s), base, top)
  {
    hide PlanOk, Leaf, NewPte, StackSlot;
    var v := StackPage(s);
    StackSlotOf(s, v);
    ValidAfterNew(v, WithValid(PTE_R + PTE_W));
    ValidAfterNew(v, WithValid(PTE_R + PTE_X));
    assert Leaf(mem, loc, kroot, v) == KernelEntry(v, base, etext, top, trampoline);
  }

  /** After the three mappings of kvm_make. */
  lemma ThreeRanges(mem0: Memory, loc0: Plan, mem1: Memory, loc1: Plan, mem2: Memory, loc2: Plan, mem3: Memory,
                    loc3: Plan,
                    kroot: nat, base: nat, etext: nat, top: nat, trampoline: nat)
    requires PlanOk(mem0, loc0) && PlanOk(mem1, loc1) && PlanOk(mem2, loc2) && PlanOk(mem3, loc3)
    requires base < etext < top && PTE_R + PTE_X < 256 && PTE_R + PTE_W < 256
    requires forall v: nat :: Leaf(mem0, loc0, kroot, v) == 0
    requires RangeSet(mem0, loc0, mem1, loc1, kroot, base / 4096, (etext - 1) / 4096 + 1, base / 4096, PTE_R + PTE_X)
    requires RangeSet(mem1, loc1, mem2, loc2, kroot, etext / 4096, (top - 1) / 4096 + 1, etext / 4096, PTE_R + PTE_W)
    requires RangeSet(mem2, loc2, mem3, loc3, kroot, TRAMPOLINE_VPN, TRAMPOLINE_VPN + 1, trampoline, PTE_R + PTE_X)
    ensures KernelMapped(mem3, loc3, kroot, base, etext, top, trampoline, 0)
  {
    hide PlanOk, Leaf, NewPte, StackSlot;
    forall v: nat
      ensures Leaf(mem3, loc3, kroot, v) == KernelEntry(v, base, etext, top, trampoline)
    {
      assert Leaf(mem3, loc3, kroot, v) ==
        if v == TRAMPOLINE_VPN then NewPte(trampoline, WithValid(PTE_R + PTE_X)) else Leaf(mem2, loc2, kroot, v);
      assert Leaf(mem2, loc2, kroot, v) ==
        if etext / 4096 <= v <= (top - 1) / 4096 then NewPte(v, WithValid(PTE_R + PTE_W))
        else Leaf(mem1, loc1, kroot, v);
      assert Leaf(mem1, loc1, kroot, v) ==
        if base / 4096 <= v <= (etext - 1) / 4096 then NewPte(v, WithValid(PTE_R + PTE_X)) else 0;
    }
  }

  /** One more stack. */
  lemma StackMapped(mem0: Memory, loc0: Plan, mem1: Memory, loc1: Plan, mem2: Memory, loc2: Plan, kroot: nat,
                    base: nat, etext: nat, top: nat, trampoline: nat, s: nat, ppn: nat)
    requires PlanOk(mem0, loc0) && PlanOk(mem1, loc1) && Grew(mem1, loc1, mem2, loc2, kroot) && s < MAX_TASKS
    requires KernelMapped(mem0, loc0, kroot, base, etext, top, trampoline, s) && Stack(s) !in loc0
    requires loc1 == loc0[Stack(s) := ppn] && forall r: nat, v: nat :: Leaf(mem1, loc1, r, v) == Leaf(mem0, loc0, r, v)
    requires LeafSet(mem1, loc1, mem2, loc2, kroot, StackPage(s), NewPte(ppn, WithValid(PTE_R + PTE_W)))
    ensures KernelMapped(mem2, loc2, kroot, base, etext, top, trampoline, s + 1)
  {
    hide PlanOk, Leaf, NewPte, StackSlot, KernelEntry, StackPage, Shape;
    forall v: nat
      ensures Leaf(mem2, loc2, kroot, v) ==
        match StackSlot(v)
        case Some(q) => if q < s + 1 && Stack(q) in loc2 then NewPte(loc2[Stack(q)], WithValid(PTE_R + PTE_W))
                        else KernelEntry(v, base, etext, top, trampoline)
        case None => KernelEntry(v, base, etext, top, trampoline)
    {
      StackSlotOf(s, v);
      assert Leaf(mem1, loc1, kroot, v) == Leaf(mem0, loc0, kroot, v);
    }
  }

  /** PageTable_map on the kernel's table. */
  method MapKernel(m: Machine, kroot: nat, va: nat, pa: nat, size: nat, flags: nat,
                   ghost stacks: nat) returns (r: Status)
    requires m.Valid() && KernelOnly(m.loc, kroot, stacks) && flags < 256
    requires va + size <= VA_END && va < VA_END
    modifies m
    ensures m.FramesOk() && (r == OutOfMemory ==> m.Exhausted())
    ensures r == EmptyRange <==> size == 0
    ensures r == AlreadyMapped ==>
      SomeMapped(old(m.mem), old(m.loc), kroot, va / PAGE_SIZE, (va + size - 1) / PAGE_SIZE + 1)
    ensures r == Done ==>
      && !SomeMapped(old(m.mem), old(m.loc), kroot, va / PAGE_SIZE, (va + size - 1) / PAGE_SIZE + 1)
      && Shape(m.mem, m.loc) && KernelOnly(m.loc, kroot, stacks)
      && Grew(old(m.mem), old(m.loc), m.mem, m.loc, kroot)
      && RangeSet(old(m.mem), old(m.loc), m.mem, m.loc, kroot, va / PAGE_SIZE, (va + size - 1) / PAGE_SIZE + 1,
                  pa / PAGE_SIZE, flags)
  {
    hide *;
    Numbers();
    KernelParts(m.loc, kroot, stacks);
    ghost var mem0, loc0 := m.mem, m.loc;
    r := m.MapRange(kroot, va, pa, size, flags);
    if r == Done {
      GrewKernel(mem0, loc0, m.mem, m.loc, kroot, stacks);
    }
  }

  /** proc_mapstacks: one frame and one page for each slot. */
  method MapStacks(m: Machine, kroot: nat, ghost base: nat, ghost etext: nat, ghost top: nat, ghost trampoline: nat)
    returns (ok: bool, kstacks: seq<Word>)
    requires m.Valid() && KernelOnly(m.loc, kroot, 0)
    requires KernelMapped(m.mem, m.loc, kroot, base, etext, top, trampoline, 0)
    requires base < etext < top && etext % 4096 == 0 && !KernelPage(TRAMPOLINE_VPN, base, top)
    modifies m
    ensures m.FramesOk() && (!ok ==> m.Exhausted() || !KernelApart(base, etext, top))
    ensures ok ==>
      && KernelApart(base, etext, top)
      && Shape(m.mem, m.loc) && KernelOnly(m.loc, kroot, MAX_TASKS)
      && KernelMapped(m.mem, m.loc, kroot, base, etext, top, trampoline, MAX_TASKS)
      && |kstacks| == MAX_TASKS && forall s: nat | s < MAX_TASKS :: kstacks[s] == StackTop(s)
  {
    hide *;
    Numbers();
    kstacks := [];
    MachineParts(m);
    while |kstacks| < MAX_TASKS
      invariant |kstacks| <= MAX_TASKS && m.FramesOk() && Shape(m.mem, m.loc) && KernelOnly(m.loc, kroot, |kstacks|)
      invariant KernelMapped(m.mem, m.loc, kroot, base, etext, top, trampoline, |kstacks|)
      invariant forall s: nat | s < |kstacks| :: kstacks[s] == StackTop(s)
      invariant forall s: nat | s < |kstacks| :: !KernelPage(StackPage(s), base, top)
    {
      MachineValid(m);
      KernelParts(m.loc, kroot, |kstacks|);
      ghost var mem0, loc0 := m.mem, m.loc;
      var taken, ppn := TakeFrame(m, ZeroFrame(), Stack(|kstacks|));
      if !taken {
        return false, kstacks;
      }
      MachineValid(m);
      StackTaken(loc0, kroot, |kstacks|, ppn);
      ghost var mem1, loc1 := m.mem, m.loc;
      StackMeets(mem0, loc0, kroot, base, etext, top, trampoline, |kstacks|);
      assert Leaf(mem1, loc1, kroot, StackPage(|kstacks|)) == Leaf(mem0, loc0, kroot, StackPage(|kstacks|));
      var r := m.MapPage(kroot, StackPage(|kstacks|), ppn, PTE_R + PTE_W);
      if r != Done {
        ApartParts(base, etext, top, |kstacks|);
        return false, kstacks;
      }
      GrewKernel(mem1, loc1, m.mem, m.loc, kroot, |kstacks| + 1);
      StackMapped(mem0, loc0, mem1, loc1, m.mem, m.loc, kroot, base, etext, top, trampoline, |kstacks|, ppn);
      kstacks := kstacks + [StackTop(|kstacks|)];
    }
    ApartParts(base, etext, top, 0);
    ok := true;
  }

  lemma ApartParts(base: nat, etext: nat, top: nat, s: nat)
    requires s < MAX_TASKS && base < etext < top
    ensures KernelPage(StackPage(s), base, top) ==> !KernelApart(base, etext, top)
    ensures KernelApart(base, etext, top) <==>
      && etext % 4096 == 0 && !KernelPage(TRAMPOLINE_VPN, base, top)
      && forall s: nat | s < MAX_TASKS :: !KernelPage(StackPage(s), base, top)
  {
  }

  lemma NotApart(base: nat, etext: nat, top: nat)
    requires !(base < etext < top)
    ensures !KernelApart(base, etext, top)
  {
  }

  lemma StackTaken(loc: Plan, kroot: nat, s: nat, ppn: nat)
    requires KernelOnly(loc, kroot, s)
    ensures KernelOnly(loc[Stack(s) := ppn], kroot, s + 1) && Table(kroot, 0, 0) in loc[Stack(s) := ppn]
  {
  }

  lemma Ranges(base: nat, etext: nat, top: nat, trampoline: nat)
    requires base <= etext <= top
    ensures base + (etext - base) - 1 == etext - 1 && etext + (top - etext) - 1 == top - 1
    ensures (VA_END - 4096) / PAGE_SIZE == TRAMPOLINE_VPN
    ensures (VA_END - 4096 + 4096 - 1) / PAGE_SIZE + 1 == TRAMPOLINE_VPN + 1
    ensures trampoline * 4096 / PAGE_SIZE == trampoline && PAGE_SIZE == 4096
  {
  }

  /** kvminit: text and data of the kernel are mapped one to one, then the trampoline and the
      stacks. */
  method KernelSpace(m: Machine, base: nat, etext: nat, top: nat, trampoline: nat)
    returns (ok: bool, kroot: nat, kstacks: seq<Word>)
    requires m.Valid() && m.loc == map[] && base <= etext <= top <= VA_END && etext < VA_END
    modifies m
    ensures m.FramesOk() && (!ok ==> m.Exhausted() || !KernelApart(base, etext, top))
    ensures ok ==>
      && KernelApart(base, etext, top)
      && Shape(m.mem, m.loc) && KernelOnly(m.loc, kroot, MAX_TASKS)
      && KernelMapped(m.mem, m.loc, kroot, base, etext, top, trampoline, MAX_TASKS)
      && |kstacks| == MAX_TASKS && forall s: nat | s < MAX_TASKS :: kstacks[s] == StackTop(s)
  {
    hide *;
    Numbers();
    ghost var mem0 := m.mem;
    ok, kroot := NewRoot(m);
    if !ok {
      return false, 0, [];
    }
    OnlyRoot(mem0, m.mem, m.loc, kroot);
    MachineValid(m);
    ghost var memA, locA := m.mem, m.loc;
    Ranges(base, etext, top, trampoline);
    if base == etext || etext == top {
      NotApart(base, etext, top);
    }
    var r := MapKernel(m, kroot, base, base, etext - base, PTE_R + PTE_X, 0);
    NothingMapped(memA, locA, kroot, base / 4096, (etext - 1) / 4096 + 1);
    if r != Done {
      return false, kroot, [];
    }
    MachineValid(m);
    ghost var memB, locB := m.mem, m.loc;
    r := MapKernel(m, kroot, etext, etext, top - etext, PTE_R + PTE_W, 0);
    if etext < top {
      DataMeetsText(memA, locA, memB, locB, kroot, base, etext, top);
      ApartParts(base, etext, top, 0);
    }
    if r != Done {
      return false, kroot, [];
    }
    MachineValid(m);
    ghost var memC, locC := m.mem, m.loc;
    r := MapKernel(m, kroot, VA_END - 4096, trampoline * 4096, 4096, PTE_R + PTE_X, 0);
    TrampolineMeets(memA, locA, memB, locB, memC, locC, kroot, base, etext, top);
    if r != Done {
      return false, kroot, [];
    }
    MachineValid(m);
    ThreeRanges(memA, locA, memB, locB, memC, locC, m.mem, m.loc, kroot, base, etext, top, trampoline);
    ok, kstacks := MapStacks(m, kroot, base, etext, top, trampoline);
  }

  /** procinit leaves a table of free slots. */
  function FreeSlots(kstacks: seq<Word>): (r: seq<Task>)
    ensures |r| == |kstacks|
    ensures forall s | 0 <= s < |r| ::
      r[s].state == UnInit && r[s].parent == None && r[s].pid == 0 && r[s].kstack == kstacks[s]
  {
    seq(|kstacks|, s requires 0 <= s < |kstacks| => Task(UnInit, 0, None, 0, 0, kstacks[s], 0, 0, 0, 0))
  }

  lemma {:induction false} CountNone(tasks: seq<Task>)
    requires forall s | 0 <= s < |tasks| :: tasks[s].state == UnInit
    ensures CountAlive(tasks) == 0
  {
    if tasks != [] {
      CountNone(tasks[1..]);
    }
  }

  lemma FirstTree(tasks: seq<Task>, t: Task)
    requires |tasks| == MAX_TASKS
    requires (forall s | 0 <= s < |tasks| :: tasks[s].state == UnInit && tasks[s].parent == None)
    requires t.state == Running && t.pid == 0 && t.parent == None
    ensures Tree(tasks[0 := t], 0, 1, 1) && Alive(tasks[0 := t][0])
  {
    CountNone(tasks);
    CountPut(tasks, 0, t);
    var tasks' := tasks[0 := t];
    assert forall s | 0 <= s < |tasks'| :: SlotOk(tasks', 0, 1, s);
  }

  /** Before the first task there is nothing to own. */
  lemma NobodyOwns(mem: Memory, loc: Plan, tasks: seq<Task>, trampoline: nat, kroot: nat)
    requires Shape(mem, loc) && KernelOnly(loc, kroot,
                                           MAX_TASKS) && forall s | 0 <= s < |tasks| :: tasks[s].state == UnInit
    ensures Owned(mem, loc, tasks, trampoline, kroot) && Trap(0) !in loc && Rooted(loc)
  {
    hide Shape;
  }

  /** The first task owns its memory exactly when its program fits. */
  lemma FirstOwned(mem0: Memory, loc0: Plan, mem: Memory, loc: Plan, tasks: seq<Task>, trampoline: nat, kroot: nat,
                   t: Task,
                   segs: seq<Segment>)
    requires |tasks| == MAX_TASKS && (forall s | 0 <= s < |tasks| :: tasks[s].state == UnInit)
    requires Owned(mem0, loc0, tasks, trampoline, kroot)
    requires Spawned(mem0, loc0, mem, loc, t.root, 0) && Shape(mem, loc) && Rooted(loc)
    requires t.state == Running && Trap(0) in loc && loc[Trap(0)] == t.trap
    requires SpaceBut(mem, loc, t.root, TRAP_VPN, t.trap, trampoline, Strays(segs, |segs|, 0))
    requires OwnsExactly(loc, t.root, segs, t.base) && t.base == Base(segs, 0)
    ensures Owned(mem, loc, tasks[0 := t], trampoline, kroot) <==> Fits(segs, 0)
  {
    BoundedExactly(mem, loc, t.root, segs, 0, t.trap, trampoline);
    BaseAligned(segs, 0);
    hide Shape, Space, SpaceBut, Fits, Base, OwnsExactly;
    assert Mine(Table(t.root, 0, 0), t.root);
    if Fits(segs, 0) {
      var t0 := t.(state := Ready);
      SpawnKeeps(mem0, loc0, mem, loc, tasks, trampoline, kroot, 0, t0);
      OtherFieldsKeepOwned(mem, loc, tasks[0 := t0], tasks[0 := t], trampoline, kroot);
    }
    if Owned(mem, loc, tasks[0 := t], trampoline, kroot) {
      assert TaskMemory(mem, loc, tasks[0 := t][0], 0, trampoline, kroot);
    }
  }

  predicate RegistersSet(page: Frame, entry: Word, status: Word, sp: Word, satp: Word, kstack: Word, handler: Word)
    requires |page| == ENTRIES
  {
    && page[33] == entry && page[32] == status && page[2] == sp
    && page[34] == satp && page[35] == kstack && page[36] == handler
  }

  /** The registers app_init prepares. */
  function FirstTrap(page: Frame, entry: Word, status: Word, sp: Word, satp: Word, kstack: Word,
                     handler: Word): (r: Frame)
    requires |page| == ENTRIES
    ensures |r| == ENTRIES && RegistersSet(r, entry, status, sp, satp, kstack, handler)
  {
    var p1: Frame := page[33 := entry];
    var p2: Frame := p1[32 := status];
    var p3: Frame := p2[2 := sp];
    var p4: Frame := p3[34 := satp];
    var p5: Frame := p4[35 := kstack];
    p5[36 := handler]
  }

  lemma FirstTrapWritten(mem0: Memory, loc0: Plan, mem: Memory, loc: Plan, root: nat, trap: nat, trampoline: nat,
                         segs: seq<Segment>, data: Frame, base: Word)
    requires Spawned(mem0, loc0, mem, loc, root, 0) && Shape(mem, loc) && |data| == ENTRIES
    requires Trap(0) in loc && loc[Trap(0)] == trap && ImagesOk(segs)
    requires SpaceBut(mem, loc, root, TRAP_VPN, trap, trampoline, Strays(segs, |segs|, 0))
    requires ImageLoaded(mem, loc, root, segs) && StackReady(mem, loc, root, base)
    ensures trap < |mem|
    ensures var mem' := mem[trap := data];
      && Spawned(mem0, loc0, mem', loc, root, 0) && Shape(mem', loc)
      && SpaceBut(mem', loc, root, TRAP_VPN, trap, trampoline, Strays(segs, |segs|, 0))
      && ImageLoaded(mem', loc, root, segs) && StackReady(mem', loc, root, base)
  {
    hide Shape, SpaceBut, ImageLoaded, StackReady;
    OtherPurpose(mem, loc, Trap(0));
    SpaceButWritten(mem, loc, root, TRAP_VPN, trap, trampoline, Strays(segs, |segs|, 0), trap, data);
    var mem' := mem[trap := data];
    assert forall t | t in loc && t != Trap(0) :: mem'[loc[t]] == mem[loc[t]];
    ImageSame(mem, loc, mem', loc, root, segs);
    StackSame(mem, loc, mem', loc, root, base);
  }

  /** os_main up to start_task: the state from which every run starts satisfies the kernel's
      invariant exactly when the first program fits. */
  method BootSystem(m: Machine, base: nat, etext: nat, top: nat, trampoline: nat, segs: seq<Segment>, entry: Word,
                    status: Word, satp: Word, handler: Word)
    returns (ok: bool, os: Os?)
    requires m.Valid() && m.loc == map[] && base <= etext <= top <= VA_END && etext < VA_END
    requires trampoline < m.start < PPN_END && ImagesOk(segs)
    modifies m
    ensures !ok ==> m.Exhausted() || !KernelApart(base, etext, top) || Overlaps(segs, Base(segs, 0))
    ensures ok ==>
      && KernelApart(base, etext, top) && !Overlaps(segs, Base(segs, 0))
      && os != null && fresh(os) && os.m == m && (os.Valid() <==> Fits(segs, 0))
      && |os.tasks| == MAX_TASKS && (forall s: nat | s < MAX_TASKS :: os.tasks[s].kstack == StackTop(s))
      && os.tasks[0].entry == entry && os.tasks[0].base == Base(segs, 0) && os.tasks[0].ustack == Base(segs, 0)
      && os.tasks[0].trap < |m.mem| && |m.mem[os.tasks[0].trap]| == ENTRIES
      && RegistersSet(m.mem[os.tasks[0].trap], entry, status, Base(segs, 0), satp, StackTop(0), handler)
      && Shape(m.mem, m.loc) && ImageLoaded(m.mem, m.loc, os.tasks[0].root, segs)
      && StackReady(m.mem, m.loc, os.tasks[0].root, os.tasks[0].base)
      && KernelWords(m.mem, os.tasks, satp, handler)
  {
    hide *;
    Numbers();
    var kroot: nat, kstacks;
    ok, kroot, kstacks := KernelSpace(m, base, etext, top, trampoline);
    if !ok {
      return false, null;
    }
    var slots := FreeSlots(kstacks);
    ghost var mem0, loc0 := m.mem, m.loc;
    NobodyOwns(mem0, loc0, slots, trampoline, kroot);
    MachineValid(m);
    var trap, root;
    ok, trap, root := NewTaskMemory(m, 0, trampoline);
    if !ok {
      return false, null;
    }
    MachineValid(m);
    ghost var mem1, loc1 := m.mem, m.loc;
    var status', size := LoadImage(m, root, segs, 0, trap, trampoline);
    if status' != Done {
      return false, null;
    }
    SpawnedThenFramed(mem0, loc0, mem1, loc1, m.mem, m.loc, root, 0);
    StillThere(mem1, loc1, m.mem, m.loc, root, Trap(0));
    var page := FirstTrap(m.mem[trap], entry, status, size, satp, slots[0].kstack, handler);
    FirstTrapWritten(mem0, loc0, m.mem, m.loc, root, trap, trampoline, segs, page, size);
    m.Overwrite(trap, page);
    var t := slots[0].(state := Running, trap := trap, root := root, entry := entry, base := size, ustack := size);
    FirstOwned(mem0, loc0, m.mem, m.loc, slots, trampoline, kroot, t, segs);
    FirstTree(slots, t);
    FirstWords(m.mem, slots, t, entry, status, size, satp, handler);
    os := new Os(m, trampoline, kroot, slots[0 := t]);
  }

  lemma FirstWords(mem: Memory, slots: seq<Task>, t: Task, entry: Word, status: Word, sp: Word, satp: Word,
                   handler: Word)
    requires 0 < |slots| && (forall s | 0 <= s < |slots| :: slots[s].state.UnInit?) && t.trap < |mem|
    requires |mem[t.trap]| == ENTRIES && RegistersSet(mem[t.trap], entry, status, sp, satp, t.kstack, handler)
    ensures KernelWords(mem, slots[0 := t], satp, handler)
  {
  }

  /** The kernel stacks: each slot's stack pointer starts at the end of the slot's own page, as the low
      39 bits of the address name it, and the pages on either side are no kernel stack. */
  lemma StacksApart(s: nat, q: nat)
    requires s < MAX_TASKS && q < MAX_TASKS
    ensures StackTop(s) > 0 && (StackTop(s) - 1) % VA_END / 4096 == StackPage(s) && StackTop(s) % 4096 == 0
    ensures s != q ==> StackTop(s) != StackTop(q) && StackPage(s) != StackPage(q)
    ensures StackPage(q) != StackPage(s) - 1 && StackPage(q) != StackPage(s) + 1
  {
    StackAddress(s);
  }

  lemma StackAddress(s: nat)
    requires s < MAX_TASKS
    ensures StackTop(s) > 0 && (StackTop(s) - 1) % VA_END / 4096 == StackPage(s) && StackTop(s) % 4096 == 0
  {
    var low := VA_END - 8192 * (s + 1) - 1;
    assert VA_END == 0x80_0000_0000 && WORD_END == VA_END * 0x200_0000;
    DivMod(StackTop(s) - 1, VA_END, 0x200_0000 - 1, low);
    assert low == 4096 * (VPN_END - 2 * s - 3) + 4095;
    DivMod(low, 4096, VPN_END - 2 * s - 3, 4095);
  }

  /** From power-on: the kernel boots and runs any sequence of calls, interrupts and stores. While it
      has not stopped, its tasks are isolated from each other, and every task enters the kernel
      through the same table and handler on the kernel stack of its own slot. */
  method BootAndRun(m: Machine, base: nat, etext: nat, top: nat, trampoline: nat, segs: seq<Segment>, entry: Word,
                    status: Word, satp: Word, handler: Word, calls: seq<Call>)
    returns (running: bool, os: Os?)
    requires m.Valid() && m.loc == map[] && base <= etext <= top <= VA_END && etext < VA_END
    requires trampoline < m.start < PPN_END && ImagesOk(segs) && Fits(segs, 0)
    requires forall i | 0 <= i < |calls| :: CallOk(calls[i])
    modifies m
    ensures running ==>
      && os != null && os.m == m && os.Valid() && |os.tasks| == MAX_TASKS
      && Uniform(m.mem) && Isolated(m.mem, m.recycled, m.loc, os.tasks, os.trampoline, os.kroot)
      && (forall s: nat | s < MAX_TASKS :: os.tasks[s].kstack == StackTop(s))
      && ((forall i | 0 <= i < |calls| :: Spares(calls[i])) ==> KernelWords(m.mem, os.tasks, satp, handler))
  {
    hide *;
    running, os := BootSystem(m, base, etext, top, trampoline, segs, entry, status, satp, handler);
    if running {
      ghost var mem0, tasks0 := m.mem, os.tasks;
      running := os.Run(calls);
      if running {
        StacksHold(tasks0, os.tasks);
        if forall i | 0 <= i < |calls| :: Spares(calls[i]) {
          WordsHold(mem0, tasks0, m.mem, os.tasks, satp, handler);
        }
      }
    }
  }

  lemma WordsHold(mem0: Memory, tasks0: seq<Task>, mem: Memory, tasks: seq<Task>, satp: Word, handler: Word)
    requires WordsKept(mem0, tasks0, mem, tasks) && KernelWords(mem0, tasks0, satp, handler)
    ensures KernelWords(mem, tasks, satp, handler)
  {
  }

  lemma StacksHold(tasks0: seq<Task>, tasks: seq<Task>)
    requires StacksStay(tasks0, tasks)
    ensures |tasks| == |tasks0| && forall s | 0 <= s < |tasks| :: tasks[s].kstack == tasks0[s].kstack
  {
  }
}
