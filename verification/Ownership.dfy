/** One ownership invariant ties the frame allocator, the page tables and the task table of the
    kernel together (os/src/address.c, os/src/task.c, os/src/trap.c). */
module Ownership {
  import opened Common
  import opened Sv39
  import opened KernelMemory
  import opened AddressSpace
  import opened Loader
  import opened Tasks

  /** Some task that is not free has this root table. */
  ghost predicate InUse(tasks: seq<Task>, root: nat) {
    exists s :: 0 <= s < |tasks| && !tasks[s].state.UnInit? && tasks[s].root == root
  }

  /** Every frame in use is used on behalf of somebody who is still there. */
  ghost predicate HasHolder(tasks: seq<Task>, kroot: nat, t: Tag) {
    match t
    case Table(root, _, _) => root == kroot || InUse(tasks, root)
    case Page(root, _) => InUse(tasks, root)
    case Trap(s) => s < |tasks| && !tasks[s].state.UnInit?
    case Stack(s) => true
    case Spare => false
  }

  /** The memory of the task in slot s. */
  ghost predicate TaskMemory(mem: Memory, loc: Plan, t: Task, s: nat, trampoline: nat, kroot: nat) {
    && Space(mem, loc, t.root, t.base / 4096, t.trap, trampoline)
    && Trap(s) in loc && loc[Trap(s)] == t.trap
    && t.base % 4096 == 0 && t.root != kroot
  }

  /** The ownership invariant. */
  ghost predicate Owned(mem: Memory, loc: Plan, tasks: seq<Task>, trampoline: nat, kroot: nat)
    ensures Owned(mem, loc, tasks, trampoline, kroot) ==> Shape(mem, loc) && Rooted(loc)
  {
    && Shape(mem, loc) && Rooted(loc) && Table(kroot, 0, 0) in loc
    && (forall s | 0 <= s < |tasks| && !tasks[s].state.UnInit? :: TaskMemory(mem, loc, tasks[s], s, trampoline, kroot))
    && (forall s, s' | 0 <= s < s' < |tasks| && !tasks[s].state.UnInit? && !tasks[s'].state.UnInit? ::
          tasks[s].root != tasks[s'].root)
    && (forall t | t in loc :: HasHolder(tasks, kroot, t))
  }

  // ---------------------------------------------------------------- what ownership means

  /** The tables a walk reads, down to where it ends. */
  function Path(mem: Memory, frame: nat, vpn: nat, level: nat): seq<nat>
    requires Uniform(mem) && level <= 2
    decreases 2 - level
  {
    if frame >= |mem| then []
    else
      var e := mem[frame][Index(vpn, level)];
      [frame] + if level < 2 && IsValid(e) then Path(mem, PtePpn(e), vpn, level + 1) else []
  }

  /** The walk for page v reads f as a table, or ends in it as the page. */
  predicate Touches(mem: Memory, root: nat, v: nat, f: nat)
    requires Uniform(mem)
  {
    || f in Path(mem, root, v, 0)
    || var w := Walk(mem, root, v, 0);
       w.Some? && w.value.frame < |mem| && w.value.index < ENTRIES && f == PtePpn(mem[w.value.frame][w.value.index])
  }

  /** Isolation, said of the raw page tables: what one task's walk touches, be it as the page or as a
      table on the way, no other task's walk touches; it is no table of the kernel, no kernel stack,
      and not waiting to be handed out again. The shared trampoline is the only exception, on its
      own page. */
  ghost predicate Apart(mem: Memory, recycled: seq<nat>, loc: Plan, tasks: seq<Task>, trampoline: nat, kroot: nat,
                        s: nat, v: nat, f: nat)
    requires Uniform(mem) && s < |tasks|
  {
    !tasks[s].state.UnInit? && Touches(mem, tasks[s].root, v, f) ==>
      || (f == trampoline && v == TRAMPOLINE_VPN)
      || (&& f !in recycled
          && (forall k: nat :: Stack(k) in loc ==> loc[Stack(k)] != f)
          && (forall v': nat | v' < VPN_END :: f !in Path(mem, kroot, v', 0))
          && (forall s', v' | 0 <= s' < |tasks| && s' != s && !tasks[s'].state.UnInit? && 0 <= v' < VPN_END ::
                !Touches(mem, tasks[s'].root, v', f)))
  }

  ghost predicate Isolated(mem: Memory, recycled: seq<nat>, loc: Plan, tasks: seq<Task>, trampoline: nat, kroot: nat)
    requires Uniform(mem)
  {
    forall s, v: nat, f: nat | 0 <= s < |tasks| && v < VPN_END ::
      Apart(mem, recycled, loc, tasks, trampoline, kroot, s, v, f)
  }

  /** The tables on a path are those of the plan. */
  lemma PathTable(mem: Memory, loc: Plan, root: nat, v: nat, level: nat, frame: nat, f: nat) returns (t: Tag)
    requires Shape(mem, loc) && v < VPN_END && level <= 2
    requires Table(root, level, Prefix(v, level)) in loc && loc[Table(root, level, Prefix(v, level))] == frame
    requires f in Path(mem, frame, v, level)
    ensures t in loc && loc[t] == f && t.Table? && t.root == root
    decreases 2 - level
  {
    t := Table(root, level, Prefix(v, level));
    if f != frame {
      WalkStep(mem, loc, root, v, level);
      t := PathTable(mem, loc, root, v, level + 1, PtePpn(mem[frame][Index(v, level)]), f);
    }
  }

  /** What the frame is for that a task's walk touches. */
  lemma TouchedTag(mem: Memory, loc: Plan, t: Task, s: nat, trampoline: nat, kroot: nat, v: nat, f: nat)
    returns (tag: Tag)
    requires TaskMemory(mem, loc, t, s, trampoline, kroot) && v < VPN_END && Touches(mem, t.root, v, f)
    ensures
      || (f == trampoline && v == TRAMPOLINE_VPN)
      || (tag in loc && loc[tag] == f && (Mine(tag, t.root) || tag == Trap(s)))
  {
    hide Path;
    tag := Trap(s);
    TagIsOk(mem, loc, Table(t.root, 0, 0));
    if f in Path(mem, t.root, v, 0) {
      tag := PathTable(mem, loc, t.root, v, 0, t.root, f);
    } else {
      WalkIsLeaf(mem, loc, t.root, v);
      assert PageOk(mem, loc, t.root, t.base / 4096, t.trap, trampoline, v);
      if v != TRAP_VPN {
        tag := Page(t.root, v);
      }
    }
  }

  lemma Isolation(b: Books, mem: Memory, tasks: seq<Task>, trampoline: nat, kroot: nat, s: nat, v: nat, f: nat)
    requires BooksOk(b) && trampoline < b.start && Owned(mem, b.loc, tasks, trampoline, kroot)
    requires s < |tasks| && v < VPN_END
    ensures Uniform(mem) && Apart(mem, b.recycled, b.loc, tasks, trampoline, kroot, s, v, f)
  {
    hide Touches, Path, Shape, Space;
    if !tasks[s].state.UnInit? && Touches(mem, tasks[s].root, v, f) && !(f == trampoline && v == TRAMPOLINE_VPN) {
      assert TaskMemory(mem, b.loc, tasks[s], s, trampoline, kroot);
      var t := TouchedTag(mem, b.loc, tasks[s], s, trampoline, kroot, v, f);
      forall v': nat | v' < VPN_END
        ensures f !in Path(mem, kroot, v', 0)
      {
        if f in Path(mem, kroot, v', 0) {
          TagIsOk(mem, b.loc, Table(kroot, 0, 0));
          var t' := PathTable(mem, b.loc, kroot, v', 0, kroot, f);
        }
      }
      forall s', v' | 0 <= s' < |tasks| && s' != s && !tasks[s'].state.UnInit? && 0 <= v' < VPN_END
        ensures !Touches(mem, tasks[s'].root, v', f)
      {
        assert TaskMemory(mem, b.loc, tasks[s'], s', trampoline, kroot);
        if Touches(mem, tasks[s'].root, v', f) {
          var t' := TouchedTag(mem, b.loc, tasks[s'], s', trampoline, kroot, v', f);
        }
      }
    }
  }

  lemma OwnedIsolates(b: Books, mem: Memory, tasks: seq<Task>, trampoline: nat, kroot: nat)
    requires BooksOk(b) && trampoline < b.start && Owned(mem, b.loc, tasks, trampoline, kroot)
    ensures Uniform(mem) && Isolated(mem, b.recycled, b.loc, tasks, trampoline, kroot)
  {
    hide BooksOk, Shape, Space, TaskMemory, HasHolder, Apart;
    forall s, v: nat, f: nat | 0 <= s < |tasks| && v < VPN_END
      ensures Apart(mem, b.recycled, b.loc, tasks, trampoline, kroot, s, v, f)
    {
      Isolation(b, mem, tasks, trampoline, kroot, s, v, f);
    }
  }

  // ---------------------------------------------------------------- keeping it

  /** Only the frames of the new space `root` and the trap page of `slot` came into use. */
  ghost predicate Spawned(mem0: Memory, loc0: Plan, mem: Memory, loc: Plan, root: nat, slot: nat) {
    && PlanOk(mem0, loc0) && PlanOk(mem, loc) && |mem| == |mem0|
    && (forall t | Mine(t, root) || t == Trap(slot) :: t !in loc0)
    && forall t | !Mine(t, root) && t != Trap(slot) ::
         && (t in loc <==> t in loc0)
         && (t in loc ==> loc[t] == loc0[t] && mem[loc[t]] == mem0[loc[t]])
  }

  lemma SpawnKeeps(mem0: Memory, loc0: Plan, mem: Memory, loc: Plan, tasks: seq<Task>, trampoline: nat, kroot: nat,
                   c: nat, t: Task)
    requires Owned(mem0, loc0, tasks, trampoline, kroot) && c < |tasks| && tasks[c].state.UnInit?
    requires Spawned(mem0, loc0, mem, loc, t.root, c) && Shape(mem, loc) && Rooted(loc)
    requires t.state == Ready && TaskMemory(mem, loc, t, c, trampoline, kroot)
    ensures Owned(mem, loc, tasks[c := t], trampoline, kroot)
  {
    hide Shape, Space, PlanOk;
    var tasks' := tasks[c := t];
    forall s | 0 <= s < |tasks'| && !tasks'[s].state.UnInit?
      ensures TaskMemory(mem, loc, tasks'[s], s, trampoline, kroot)
      ensures s != c ==> tasks'[s].root != t.root
    {
      if s != c {
        assert TaskMemory(mem0, loc0, tasks[s], s, trampoline, kroot);
        assert tasks[s].root != t.root by { assert Mine(Table(t.root, 0, 0), t.root); }
        SpaceSame(mem0, loc0, mem, loc, tasks[s].root, tasks[s].base / 4096, tasks[s].trap, trampoline);
      }
    }
    assert !Mine(Table(kroot, 0, 0), t.root);
    forall u | u in loc
      ensures HasHolder(tasks', kroot, u)
    {
      if Mine(u, t.root) {
        assert tasks'[c].root == t.root;
      } else if u != Trap(c) {
        assert HasHolder(tasks, kroot, u);
        if (u.Table? || u.Page?) && u.root != kroot {
          var s :| 0 <= s < |tasks| && !tasks[s].state.UnInit? && tasks[s].root == u.root;
          assert tasks'[s].root == u.root;
        }
      }
    }
  }

  /** Somebody else's memory is not touched by giving up an address space. */
  lemma OthersKept(mem0: Memory, loc0: Plan, mem: Memory, loc: Plan, t: Task, s: nat, trampoline: nat, kroot: nat)
    requires TaskMemory(mem0, loc0, t, s, trampoline, kroot) && Shape(mem, loc)
    requires PlanOk(mem0, loc0) && SameSpace(mem0, loc0, mem, loc, t.root)
    requires Trap(s) in loc && loc[Trap(s)] == loc0[Trap(s)]
    ensures TaskMemory(mem, loc, t, s, trampoline, kroot)
  {
    hide Shape, Space, SameSpace, PlanOk;
    SpaceSame(mem0, loc0, mem, loc, t.root, t.base / 4096, t.trap, trampoline);
  }

  /** What is left after a teardown is the same for everybody else. */
  lemma WithoutSame(mem0: Memory, loc0: Plan, mem: Memory, gone: nat, withTrap: bool, slot: nat, root: nat)
    requires var loc := Without(loc0, gone, withTrap, slot);
      PlanOk(mem0, loc0) && PlanOk(mem, loc) && Kept(mem0, mem, loc)
    requires root != gone
    ensures SameSpace(mem0, loc0, mem, Without(loc0, gone, withTrap, slot), root)
  {
    hide Injective, TagOk, Uniform;
  }

  /** The users of the frames are found among the tasks that stay. */
  lemma HoldersStay(tasks: seq<Task>, tasks': seq<Task>, kroot: nat, gone: nat, u: Tag)
    requires HasHolder(tasks, kroot, u) && |tasks'| == |tasks| && !Mine(u, gone)
    requires forall s | 0 <= s < |tasks| && !tasks[s].state.UnInit? && tasks[s].root != gone ::
      !tasks'[s].state.UnInit? && tasks'[s].root == tasks[s].root
    requires u.Trap? && u.slot < |tasks'| ==> !tasks'[u.slot].state.UnInit?
    ensures HasHolder(tasks', kroot, u)
  {
    if (u.Table? || u.Page?) && u.root != kroot {
      var s :| 0 <= s < |tasks| && !tasks[s].state.UnInit? && tasks[s].root == u.root;
      assert tasks'[s].root == u.root;
    }
  }

  lemma ReapKeepsOwned(mem0: Memory, loc0: Plan, mem: Memory, tasks: seq<Task>, trampoline: nat, kroot: nat, c: nat,
                       t: Task)
    requires Owned(mem0, loc0, tasks, trampoline, kroot) && c < |tasks| && !tasks[c].state.UnInit? && t.state.UnInit?
    requires var loc := Without(loc0, tasks[c].root, true, c); Kept(mem0, mem, loc) && Shape(mem, loc) && Rooted(loc)
    ensures Owned(mem, Without(loc0, tasks[c].root, true, c), tasks[c := t], trampoline, kroot)
  {
    hide Shape, Space, SameSpace, HasHolder, Kept, PlanOk;
    var root := tasks[c].root;
    var loc := Without(loc0, root, true, c);
    var tasks' := tasks[c := t];
    assert TaskMemory(mem0, loc0, tasks[c], c, trampoline, kroot);
    forall s | 0 <= s < |tasks'| && !tasks'[s].state.UnInit?
      ensures TaskMemory(mem, loc, tasks'[s], s, trampoline, kroot)
    {
      assert TaskMemory(mem0, loc0, tasks[s], s, trampoline, kroot);
      WithoutSame(mem0, loc0, mem, root, true, c, tasks[s].root);
      OthersKept(mem0, loc0, mem, loc, tasks[s], s, trampoline, kroot);
    }
    forall u | u in loc
      ensures HasHolder(tasks', kroot, u)
    {
      assert HasHolder(tasks, kroot, u);
      TrapHolder(tasks, kroot, u);
      HoldersStay(tasks, tasks', kroot, root, u);
    }
  }

  lemma TrapHolder(tasks: seq<Task>, kroot: nat, u: Tag)
    requires HasHolder(tasks, kroot, u)
    ensures u.Trap? ==> u.slot < |tasks| && !tasks[u.slot].state.UnInit?
  {
  }

  /** Like Framed, but the trap page of one slot may have been written. */
  ghost predicate FramedSpaces(mem0: Memory, loc0: Plan, mem: Memory, loc: Plan, root: nat, slot: nat) {
    && PlanOk(mem0, loc0) && PlanOk(mem, loc) && |mem| == |mem0|
    && forall t | !Mine(t, root) ::
         && (t in loc <==> t in loc0)
         && (t in loc ==> loc[t] == loc0[t] && (t == Trap(slot) || mem[loc[t]] == mem0[loc[t]]))
  }

  lemma FramedSame(mem0: Memory, loc0: Plan, mem: Memory, loc: Plan, root: nat, slot: nat, other: nat)
    requires FramedSpaces(mem0, loc0, mem, loc, root, slot) && other != root
    ensures SameSpace(mem0, loc0, mem, loc, other)
  {
    hide PlanOk;
  }

  lemma SameTransitive(mem0: Memory, loc0: Plan, mem1: Memory, loc1: Plan, mem2: Memory, loc2: Plan, root: nat)
    requires PlanOk(mem0, loc0) && PlanOk(mem1, loc1) && PlanOk(mem2, loc2)
    requires SameSpace(mem0, loc0, mem1, loc1, root) && SameSpace(mem1, loc1, mem2, loc2, root)
    ensures SameSpace(mem0, loc0, mem2, loc2, root)
  {
    hide PlanOk;
  }

  /** Trap pages stay where they are through both steps of exec. */
  lemma TrapsStay(mem0: Memory, loc0: Plan, mem1: Memory, loc1: Plan, root: nat, gone: nat, slot: nat, s: nat)
    requires FramedSpaces(mem0, loc0, mem1, loc1, root, slot) && Trap(s) in loc0
    ensures var loc2 := Without(loc1, gone, false, slot); Trap(s) in loc2 && loc2[Trap(s)] == loc0[Trap(s)]
  {
    hide PlanOk;
    assert !Mine(Trap(s), root);
  }

  /** Replacing the current task's address space: a new one was built, the old one torn down. */
  lemma ExecKeepsOwned(mem0: Memory, loc0: Plan, mem1: Memory, loc1: Plan, mem2: Memory, tasks: seq<Task>,
                       trampoline: nat, kroot: nat, c: nat, t: Task)
    requires Owned(mem0, loc0, tasks, trampoline, kroot) && c < |tasks| && !tasks[c].state.UnInit?
    requires FramedSpaces(mem0, loc0, mem1, loc1, t.root, c) && (forall u | u in loc0 :: !Mine(u, t.root))
    requires var loc2 := Without(loc1, tasks[c].root, false, c);
      && Kept(mem1, mem2, loc2) && Shape(mem2, loc2) && Rooted(loc2)
    requires TaskMemory(mem1, loc1, t, c, trampoline, kroot) && t.state == tasks[c].state
    ensures Owned(mem2, Without(loc1, tasks[c].root, false, c), tasks[c := t], trampoline, kroot)
  {
    hide Shape, Space, SameSpace, FramedSpaces, Kept, HasHolder, Without, Mine;
    var loc2 := Without(loc1, tasks[c].root, false, c);
    var tasks' := tasks[c := t];
    NewRootDiffers(mem0, loc0, tasks, trampoline, kroot, c, t.root);
    ExecPlans(mem0, loc0, mem1, loc1, t.root, c);
    forall s | 0 <= s < |tasks'| && !tasks'[s].state.UnInit?
      ensures TaskMemory(mem2, loc2, tasks'[s], s, trampoline, kroot)
      ensures s != c ==> tasks'[s].root != t.root
    {
      WithoutSame(mem1, loc1, mem2, tasks[c].root, false, c, tasks'[s].root);
      TrapsStay(mem0, loc0, mem1, loc1, t.root, tasks[c].root, c, s);
      if s != c {
        assert TaskMemory(mem0, loc0, tasks[s], s, trampoline, kroot);
        FramedSame(mem0, loc0, mem1, loc1, t.root, c, tasks[s].root);
        SameTransitive(mem0, loc0, mem1, loc1, mem2, loc2, tasks[s].root);
        OthersKept(mem0, loc0, mem2, loc2, tasks[s], s, trampoline, kroot);
      } else {
        ExecSlot(mem0, loc0, mem1, loc1, t, c);
        OthersKept(mem1, loc1, mem2, loc2, t, c, trampoline, kroot);
      }
    }
    forall u | u in loc2
      ensures HasHolder(tasks', kroot, u)
    {
      ExecHolders(mem0, loc0, mem1, loc1, tasks, trampoline, kroot, c, t, u);
    }
    ExecKernelRoot(mem0, loc0, mem1, loc1, tasks, trampoline, kroot, c, t);
  }

  lemma ExecPlans(mem0: Memory, loc0: Plan, mem1: Memory, loc1: Plan, root: nat, slot: nat)
    requires FramedSpaces(mem0, loc0, mem1, loc1, root, slot)
    ensures PlanOk(mem0, loc0) && PlanOk(mem1, loc1)
  {
  }

  lemma ExecSlot(mem0: Memory, loc0: Plan, mem1: Memory, loc1: Plan, t: Task, c: nat)
    requires FramedSpaces(mem0, loc0, mem1, loc1, t.root, c) && Trap(c) in loc0
    ensures Trap(c) in loc1 && loc1[Trap(c)] == loc0[Trap(c)]
  {
    hide PlanOk;
    assert !Mine(Trap(c), t.root);
  }

  /** The fresh root is nobody's, and everybody in use has a trap page. */
  lemma NewRootDiffers(mem0: Memory, loc0: Plan, tasks: seq<Task>, trampoline: nat, kroot: nat, c: nat, root: nat)
    requires Owned(mem0, loc0, tasks, trampoline, kroot) && c < |tasks| && !tasks[c].state.UnInit?
    requires forall u | u in loc0 :: !Mine(u, root)
    ensures root != kroot
    ensures forall s | 0 <= s < |tasks| && !tasks[s].state.UnInit? :: tasks[s].root != root && Trap(s) in loc0
    ensures forall s | 0 <= s < |tasks| && !tasks[s].state.UnInit? && s != c :: tasks[s].root != tasks[c].root
  {
    hide Shape, Space, HasHolder;
    assert Mine(Table(root, 0, 0), root);
    forall s | 0 <= s < |tasks| && !tasks[s].state.UnInit?
      ensures tasks[s].root != root && Trap(s) in loc0
    {
      assert TaskMemory(mem0, loc0, tasks[s], s, trampoline, kroot);
    }
  }

  lemma ExecHolders(mem0: Memory, loc0: Plan, mem1: Memory, loc1: Plan, tasks: seq<Task>, trampoline: nat, kroot: nat,
                    c: nat, t: Task, u: Tag)
    requires Owned(mem0, loc0, tasks, trampoline, kroot) && c < |tasks| && !tasks[c].state.UnInit?
    requires t.state == tasks[c].state
    requires FramedSpaces(mem0, loc0, mem1, loc1, t.root, c) && u in Without(loc1, tasks[c].root, false, c)
    ensures HasHolder(tasks[c := t], kroot, u)
  {
    hide Shape, Space, PlanOk;
    var tasks' := tasks[c := t];
    if Mine(u, t.root) {
      assert tasks'[c].root == t.root;
    } else {
      assert u in loc0;
      assert HasHolder(tasks, kroot, u);
      HoldersStay(tasks, tasks', kroot, tasks[c].root, u);
    }
  }

  lemma ExecKernelRoot(mem0: Memory, loc0: Plan, mem1: Memory, loc1: Plan, tasks: seq<Task>, trampoline: nat,
                       kroot: nat, c: nat, t: Task)
    requires Owned(mem0, loc0, tasks, trampoline, kroot) && c < |tasks| && !tasks[c].state.UnInit? && t.root != kroot
    requires FramedSpaces(mem0, loc0, mem1, loc1, t.root, c)
    ensures Table(kroot, 0, 0) in Without(loc1, tasks[c].root, false, c)
  {
    hide Shape, Space, PlanOk, HasHolder;
    assert TaskMemory(mem0, loc0, tasks[c], c, trampoline, kroot);
    assert !Mine(Table(kroot, 0, 0), t.root);
  }

  /** Fields that have nothing to do with memory may change freely. */
  lemma OtherFieldsKeepOwned(mem: Memory, loc: Plan, tasks: seq<Task>, tasks': seq<Task>, trampoline: nat, kroot: nat)
    requires Owned(mem, loc, tasks, trampoline, kroot) && |tasks'| == |tasks|
    requires forall s | 0 <= s < |tasks| ::
      && tasks'[s].state.UnInit? == tasks[s].state.UnInit? && tasks'[s].root == tasks[s].root
      && tasks'[s].trap == tasks[s].trap && tasks'[s].base == tasks[s].base
    ensures Owned(mem, loc, tasks', trampoline, kroot)
  {
    hide Shape, Space;
    forall s | 0 <= s < |tasks'| && !tasks'[s].state.UnInit?
      ensures TaskMemory(mem, loc, tasks'[s], s, trampoline, kroot)
    {
      assert TaskMemory(mem, loc, tasks[s], s, trampoline, kroot);
    }
    forall u | u in loc
      ensures HasHolder(tasks', kroot, u)
    {
      assert HasHolder(tasks, kroot, u);
      if (u.Table? || u.Page?) && u.root != kroot {
        var s :| 0 <= s < |tasks| && !tasks[s].state.UnInit? && tasks[s].root == u.root;
        assert tasks'[s].root == u.root;
      }
    }
  }

  /** Fork followed by the child's teardown gives back every frame: what was spawned is exactly
      what is taken away. */
  lemma TeardownUndoesSpawn(mem0: Memory, loc0: Plan, mem: Memory, loc: Plan, root: nat, slot: nat)
    requires Spawned(mem0, loc0, mem, loc, root, slot)
    ensures Without(loc, root, true, slot) == loc0
  {
    hide PlanOk;
    forall t
      ensures t in Without(loc, root, true, slot) <==> t in loc0
    {
    }
  }

  // ---------------------------------------------------------------- building a child's memory

  /** proc_trap and proc_pagetable for a free slot. */
  method NewTaskMemory(m: Machine, c: nat, trampoline: nat) returns (ok: bool, trap: nat, root: nat)
    requires m.Valid() && Rooted(m.loc) && Trap(c) !in m.loc && trampoline < PPN_END
    modifies m
    ensures m.FramesOk() && (!ok ==> m.Exhausted())
    ensures ok ==>
      && Spawned(old(m.mem), old(m.loc), m.mem, m.loc, root, c) && Rooted(m.loc)
      && Trap(c) in m.loc && m.loc[Trap(c)] == trap
      && Space(m.mem, m.loc, root, 0, trap, trampoline)
  {
    hide Shape, BooksOk, Space, Injective, TagOk, Uniform, Leaf;
    MachineParts(m);
    ghost var mem0, loc0 := m.mem, m.loc;
    root := 0;
    ok, trap := TakeFrame(m, ZeroFrame(), Trap(c));
    if !ok {
      return;
    }
    ghost var mem1, loc1 := m.mem, m.loc;
    PlaceInRange(mem1, loc1, Trap(c));
    ok, root := NewSpace(m, trap, trampoline);
    if ok {
      FreshRoot(mem1, loc1, root);
    }
  }

  lemma SpawnedThenFramed(mem0: Memory, loc0: Plan, mem1: Memory, loc1: Plan, mem2: Memory, loc2: Plan, root: nat,
                          slot: nat)
    requires Spawned(mem0, loc0, mem1, loc1, root, slot) && Framed(mem1, loc1, mem2, loc2, root)
    ensures Spawned(mem0, loc0, mem2, loc2, root, slot)
  {
    hide PlanOk;
  }

  /** Filling the child's trap page touches nothing else. */
  lemma TrapWritten(mem0: Memory, loc0: Plan, mem1: Memory, loc: Plan, root: nat, slot: nat, data: Frame,
                    father: nat, pages: nat, trap: nat, trampoline: nat)
    requires Spawned(mem0, loc0, mem1, loc, root, slot) && Shape(mem1, loc) && |data| == ENTRIES
    requires Trap(slot) in loc && loc[Trap(slot)] == trap
    requires Space(mem1, loc, root, pages, trap, trampoline) && Copied(mem1, loc, loc0, father, root, pages)
    ensures var mem2 := mem1[trap := data];
      && Spawned(mem0, loc0, mem2, loc, root, slot)
      && Space(mem2, loc, root, pages, trap, trampoline) && Copied(mem2, loc, loc0, father, root, pages)
  {
    var mem2 := mem1[trap := data];
    WriteData(mem1, loc, trap, data);
    assert forall t | t in loc && t != Trap(slot) :: mem2[loc[t]] == mem1[loc[t]];
    hide Shape, Injective, TagOk;
    SpaceSame(mem1, loc, mem2, loc, root, pages, trap, trampoline);
  }

  /** The child's trap page against the father's: register a0 (word 10) is 0, the result of fork, the
      kernel stack (word 35) is the child's own, and all other words are the father's. */
  predicate ChildRegisters(child: Frame, father: Frame, kstack: Word) {
    && |child| == |father| == ENTRIES && child[10] == 0 && child[35] == kstack
    && forall i | 0 <= i < ENTRIES && i != 10 && i != 35 :: child[i] == father[i]
  }

  /** The whole of fork's work on memory: a second task that looks like the first. */
  method CloneMemory(m: Machine, father: nat, pages: nat, trapF: nat, kstack: Word, c: nat, trampoline: nat,
                     ghost s: nat)
    returns (ok: bool, trap: nat, root: nat)
    requires m.Valid() && Rooted(m.loc) && Trap(c) !in m.loc && trampoline < PPN_END
    requires Space(m.mem, m.loc, father, pages, trapF, trampoline)
    requires s != c && Trap(s) in m.loc && m.loc[Trap(s)] == trapF && trapF < |m.mem|
    modifies m
    ensures m.FramesOk() && (!ok ==> m.Exhausted())
    ensures ok ==>
      && Spawned(old(m.mem), old(m.loc), m.mem, m.loc, root, c) && Rooted(m.loc)
      && Trap(c) in m.loc && m.loc[Trap(c)] == trap && trap < |m.mem|
      && Space(m.mem, m.loc, root, pages, trap, trampoline)
      && Copied(m.mem, m.loc, old(m.loc), father, root, pages)
      && ChildRegisters(m.mem[trap], old(m.mem)[trapF], kstack)
  {
    hide Shape, BooksOk, Space, Copied, Injective, TagOk;
    ghost var mem0, loc0 := m.mem, m.loc;
    ok, trap, root := NewTaskMemory(m, c, trampoline);
    if !ok {
      return;
    }
    ghost var mem1, loc1 := m.mem, m.loc;
    RootsDiffer(mem0, loc0, mem1, loc1, father, root, c);
    SpaceSame(mem0, loc0, mem1, loc1, father, pages, trapF, trampoline);
    SpaceWiden(mem1, loc1, root, 0, pages, trap, trampoline);
    EmptySpace(mem1, loc1, root, trap, trampoline);
    var r := CopySpace(m, father, root, pages, trapF, trap, trampoline);
    if r != Done {
      return false, trap, root;
    }
    ghost var mem2, loc2 := m.mem, m.loc;
    SpawnedThenFramed(mem0, loc0, mem1, loc1, mem2, loc2, root, c);
    CopiedEarlier(mem2, loc2, loc0, loc1, father, root, pages);
    PlaceInRange(mem2, loc2, Trap(c));
    assert !Mine(Trap(s), root) && !Mine(Trap(c), root);
    PlaceInRange(mem2, loc2, Trap(s));
    var page: Frame := m.mem[trapF];
    page := page[10 := 0];
    page := page[35 := kstack];
    TrapWritten(mem0, loc0, mem2, loc2, root, c, page, father, pages, trap, trampoline);
    m.mem := m.mem[trap := page];
  }

  lemma RootsDiffer(mem0: Memory, loc0: Plan, mem1: Memory, loc1: Plan, father: nat, root: nat, c: nat)
    requires Spawned(mem0, loc0, mem1, loc1, root, c) && Table(father, 0, 0) in loc0
    ensures father != root && SameSpace(mem0, loc0, mem1, loc1, father)
  {
    hide PlanOk;
    assert Mine(Table(root, 0, 0), root);
  }

  /** Frames that were free after the child's tables were built were free before. */
  lemma CopiedEarlier(mem: Memory, loc: Plan, loc0: Plan, loc1: Plan, father: nat, child: nat, n: nat)
    requires PlanOk(mem, loc) && Copied(mem, loc, loc1, father, child, n)
    requires forall t | t in loc0 :: t in loc1 && loc1[t] == loc0[t]
    ensures Copied(mem, loc, loc0, father, child, n)
  {
    hide PlanOk;
    forall f: nat | Unused(loc1, f) ensures Unused(loc0, f) { }
  }

  // ---------------------------------------------------------------- writing to pages

  /** A frame that holds no page table. */
  ghost predicate NoTable(loc: Plan, f: nat) { forall t | t in loc && t.Table? :: loc[t] != f }

  lemma SpaceButWritten(mem: Memory, loc: Plan, root: nat, pages: nat, trap: nat, trampoline: nat, strays: iset<nat>,
                        f: nat, data: Frame)
    requires SpaceBut(mem, loc, root, pages, trap, trampoline, strays)
    requires f < |mem| && |data| == ENTRIES && NoTable(loc, f)
    ensures SpaceBut(mem[f := data], loc, root, pages, trap, trampoline, strays)
  {
    WriteData(mem, loc, f, data);
    hide Shape, PlanOk;
    var mem' := mem[f := data];
    forall v: nat
      ensures v !in strays ==> PageOk(mem', loc, root, pages, trap, trampoline, v)
      ensures v in strays ==> StrayOk(mem', loc, root, pages, v)
    {
      assert v !in strays ==> PageOk(mem, loc, root, pages, trap, trampoline, v);
      assert v in strays ==> StrayOk(mem, loc, root, pages, v);
    }
  }

  lemma SpaceWritten(mem: Memory, loc: Plan, root: nat, pages: nat, trap: nat, trampoline: nat, f: nat, data: Frame)
    requires Space(mem, loc, root, pages, trap, trampoline) && f < |mem| && |data| == ENTRIES && NoTable(loc, f)
    ensures Space(mem[f := data], loc, root, pages, trap, trampoline)
  {
    hide Shape, Space, SpaceBut;
    SpaceExactly(mem, loc, root, pages, trap, trampoline);
    SpaceButWritten(mem, loc, root, pages, trap, trampoline, iset{}, f, data);
    SpaceExactly(mem[f := data], loc, root, pages, trap, trampoline);
  }

  /** Data may be written without touching the invariant. */
  lemma WriteKeepsOwned(mem: Memory, loc: Plan, tasks: seq<Task>, trampoline: nat, kroot: nat, f: nat, data: Frame)
    requires Owned(mem, loc, tasks, trampoline, kroot) && f < |mem| && |data| == ENTRIES && NoTable(loc, f)
    ensures Owned(mem[f := data], loc, tasks, trampoline, kroot)
  {
    WriteData(mem, loc, f, data);
    hide Shape, Space;
    forall s | 0 <= s < |tasks| && !tasks[s].state.UnInit?
      ensures TaskMemory(mem[f := data], loc, tasks[s], s, trampoline, kroot)
    {
      assert TaskMemory(mem, loc, tasks[s], s, trampoline, kroot);
      SpaceWritten(mem, loc, tasks[s].root, tasks[s].base / 4096, tasks[s].trap, trampoline, f, data);
    }
  }

  lemma OtherPurpose(mem: Memory, loc: Plan, t: Tag)
    requires PlanOk(mem, loc) && t in loc && !t.Table?
    ensures loc[t] < |mem| && |mem[loc[t]]| == ENTRIES && NoTable(loc, loc[t])
  {
  }

  // ---------------------------------------------------------------- exec, piece by piece

  /** A trap page after exec against the one before: the program counter (word 33) is the entry point,
      the stack pointer (word 2) the new base_size, and all other words are as they were. */
  predicate ExecRegisters(after: Frame, before: Frame, entry: Word, sp: Word) {
    && |after| == |before| == ENTRIES && after[33] == entry && after[2] == sp
    && forall i | 0 <= i < ENTRIES && i != 33 && i != 2 :: after[i] == before[i]
  }

  lemma ImageSame(mem0: Memory, loc0: Plan, mem: Memory, loc: Plan, root: nat, segs: seq<Segment>)
    requires PlanOk(mem0, loc0) && PlanOk(mem, loc) && SameSpace(mem0, loc0, mem, loc, root)
    requires ImagesOk(segs) && ImageLoaded(mem0, loc0, root, segs)
    ensures ImageLoaded(mem, loc, root, segs)
  {
    hide PlanOk, SegVpn, PageCount, Prot, Unaligned, NewPte;
    forall a: nat, b: nat | Before(segs, |segs|, 0, a, b)
      ensures SegPageIs(mem, loc, root, segs[a], b)
    {
      var v := SegVpn(segs[a], b);
      assert SegPageIs(mem0, loc0, root, segs[a], b);
      assert Mine(Page(root, v), root) && Mine(Table(root, 2, v / 512), root);
      assert Mine(Table(root, 2, (v + 1) / 512), root);
    }
  }

  lemma StackSame(mem0: Memory, loc0: Plan, mem: Memory, loc: Plan, root: nat, base: Word)
    requires PlanOk(mem0, loc0) && PlanOk(mem, loc) && SameSpace(mem0, loc0, mem, loc, root)
    requires StackReady(mem0, loc0, root, base)
    ensures StackReady(mem, loc, root, base)
  {
    hide PlanOk, StackVpn;
    assert Mine(Page(root, StackVpn(base)), root) && Mine(Table(root, 2, StackVpn(base) / 512), root);
  }

  /** Writing the trap page while both address spaces exist. */
  lemma ExecTrap(mem0: Memory, loc0: Plan, mem2: Memory, loc2: Plan, before: nat, root: nat, pages: nat, trap: nat,
                 trampoline: nat, slot: nat, segs: seq<Segment>, data: Frame, base: Word)
    requires Framed(mem0, loc0, mem2, loc2, root) && (forall u | u in loc0 :: !Mine(u, root))
    requires Space(mem0, loc0, before, pages, trap, trampoline) && ImagesOk(segs) && |data| == ENTRIES
    requires Trap(slot) in loc0 && loc0[Trap(slot)] == trap
    requires SpaceBut(mem2, loc2, root, TRAP_VPN, trap, trampoline, Strays(segs, |segs|, 0))
    requires ImageLoaded(mem2, loc2, root, segs) && StackReady(mem2, loc2, root, base)
    ensures trap < |mem2| && before != root
    ensures var mem3 := mem2[trap := data];
      && Shape(mem3, loc2) && FramedSpaces(mem0, loc0, mem3, loc2, root, slot)
      && Space(mem3, loc2, before, pages, trap, trampoline)
      && SpaceBut(mem3, loc2, root, TRAP_VPN, trap, trampoline, Strays(segs, |segs|, 0))
      && ImageLoaded(mem3, loc2, root, segs) && StackReady(mem3, loc2, root, base)
  {
    hide Shape, Space, SpaceBut, ImageLoaded, StackReady;
    assert before != root by { assert Mine(Table(root, 0, 0), root); }
    assert !Mine(Trap(slot), root);
    OtherPurpose(mem2, loc2, Trap(slot));
    SpaceFramed(mem0, loc0, mem2, loc2, root, before, pages, trap, trampoline);
    SpaceWritten(mem2, loc2, before, pages, trap, trampoline, trap, data);
    SpaceButWritten(mem2, loc2, root, TRAP_VPN, trap, trampoline, Strays(segs, |segs|, 0), trap, data);
    var mem3 := mem2[trap := data];
    assert forall t | t in loc2 && t != Trap(slot) :: mem3[loc2[t]] == mem2[loc2[t]];
    ImageSame(mem2, loc2, mem3, loc2, root, segs);
    StackSame(mem2, loc2, mem3, loc2, root, base);
  }

  /** exec keeps the invariant exactly when the program headers fit below the new base_size. */
  lemma ExecDone(mem0: Memory, loc0: Plan, mem3: Memory, loc2: Plan, mem4: Memory, tasks: seq<Task>, trampoline: nat,
                 kroot: nat,
                 c: nat, t: Task, segs: seq<Segment>, before: Word)
    requires Owned(mem0, loc0, tasks, trampoline, kroot) && c < |tasks| && !tasks[c].state.UnInit? && ImagesOk(segs)
    requires FramedSpaces(mem0, loc0, mem3, loc2, t.root, c) && (forall u | u in loc0 :: !Mine(u, t.root))
    requires SpaceBut(mem3, loc2, t.root, TRAP_VPN, t.trap, trampoline, Strays(segs, |segs|, 0))
    requires ImageLoaded(mem3, loc2, t.root, segs) && StackReady(mem3, loc2, t.root, t.base)
    requires OwnsExactly(loc2, t.root, segs, t.base) && t.base == Base(segs, before)
    requires t.state == tasks[c].state && t.trap == tasks[c].trap
    requires var loc4 := Without(loc2, tasks[c].root, false, c);
      && Kept(mem3, mem4, loc4) && Shape(mem4, loc4) && Rooted(loc4)
    ensures var loc4 := Without(loc2, tasks[c].root, false, c);
      && (Owned(mem4, loc4, tasks[c := t], trampoline, kroot) <==> Fits(segs, before))
      && SpaceBut(mem4, loc4, t.root, TRAP_VPN, t.trap, trampoline, Strays(segs, |segs|, 0))
      && ImageLoaded(mem4, loc4, t.root, segs) && OwnsExactly(loc4, t.root, segs, t.base)
      && StackReady(mem4, loc4, t.root, t.base)
      && forall u | u in loc4 :: !Mine(u, tasks[c].root)
  {
    var loc4 := Without(loc2, tasks[c].root, false, c);
    BoundedExactly(mem3, loc2, t.root, segs, before, t.trap, trampoline);
    BaseAligned(segs, before);
    hide Shape, Space, SpaceBut, ImageLoaded, OwnsExactly, Fits, Base, Strays, StackReady;
    assert TaskMemory(mem0, loc0, tasks[c], c, trampoline, kroot);
    assert Mine(Table(t.root, 0, 0), t.root) && !Mine(Trap(c), t.root);
    assert t.root != tasks[c].root && t.root != kroot;
    assert SameSpace(mem3, loc2, mem4, loc4, t.root);
    SpaceButSame(mem3, loc2, mem4, loc4, t.root, TRAP_VPN, t.trap, trampoline, Strays(segs, |segs|, 0));
    ImageSame(mem3, loc2, mem4, loc4, t.root, segs);
    StackSame(mem3, loc2, mem4, loc4, t.root, t.base);
    OwnsSame(loc2, loc4, t.root, segs, t.base);
    if Fits(segs, before) {
      ExecKeepsOwned(mem0, loc0, mem3, loc2, mem4, tasks, trampoline, kroot, c, t);
    }
    if Owned(mem4, loc4, tasks[c := t], trampoline, kroot) {
      assert TaskMemory(mem4, loc4, tasks[c := t][c], c, trampoline, kroot);
      SpaceSame(mem4, loc4, mem3, loc2, t.root, t.base / 4096, t.trap, trampoline);
    }
  }

  lemma OwnsSame(loc0: Plan, loc: Plan, root: nat, segs: seq<Segment>, base: Word)
    requires OwnsExactly(loc0, root, segs, base) && forall v: nat :: Page(root, v) in loc <==> Page(root, v) in loc0
    ensures OwnsExactly(loc, root, segs, base)
  {
  }

  /** Outside the old and the new address space nothing but the trap page of the slot changed. */
  ghost predicate OthersSame(mem0: Memory, loc0: Plan, mem: Memory, loc: Plan, before: nat, after: nat, slot: nat) {
    && PlanOk(mem0, loc0) && PlanOk(mem, loc) && |mem| == |mem0|
    && forall t | !Mine(t, before) && !Mine(t, after) ::
         && (t in loc <==> t in loc0)
         && (t in loc ==> loc[t] == loc0[t] && (t == Trap(slot) || mem[loc[t]] == mem0[loc[t]]))
  }

  lemma ExecOthers(mem0: Memory, loc0: Plan, mem3: Memory, loc2: Plan, mem4: Memory, before: nat, after: nat, slot: nat)
    requires FramedSpaces(mem0, loc0, mem3, loc2, after, slot) && Trap(slot) in loc0
    requires var loc4 := Without(loc2, before, false, slot); Kept(mem3, mem4, loc4) && PlanOk(mem4, loc4)
    ensures OthersSame(mem0, loc0, mem4, Without(loc2, before, false, slot), before, after, slot)
    ensures loc0[Trap(slot)] < |mem4| && mem4[loc0[Trap(slot)]] == mem3[loc0[Trap(slot)]]
  {
    hide Injective, TagOk, Uniform;
    assert !Mine(Trap(slot), after) && !Mine(Trap(slot), before);
  }
}
