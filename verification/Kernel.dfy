/** The kernel's process calls (os/src/trap.c, os/src/task.c) and the boot that leads to them. */
module Kernel {
  import opened Common
  import opened Bits
  import opened Sv39
  import opened KernelMemory
  import opened AddressSpace
  import opened Loader
  import opened Tasks
  import opened Ownership
  import opened TrapPages
  import opened UserView
  import opened Scheduling

  // ---------------------------------------------------------------- the calls

  /** Outcome of a call: the kernel stopped, the call failed, or it returned a pid. */
  datatype Outcome = Stopped | Failed | Pid(pid: int) | MustWait | Ok

  /** What can happen to a running system: the calls, a timer interrupt (Yield), a store by user code,
      and the trap code that saves and patches the registers in words 1 to 33 of the current task's
      trap page. A GetChar without a character ready is one round of its waiting loop. */
  datatype Call =
    | Yield
    | Fork
    | Exec(segs: seq<Segment>, entry: Word)
    | Exit(code: Word)
    | Recycle
    | GetChar(stdin: bool, ready: bool, uptr: Word, c: nat)
    | Store(vpn: nat, index: nat, w: Word)
    | Save(page: Frame)

  /** Memory effect of a successful fork of the current task into slot c. */
  ghost predicate Forked(mem0: Memory, loc0: Plan, tasks0: seq<Task>, cur: nat, mem: Memory, loc: Plan,
                         tasks: seq<Task>, c: nat) {
    && c < |tasks0| && cur < |tasks0| && c != cur && tasks0[c].state.UnInit? && |tasks| == |tasks0|
    && tasks == tasks0[c := tasks[c]]
    && tasks[c] == tasks0[cur].(state := Ready, pid := tasks[c].pid, parent := Some(cur), trap := tasks[c].trap,
                                root := tasks[c].root, kstack := tasks0[c].kstack, exitCode := tasks0[c].exitCode)
    && Spawned(mem0, loc0, mem, loc, tasks[c].root, c)
    && Copied(mem, loc, loc0, tasks[cur].root, tasks[c].root, tasks[cur].base / 4096)
    && tasks[c].trap < |mem| && tasks[cur].trap < |mem0|
    && ChildRegisters(mem[tasks[c].trap], mem0[tasks[cur].trap], tasks[c].kstack)
  }

  class Os {
    const m: Machine
    const trampoline: nat
    const kroot: nat
    var tasks: seq<Task>
    var cur: nat
    var top: int
    var nextPid: int

    ghost predicate Valid()
      reads this, m
    {
      && m.FramesOk() && trampoline < m.start && m.start < PPN_END
      && Owned(m.mem, m.loc, tasks, trampoline, kroot)
      && Tree(tasks, cur, top, nextPid)
      && Alive(tasks[cur])
    }

    /** The state os_main hands to the first task. */
    constructor (m: Machine, trampoline: nat, kroot: nat, tasks: seq<Task>)
      requires m.FramesOk() && trampoline < m.start && m.start < PPN_END
      requires Tree(tasks, 0, 1, 1) && Alive(tasks[0])
      ensures Valid() <==> Owned(m.mem, m.loc, tasks, trampoline, kroot)
      ensures this.m == m && this.tasks == tasks && cur == 0 && top == 1 && nextPid == 1
      ensures this.trampoline == trampoline && this.kroot == kroot
    {
      this.m, this.trampoline, this.kroot := m, trampoline, kroot;
      this.tasks, cur, top, nextPid := tasks, 0, 1, 1;
    }

    /** __sys_yield: the slot after the current one, modulo the number of live tasks, takes over
        if it holds a live task; otherwise nothing changes. The counter is never 0. */
    method DoYield() returns (switched: bool)
      requires Tree(tasks, cur, top, nextPid)
      modifies `tasks, `cur
      ensures 0 < top <= MAX_TASKS
      ensures Tree(tasks, cur, top, nextPid)
      ensures switched <==> Alive(old(tasks)[(old(cur) + 1) % top])
      ensures switched ==>
        cur == (old(cur) + 1) % top && tasks == Switched(old(tasks), old(cur), cur) && Alive(tasks[cur])
      ensures switched ==> HandedOver(old(tasks), old(cur), tasks, cur)
      ensures !switched ==> cur == old(cur) && tasks == old(tasks)
      ensures old(cur) < |old(tasks)| && top <= |old(tasks)| && cur == YieldTo(old(tasks), top, old(cur))
    {
      hide Tree;
      TopBounds(tasks, cur, top, nextPid);
      var next := (cur + 1) % top;
      switched := Alive(tasks[next]);
      if switched {
        SwitchKeeps(tasks, cur, top, nextPid, next);
        SwitchHandsOver(tasks, cur, next);
        tasks := tasks[next := tasks[next].(state := Running)];
        if tasks[cur].state.Running? {
          tasks := tasks[cur := tasks[cur].(state := Ready)];
        }
        cur := next;
      }
    }

    /** The search of alloc_proc. */
    method FindFree() returns (slot: Option<nat>)
      ensures slot.Some? ==>
        && slot.value < |tasks| && tasks[slot.value].state.UnInit?
        && forall s | 0 <= s < slot.value :: !tasks[s].state.UnInit?
      ensures slot.None? ==> forall s | 0 <= s < |tasks| :: !tasks[s].state.UnInit?
    {
      var s := 0;
      while s < |tasks|
        invariant 0 <= s <= |tasks| && forall j | 0 <= j < s :: !tasks[j].state.UnInit?
      {
        if tasks[s].state.UnInit? {
          return Some(s);
        }
        s := s + 1;
      }
      slot := None;
    }

    /** __sys_fork. */
    method DoFork() returns (r: Outcome, ghost child: nat)
      requires Valid()
      modifies this, m
      ensures r == Stopped || r == Failed || r.Pid?
      ensures r == Stopped ==> m.Exhausted()
      ensures r != Stopped ==> Valid() && cur == old(cur)
      ensures r == Failed ==>
        && tasks == old(tasks) && top == old(top) && nextPid == old(nextPid) && m.mem == old(m.mem)
        && m.loc == old(m.loc)
        && forall s | 0 <= s < |tasks| :: !tasks[s].state.UnInit?
      ensures r.Pid? ==>
        && Forked(old(m.mem), old(m.loc), old(tasks), cur, m.mem, m.loc, tasks, child)
        && tasks[child].pid == r.pid == old(nextPid) && nextPid == r.pid + 1 && top == old(top) + 1
        && forall s | 0 <= s < child :: !old(tasks)[s].state.UnInit?
    {
      hide *;
      OsParts(this);
      child := 0;
      var slot := FindFree();
      if slot.None? {
        return Failed, 0;
      }
      var c := slot.value;
      child := c;
      var father := tasks[cur];
      ghost var mem0, loc0, tasks0 := m.mem, m.loc, tasks;
      ForkReady(m.mem, m.loc, tasks, trampoline, kroot, cur, c);
      var ok, trap, root := CloneMemory(m, father.root, father.base / 4096, father.trap, tasks[c].kstack, c,
                                        trampoline, cur);
      if !ok {
        return Stopped, c;
      }
      var t := tasks[c].(state := Ready, pid := nextPid, trap := trap, root := root,
                         entry := father.entry, base := father.base, parent := Some(cur), ustack := father.ustack);
      ForkDone(mem0, loc0, m.mem, m.loc, tasks, trampoline, kroot, cur, c, t);
      ForkKeeps(tasks, cur, top, nextPid, c, t);
      tasks := tasks[c := t];
      top, nextPid := top + 1, nextPid + 1;
      OsValid(this);
      r := Pid(t.pid);
    }

    /** __sys_exec: the current task gets a new address space and gives the old one back. The
        ownership invariant survives exactly when the program headers fit. */
    method DoExec(segs: seq<Segment>, entry: Word) returns (r: Outcome)
      requires Valid() && ImagesOk(segs)
      modifies this, m
      ensures r == Stopped || r == Ok
      ensures r == Stopped ==> m.Exhausted() || Overlaps(segs, Base(segs, old(tasks)[old(cur)].ustack))
      ensures r == Ok ==>
        && (Valid() <==> Fits(segs, old(tasks)[old(cur)].ustack))
        && !Overlaps(segs, Base(segs, old(tasks)[old(cur)].ustack))
        && cur == old(cur) && top == old(top) && nextPid == old(nextPid) && |tasks| == |old(tasks)|
        && tasks == old(tasks)[cur := tasks[cur]]
        && tasks[cur] == old(tasks)[cur].(root := tasks[cur].root, base := Base(segs, old(tasks)[cur].ustack),
                                          ustack := tasks[cur].base)
        && Shape(m.mem, m.loc) && ImageLoaded(m.mem, m.loc, tasks[cur].root, segs)
        && OwnsExactly(m.loc, tasks[cur].root, segs, tasks[cur].base)
        && (forall t | t in m.loc :: !Mine(t, old(tasks)[cur].root))
        && (forall t | t in old(m.loc) :: !Mine(t, tasks[cur].root))
        && OthersSame(old(m.mem), old(m.loc), m.mem, m.loc, old(tasks)[cur].root, tasks[cur].root, cur)
        && tasks[cur].trap < |m.mem| && tasks[cur].trap < |old(m.mem)|
        && ExecRegisters(m.mem[tasks[cur].trap], old(m.mem)[tasks[cur].trap], entry, tasks[cur].base)
        && StackReady(m.mem, m.loc, tasks[cur].root, tasks[cur].base)
    {
      hide *;
      OsParts(this);
      var t := tasks[cur];
      ghost var mem0, loc0 := m.mem, m.loc;
      TaskReady(m.mem, m.loc, tasks, trampoline, kroot, cur);
      var ok, root := NewSpace(m, t.trap, trampoline);
      if !ok {
        return Stopped;
      }
      FreshRoot(mem0, loc0, root);
      ghost var mem1, loc1 := m.mem, m.loc;
      MachineValid(m);
      var status, base := LoadImage(m, root, segs, t.ustack, t.trap, trampoline);
      if status != Done {
        return Stopped;
      }
      FramedTransitive(mem0, loc0, mem1, loc1, m.mem, m.loc, root);
      ghost var mem2, loc2 := m.mem, m.loc;
      StillThere(mem0, loc0, mem2, loc2, root, Trap(cur));
      PageWords();
      var page: Frame := m.mem[t.trap];
      page := page[33 := entry];
      page := page[2 := base];
      ExecWords(page, m.mem[t.trap], entry, base);
      ExecTrap(mem0, loc0, mem2, loc2, t.root, root, t.base / 4096, t.trap, trampoline, cur, segs, page, base);
      m.Overwrite(t.trap, page);
      ghost var mem3 := m.mem;
      MachineValid(m);
      var freed := DestroySpace(m, t.root, t.base / 4096, false, t.trap, trampoline, cur);
      MachineParts(m);
      var t' := t.(root := root, base := base, ustack := base);
      ExecDone(mem0, loc0, mem3, loc2, m.mem, tasks, trampoline, kroot, cur, t', segs, t.ustack);
      ExecOthers(mem0, loc0, mem3, loc2, m.mem, t.root, root, cur);
      ExecTree(tasks, cur, top, nextPid, t');
      tasks := tasks[cur := t'];
      OsExactly(this);
      r := Ok;
    }

    /** exit_current_and_run_next: the first task must not exit, and the slot that takes over must
        hold a live task; in all other cases the kernel panics. */
    method DoExit(code: Word) returns (r: Outcome)
      requires Valid()
      modifies this
      ensures r == Ok || r == Stopped
      ensures r == Ok <==>
        && old(cur) != 0 && old(top) > 1
        && var next := (old(cur) + 1) % (old(top) - 1);
        next != old(cur) && next < |old(tasks)| && Alive(old(tasks)[next])
      ensures r == Ok ==>
        && Valid() && top == old(top) - 1 && nextPid == old(nextPid) && cur == (old(cur) + 1) % top
        && tasks == Switched(Exited(old(tasks), old(cur), code), old(cur), cur)
        && LeftBehind(old(tasks), old(cur), tasks, cur, code)
    {
      hide *;
      OsParts(this);
      FirstTask(tasks, cur, top, nextPid);
      if tasks[cur].pid == 0 {
        return Stopped;
      }
      ghost var tasks0, cur0 := tasks, cur;
      tasks := tasks[cur := tasks[cur].(exitCode := code, state := Zombie)];
      AdoptChildren(cur);
      top := top - 1;
      ExitKeeps(tasks0, cur, top + 1, nextPid, code);
      ExitedAlive(tasks0, cur, top + 1, nextPid, code);
      var switched := DoYield();
      if switched {
        ExitDone(m.mem, m.loc, tasks0, trampoline, kroot, cur0, cur, code);
        ExitLeaves(tasks0, cur0, cur, code);
        OsValid(this);
        r := Ok;
      } else {
        r := Stopped;
      }
    }

    /** child_proc_mv. */
    method AdoptChildren(p: nat)
      modifies `tasks
      ensures tasks == Adopted(old(tasks), p)
    {
      var i := 0;
      while i < |tasks|
        invariant 0 <= i <= |tasks| == |old(tasks)|
        invariant forall j | 0 <= j < i :: tasks[j] == Adopted(old(tasks), p)[j]
        invariant forall j | i <= j < |tasks| :: tasks[j] == old(tasks)[j]
      {
        if tasks[i].parent == Some(p) {
          tasks := tasks[i := tasks[i].(parent := Some(0))];
        }
        i := i + 1;
      }
    }

    /** The search loop of __sys_recycle. */
    method FindZombie() returns (slot: Option<nat>, haveChild: bool)
      ensures slot.Some? ==>
        && slot.value < |tasks| && tasks[slot.value].parent == Some(cur) && tasks[slot.value].state.Zombie?
        && forall s | 0 <= s < slot.value :: !(tasks[s].parent == Some(cur) && tasks[s].state.Zombie?)
      ensures slot.None? ==> forall s | 0 <= s < |tasks| :: !(tasks[s].parent == Some(cur) && tasks[s].state.Zombie?)
      ensures slot.None? ==> (haveChild <==> exists s :: 0 <= s < |tasks| && tasks[s].parent == Some(cur))
    {
      haveChild := false;
      var s := 0;
      while s < |tasks|
        invariant 0 <= s <= |tasks|
        invariant forall j | 0 <= j < s :: !(tasks[j].parent == Some(cur) && tasks[j].state.Zombie?)
        invariant haveChild <==> exists j :: 0 <= j < s && tasks[j].parent == Some(cur)
      {
        if tasks[s].parent == Some(cur) {
          haveChild := true;
          if tasks[s].state.Zombie? {
            return Some(s), true;
          }
        }
        s := s + 1;
      }
      slot := None;
    }

    /** One round of __sys_recycle: a zombie child is freed with all its frames; without one the
        call fails if there are no children at all, and otherwise yields before the next round. */
    method DoRecycle() returns (r: Outcome, ghost child: nat)
      requires Valid()
      modifies this, m
      ensures r == Failed || r == MustWait || r.Pid?
      ensures Valid() && top == old(top) && nextPid == old(nextPid)
      ensures r.Pid? ==>
        && cur == old(cur) && child < |old(tasks)| && old(tasks)[child].parent == Some(cur)
        && old(tasks)[child].state.Zombie?
        && r.pid == old(tasks)[child].pid && tasks == old(tasks)[child := Blank(old(tasks)[child])]
        && Blank(old(tasks)[child]) == Task(UnInit, r.pid, None, 0, 0, old(tasks)[child].kstack, 0, 0, 0, 0)
        && m.loc == Without(old(m.loc), old(tasks)[child].root, true, child)
        && Kept(old(m.mem), m.mem, m.loc)
        && forall s | 0 <= s < child :: !(old(tasks)[s].parent == Some(cur) && old(tasks)[s].state.Zombie?)
      ensures !r.Pid? ==>
        && (forall s | 0 <= s < |old(tasks)| ::
              !(old(tasks)[s].parent == Some(old(cur)) && old(tasks)[s].state.Zombie?))
        && m.mem == old(m.mem) && m.loc == old(m.loc)
        && (r == Failed <==> forall s | 0 <= s < |old(tasks)| :: old(tasks)[s].parent != Some(old(cur)))
      ensures r == Failed ==> tasks == old(tasks) && cur == old(cur)
      ensures r == MustWait ==>
        && 0 < top <= |old(tasks)| && old(cur) < |old(tasks)| && cur == YieldTo(old(tasks), top, old(cur))
        && tasks == if Alive(old(tasks)[(old(cur) + 1) % top]) then Switched(old(tasks), old(cur), cur) else old(tasks)
    {
      hide *;
      OsParts(this);
      child := 0;
      var slot, haveChild := FindZombie();
      if slot.None? {
        if !haveChild {
          return Failed, 0;
        }
        ghost var tasks0, cur0 := tasks, cur;
        var switched := DoYield();
        if switched {
          YieldDone(m.mem, m.loc, tasks0, trampoline, kroot, cur0, cur);
        }
        OsValid(this);
        return MustWait, 0;
      }
      var c := slot.value;
      child := c;
      var t := tasks[c];
      ghost var mem0, loc0 := m.mem, m.loc;
      TaskReady(m.mem, m.loc, tasks, trampoline, kroot, c);
      var freed := DestroySpace(m, t.root, t.base / 4096, true, t.trap, trampoline, c);
      MachineParts(m);
      ReapKeepsOwned(mem0, loc0, m.mem, tasks, trampoline, kroot, c, Blank(t));
      ReapKeeps(tasks, cur, top, nextPid, c, Blank(t));
      BlankFields(t);
      tasks := tasks[c := Blank(t)];
      OsValid(this);
      r := Pid(t.pid);
    }

    /** A store by user code goes through the task's own page table and needs the U, W and R bits: it
        can only change a page of the task itself. */
    method DoStore(vpn: nat, index: nat, w: Word) returns (r: Outcome)
      requires Valid() && index < ENTRIES
      modifies m
      ensures Valid() && (r == Ok || r == Failed) && m.loc == old(m.loc) && m.recycled == old(m.recycled)
      ensures PlanOk(old(m.mem), m.loc)
      ensures r == Ok <==>
        && vpn < VPN_END && IsValid(Leaf(old(m.mem), m.loc, tasks[cur].root, vpn))
        && UserWritable(Leaf(old(m.mem), m.loc, tasks[cur].root, vpn))
      ensures r == Failed ==> m.mem == old(m.mem)
      ensures r == Ok ==>
        var page := Page(tasks[cur].root, vpn);
        && page in m.loc && m.loc[page] < |old(m.mem)| && m.mem == old(m.mem)[m.loc[page] := m.mem[m.loc[page]]]
        && WordSet(m.mem[m.loc[page]], old(m.mem)[m.loc[page]], index, w)
      ensures Uniform(old(m.mem)) && Uniform(m.mem)
      ensures r == Ok <==>
        && vpn < VPN_END && May(old(m.mem), tasks[cur].root, 4096 * vpn, 2)
        && May(old(m.mem), tasks[cur].root, 4096 * vpn, 4)
      ensures r == Ok ==> Fetch(m.mem, tasks[cur].root, 4096 * vpn + 8 * index) == Some(w)
    {
      hide *;
      OsParts(this);
      TaskReady(m.mem, m.loc, tasks, trampoline, kroot, cur);
      var root := tasks[cur].root;
      ShapeUniform(m.mem, m.loc);
      if vpn >= VPN_END {
        return Failed;
      }
      MayStore(m.mem, m.loc, root, vpn);
      var c := m.FindPte(root, vpn);
      if c.None? {
        return Failed;
      }
      LeafPlace(m.mem, m.loc, root, vpn);
      var e := m.mem[c.value.frame][c.value.index];
      if !(UserWritable(e)) {
        return Failed;
      }
      OwnPage(m.mem, m.loc, root, tasks[cur].base / 4096, tasks[cur].trap, trampoline, vpn);
      OtherPurpose(m.mem, m.loc, Page(root, vpn));
      var data: Frame := m.mem[PtePpn(e)];
      data := data[index := w];
      WordIsSet(data, m.mem[PtePpn(e)], index, w);
      WriteKeepsOwned(m.mem, m.loc, tasks, trampoline, kroot, PtePpn(e), data);
      m.Overwrite(PtePpn(e), data);
      OsValid(this);
      StoreSeen(m.mem, m.loc, tasks, trampoline, kroot, cur, vpn, index);
      r := Ok;
    }

    /** One round of __sys_getchar: without a character it yields; with one it writes the byte wherever
        the task's page table leads, without a look at the task's permissions: to a page of the task
        or to its trap page. At an unmapped address, and at the trampoline, which the kernel's own
        table maps without write permission, the kernel faults and stops. */
    method DoGetChar(stdin: bool, ready: bool, uptr: Word, c: nat) returns (r: Outcome)
      requires Valid() && c < 256
      modifies this, m
      ensures r == Ok || r == MustWait || r == Stopped
      ensures Valid() && m.loc == old(m.loc) && m.recycled == old(m.recycled) && top == old(top)
      ensures nextPid == old(nextPid)
      ensures PlanOk(old(m.mem), m.loc) && |old(tasks)| > old(cur)
      ensures r == Stopped <==>
        && stdin && ready
        && (!IsValid(Leaf(old(m.mem), m.loc, old(tasks)[old(cur)].root, UserPage(uptr)))
            || UserPage(uptr) == TRAMPOLINE_VPN)
      ensures r == MustWait <==> stdin && !ready
      ensures r == MustWait ==>
        && 0 < top <= |old(tasks)| && cur == YieldTo(old(tasks), top, old(cur)) && m.mem == old(m.mem)
        && tasks == if Alive(old(tasks)[(old(cur) + 1) % top]) then Switched(old(tasks), old(cur), cur) else old(tasks)
      ensures r != MustWait ==> cur == old(cur) && tasks == old(tasks)
      ensures r == Stopped || (r == Ok && !stdin) ==> m.mem == old(m.mem)
      ensures r == Ok && stdin ==>
        var f := PtePpn(Leaf(old(m.mem), m.loc, tasks[cur].root, UserPage(uptr)));
        && Target(m.loc, tasks[cur], cur, UserPage(uptr), f)
        && f < |old(m.mem)| && |old(m.mem)[f]| == ENTRIES
        && m.mem == old(m.mem)[f := BytePatched(old(m.mem)[f], uptr % 4096, c)]
        && |m.mem[f]| == ENTRIES && ByteSet(m.mem[f], old(m.mem)[f], uptr % 4096, c)
        && Uniform(m.mem) && Fetch(m.mem, tasks[cur].root, uptr % VA_END) == Some(m.mem[f][uptr % 4096 / 8])
    {
      hide *;
      OsParts(this);
      TaskReady(m.mem, m.loc, tasks, trampoline, kroot, cur);
      if !stdin {
        return Ok;
      }
      if !ready {
        YieldStep();
        return MustWait;
      }
      PageNumber(uptr);
      var root, vpn := tasks[cur].root, UserPage(uptr);
      var cell := m.FindPte(root, vpn);
      if cell.None? || vpn == TRAMPOLINE_VPN {
        return Stopped;
      }
      LeafPlace(m.mem, m.loc, root, vpn);
      var f := PtePpn(m.mem[cell.value.frame][cell.value.index]);
      TargetFrame(m, tasks, trampoline, kroot, cur, vpn);
      InMemory(m);
      var data := BytePatched(m.mem[f], uptr % 4096, c);
      BytePatchedSets(m.mem[f], uptr % 4096, c);
      WriteKeepsOwned(m.mem, m.loc, tasks, trampoline, kroot, f, data);
      m.Overwrite(f, data);
      OsValid(this);
      SeenThrough(m.mem, m.loc, tasks, trampoline, kroot, cur, uptr % VA_END, f);
      r := Ok;
    }

    /** Trap entry saves the registers of the current task in words 1 to 33 of its trap page, and the
        handler moves the saved program counter and stores the result of a call there. */
    method DoSave(page: Frame)
      requires Valid() && |page| == ENTRIES
      modifies m
      ensures Valid() && m.loc == old(m.loc) && m.recycled == old(m.recycled)
      ensures Trap(cur) in m.loc && cur < |tasks| && tasks[cur].trap == m.loc[Trap(cur)]
      ensures tasks[cur].trap < |old(m.mem)| && m.mem == old(m.mem)[tasks[cur].trap := m.mem[tasks[cur].trap]]
      ensures Saved(m.mem[tasks[cur].trap], old(m.mem)[tasks[cur].trap], page)
    {
      hide *;
      OsParts(this);
      TaskReady(m.mem, m.loc, tasks, trampoline, kroot, cur);
      OtherPurpose(m.mem, m.loc, Trap(cur));
      PageWords();
      var before: Frame := m.mem[tasks[cur].trap];
      var data: Frame := before[..1] + page[1..34] + before[34..];
      SavedWords(data, before, page);
      WriteKeepsOwned(m.mem, m.loc, tasks, trampoline, kroot, tasks[cur].trap, data);
      m.Overwrite(tasks[cur].trap, data);
      OsValid(this);
    }

    /** Whatever happens next, the invariant holds or the kernel has stopped; only fork and a recycle
        that frees a child change anything outside the caller's own memory, and no other task notices
        anything; and every task keeps entering the kernel on its own stack, unless a character is
        written over those words. */
    method Step(call: Call) returns (r: Outcome)
      requires Valid() && CallOk(call)
      modifies this, m
      ensures r != Stopped ==> Valid()
      ensures r != Stopped && !(call.Fork? && r.Pid?) && !(call.Recycle? && r.Pid?) ==>
        && Outside(old(m.mem), old(m.loc), old(tasks), m.mem, m.loc, tasks, old(cur))
        && (!call.Exec? ==> m.loc == old(m.loc))
        && (!call.Exec? && !call.Store? && !call.Save? && !(call.GetChar? && r == Ok) ==> m.mem == old(m.mem))
      ensures r != Stopped ==> Unnoticed(old(m.mem), old(tasks), m.mem, tasks, old(cur))
      ensures r != Stopped ==> StacksStay(old(tasks), tasks)
      ensures r != Stopped && Spares(call) ==> WordsKept(old(m.mem), old(tasks), m.mem, tasks)
    {
      hide *;
      CallParts(call);
      OsParts(this);
      match call {
        case Yield =>
          SlotInUse(this);
          YieldStep();
          YieldedOutside(m.mem, m.loc, old(tasks), top, old(cur), cur, tasks);
          r := Ok;
        case Fork =>
          r := ForkStep();
        case Exec(segs, entry) =>
          r := ExecStep(segs, entry);
        case Exit(code) =>
          r := ExitStep(code);
        case Recycle =>
          r := RecycleStep();
        case GetChar(stdin, ready, uptr, c) =>
          r := GetCharStep(stdin, ready, uptr, c);
        case Store(vpn, index, w) =>
          r := StoreStep(vpn, index, w);
        case Save(page) =>
          SaveStep(page);
          r := Ok;
      }
      if r != Stopped {
        OsParts(this);
        if !(call.Fork? && r.Pid?) && !(call.Recycle? && r.Pid?) {
          OutsideUnnoticed(old(m.mem), old(m.loc), old(tasks), m.mem, m.loc, tasks, trampoline, kroot, old(cur));
        }
      }
    }

    method ForkStep() returns (r: Outcome)
      requires Valid()
      modifies this, m
      ensures r != Stopped ==> Valid()
      ensures r != Stopped && !r.Pid? ==>
        Outside(old(m.mem), old(m.loc), old(tasks), m.mem, m.loc, tasks,
                old(cur)) && m.loc == old(m.loc) && m.mem == old(m.mem)
      ensures r != Stopped ==> WordsKept(old(m.mem), old(tasks), m.mem, tasks)
      ensures r.Pid? ==> Unnoticed(old(m.mem), old(tasks), m.mem, tasks, old(cur))
    {
      hide *;
      OsParts(this);
      SlotInUse(this);
      SameOutside(m.mem, m.loc, tasks, cur);
      WordsReflexive(m.mem, tasks);
      ghost var child;
      r, child := DoFork();
      if r.Pid? {
        OsParts(this);
        ForkUnnoticed(old(m.mem), old(m.loc), old(tasks), trampoline, kroot, cur, m.mem, m.loc, tasks, child);
        ForkedWords(old(m.mem), old(m.loc), old(tasks), trampoline, kroot, cur, m.mem, m.loc, tasks, child);
      }
    }

    method ExitStep(code: Word) returns (r: Outcome)
      requires Valid()
      modifies this
      ensures r == Stopped || r == Ok
      ensures r == Ok ==> Valid() && Outside(m.mem, m.loc, old(tasks), m.mem, m.loc, tasks, old(cur))
      ensures r == Ok ==> WordsKept(m.mem, old(tasks), m.mem, tasks)
    {
      hide *;
      OsParts(this);
      SlotInUse(this);
      r := DoExit(code);
      if r == Ok {
        SlotInUse(this);
        ExitedOutside(m.mem, m.loc, old(tasks), old(cur), cur, code);
        ExitedWords(m.mem, m.loc, old(tasks), trampoline, kroot, old(cur), cur, code);
      }
    }

    method RecycleStep() returns (r: Outcome)
      requires Valid()
      modifies this, m
      ensures r != Stopped && Valid()
      ensures !r.Pid? ==>
        Outside(old(m.mem), old(m.loc), old(tasks), m.mem, m.loc, tasks,
                old(cur)) && m.loc == old(m.loc) && m.mem == old(m.mem)
      ensures WordsKept(old(m.mem), old(tasks), m.mem, tasks)
      ensures r.Pid? ==> Unnoticed(old(m.mem), old(tasks), m.mem, tasks, old(cur))
    {
      hide *;
      OsParts(this);
      SlotInUse(this);
      SameOutside(m.mem, m.loc, tasks, cur);
      WordsReflexive(m.mem, tasks);
      ghost var child;
      r, child := DoRecycle();
      OsParts(this);
      if r == MustWait {
        YieldedOutside(m.mem, m.loc, old(tasks), top, old(cur), cur, tasks);
        YieldedWords(m.mem, m.loc, old(tasks), trampoline, kroot, top, old(cur), cur, tasks);
      } else if r.Pid? {
        BlankKeepsStack(old(tasks)[child]);
        ReapedWords(old(m.mem), old(m.loc), m.mem, m.loc, old(tasks), trampoline, kroot, child);
        ReapUnnoticed(old(m.mem), old(m.loc), m.mem, m.loc, old(tasks), trampoline, kroot, old(cur), child);
      }
    }

    method StoreStep(vpn: nat, index: nat, w: Word) returns (r: Outcome)
      requires Valid() && index < ENTRIES
      modifies m
      ensures r != Stopped && Valid() && m.loc == old(m.loc)
      ensures Outside(old(m.mem), old(m.loc), tasks, m.mem, m.loc, tasks, cur)
      ensures WordsKept(old(m.mem), tasks, m.mem, tasks)
    {
      hide *;
      OsParts(this);
      SlotInUse(this);
      SameOutside(m.mem, m.loc, tasks, cur);
      WordsReflexive(m.mem, tasks);
      r := DoStore(vpn, index, w);
      if r == Ok {
        OwnTag(tasks[cur].root, vpn);
        ghost var f := m.loc[Page(tasks[cur].root, vpn)];
        NoTrapPage(old(m.mem), m.loc, tasks, trampoline, kroot, tasks[cur].root, vpn);
        SetLength(m.mem[f], old(m.mem)[f], index, w);
        WriteKeepsWords(old(m.mem), m.loc, tasks, trampoline, kroot, f, m.mem[f]);
        WrittenOutside(old(m.mem), m.loc, tasks, cur, Page(tasks[cur].root, vpn), m.mem);
      }
    }

    method SaveStep(page: Frame)
      requires Valid() && |page| == ENTRIES
      modifies m
      ensures Valid() && m.loc == old(m.loc)
      ensures Outside(old(m.mem), old(m.loc), tasks, m.mem, m.loc, tasks, cur)
      ensures WordsKept(old(m.mem), tasks, m.mem, tasks)
    {
      hide *;
      OsParts(this);
      SlotInUse(this);
      MachineParts(m);
      DoSave(page);
      WrittenOutside(old(m.mem), m.loc, tasks, cur, Trap(cur), m.mem);
      ghost var f := tasks[cur].trap;
      SavedSpares(m.mem[f], old(m.mem)[f], page);
      WriteKeepsWords(old(m.mem), m.loc, tasks, trampoline, kroot, f, m.mem[f]);
    }

    method ExecStep(segs: seq<Segment>, entry: Word) returns (r: Outcome)
      requires Valid() && CallOk(Exec(segs, entry))
      modifies this, m
      ensures r == Stopped || r == Ok
      ensures r == Ok ==> Valid() && Outside(old(m.mem), old(m.loc), old(tasks), m.mem, m.loc, tasks, old(cur))
      ensures r == Ok ==> WordsKept(old(m.mem), old(tasks), m.mem, tasks)
    {
      hide *;
      OsParts(this);
      SlotInUse(this);
      ExecOk(segs, entry, tasks[cur].ustack);
      r := DoExec(segs, entry);
      if r == Ok {
        ExecOutside(old(m.mem), old(m.loc), old(tasks), m.mem, m.loc, tasks, cur);
        ExecKeepsWords(old(m.mem), old(m.loc), m.mem, m.loc, old(tasks), trampoline, kroot, cur, tasks[cur], entry,
                       tasks[cur].base);
      }
    }

    method GetCharStep(stdin: bool, ready: bool, uptr: Word, c: nat) returns (r: Outcome)
      requires Valid() && c < 256
      modifies this, m
      ensures Valid() && m.loc == old(m.loc) && (r != Ok ==> m.mem == old(m.mem))
      ensures r == Ok || r == MustWait || r == Stopped
      ensures r != Stopped ==> Outside(old(m.mem), old(m.loc), old(tasks), m.mem, m.loc, tasks, old(cur))
      ensures StacksStay(old(tasks), tasks)
      ensures r != Stopped && Spares(GetChar(stdin, ready, uptr, c)) ==> WordsKept(old(m.mem), old(tasks), m.mem, tasks)
    {
      hide *;
      OsParts(this);
      ghost var vpn := UserPage(uptr);
      r := DoGetChar(stdin, ready, uptr, c);
      OsParts(this);
      SameOutside(old(m.mem), old(m.loc), old(tasks), old(cur));
      WordsReflexive(old(m.mem), old(tasks));
      if r == MustWait {
        YieldedOutside(m.mem, m.loc, old(tasks), top, old(cur), cur, tasks);
        YieldedWords(m.mem, m.loc, old(tasks), trampoline, kroot, top, old(cur), cur, tasks);
      }
      if r == Ok && stdin {
        ghost var f := PtePpn(Leaf(old(m.mem), m.loc, tasks[cur].root, vpn));
        TargetOutside(m, old(m.mem), tasks, cur, vpn, f);
        if Spares(GetChar(stdin, ready, uptr, c)) {
          CharKeepsWords(old(m.mem), m.loc, tasks, trampoline, kroot, cur, f, stdin, ready, uptr, c);
        }
      }
    }

    method YieldStep()
      requires Valid()
      modifies `tasks, `cur
      ensures Valid() && 0 < top <= |old(tasks)| && old(cur) < |old(tasks)|
      ensures cur == YieldTo(old(tasks), top, old(cur))
      ensures tasks ==
        if Alive(old(tasks)[(old(cur) + 1) % top]) then Switched(old(tasks), old(cur), cur) else old(tasks)
      ensures WordsKept(m.mem, old(tasks), m.mem, tasks)
    {
      hide *;
      OsParts(this);
      ghost var tasks0, cur0 := tasks, cur;
      var switched := DoYield();
      if switched {
        YieldDone(m.mem, m.loc, tasks0, trampoline, kroot, cur0, cur);
      }
      YieldedWords(m.mem, m.loc, tasks0, trampoline, kroot, top, cur0, cur, tasks);
      OsValid(this);
    }

    /** Every run: after any sequence of calls, interrupts and user stores the kernel has either
        stopped or satisfies the invariant, and its tasks are isolated from each other. Unless a
        character was written over them, the words every task enters the kernel by are in order. */
    method Run(calls: seq<Call>) returns (running: bool)
      requires Valid() && forall i | 0 <= i < |calls| :: CallOk(calls[i])
      modifies this, m
      ensures running ==> Valid() && Uniform(m.mem) && Isolated(m.mem, m.recycled, m.loc, tasks, trampoline, kroot)
      ensures running ==> StacksStay(old(tasks), tasks)
      ensures running && (forall i | 0 <= i < |calls| :: Spares(calls[i])) ==>
        WordsKept(old(m.mem), old(tasks), m.mem, tasks)
    {
      hide *;
      var i := 0;
      WordsReflexive(m.mem, tasks);
      while i < |calls|
        invariant 0 <= i <= |calls| && Valid() && StacksStay(old(tasks), tasks)
        invariant (forall j | 0 <= j < i :: Spares(calls[j])) ==> WordsKept(old(m.mem), old(tasks), m.mem, tasks)
      {
        ghost var mem1, tasks1 := m.mem, tasks;
        var r := Step(calls[i]);
        if r == Stopped {
          return false;
        }
        StacksTransitive(old(tasks), tasks1, tasks);
        if forall j | 0 <= j <= i :: Spares(calls[j]) {
          WordsTransitive(old(m.mem), old(tasks), mem1, tasks1, m.mem, tasks);
        }
        i := i + 1;
      }
      ValidIsolates(this);
      running := true;
    }
  }

  /** Slot s apart, every frame serves what it served with the contents it had, and every task is who it
      was. */
  ghost predicate Outside(mem0: Memory, loc0: Plan, tasks0: seq<Task>, mem: Memory, loc: Plan, tasks: seq<Task>,
                          s: nat) {
    && |tasks| == |tasks0| && s < |tasks|
    && Without(loc, tasks[s].root, true, s) == Without(loc0, tasks0[s].root, true, s)
    && Kept(mem0, mem, Without(loc, tasks[s].root, true, s))
    && forall q | 0 <= q < |tasks| ::
         && tasks[q].state.UnInit? == tasks0[q].state.UnInit? && tasks[q].pid == tasks0[q].pid
         && (q != s ==> tasks[q].root == tasks0[q].root)
  }

  /** The memory of a task other than s and what it sees are as before. */
  lemma OutsideUnnoticed(mem0: Memory, loc0: Plan, tasks0: seq<Task>, mem: Memory, loc: Plan, tasks: seq<Task>,
                         trampoline: nat, kroot: nat, s: nat)
    requires Owned(mem0, loc0, tasks0, trampoline, kroot) && Owned(mem, loc, tasks, trampoline, kroot)
    requires Outside(mem0, loc0, tasks0, mem, loc, tasks, s) && s < |tasks0| && !tasks0[s].state.UnInit?
    ensures Unnoticed(mem0, tasks0, mem, tasks, s)
  {
    hide SeesSame, Shape, Space, HasHolder, PlanOk;
    forall q | 0 <= q < |tasks| && q != s && !tasks0[q].state.UnInit? && !tasks[q].state.UnInit?
      ensures SeesSame(mem0, tasks0[q].root, mem, tasks[q].root)
    {
      assert TaskMemory(mem0, loc0, tasks0[q], q, trampoline, kroot);
      var w, w0 := Without(loc, tasks[s].root, true, s), Without(loc0, tasks0[s].root, true, s);
      assert tasks0[q].root != tasks0[s].root && tasks[q].root != tasks[s].root;
      assert Trap(q) in w0 && w0[Trap(q)] == loc0[Trap(q)] && Trap(q) in w && loc[Trap(q)] == w[Trap(q)];
      PlaceInRange(mem0, loc0, Trap(q));
      OutsideSame(mem0, loc0, mem, loc, tasks0[s].root, tasks[s].root, s, tasks[q].root);
      ViewKept(mem0, loc0, mem, loc, tasks0[q], q, trampoline, kroot);
    }
  }

  lemma OutsideSame(mem0: Memory, loc0: Plan, mem: Memory, loc: Plan, gone: nat, came: nat, s: nat, root: nat)
    requires PlanOk(mem0, loc0) && PlanOk(mem, loc) && root != gone && root != came
    requires Without(loc, came, true, s) == Without(loc0, gone, true, s) && Kept(mem0, mem, Without(loc, came, true, s))
    ensures SameSpace(mem0, loc0, mem, loc, root)
  {
    hide Injective, TagOk, Uniform;
    var w, w0 := Without(loc, came, true, s), Without(loc0, gone, true, s);
    forall t | Mine(t, root)
      ensures t in loc <==> t in loc0
      ensures t in loc && t in loc0 ==> loc[t] == loc0[t] && mem[loc[t]] == mem0[loc0[t]]
    {
      assert t in w <==> t in loc;
      assert t in w0 <==> t in loc0;
    }
  }

  lemma ForkUnnoticed(mem0: Memory, loc0: Plan, tasks0: seq<Task>, trampoline: nat, kroot: nat, cur: nat, mem: Memory,
                      loc: Plan, tasks: seq<Task>, c: nat)
    requires Owned(mem0, loc0, tasks0, trampoline, kroot) && Owned(mem, loc, tasks, trampoline, kroot)
    requires Forked(mem0, loc0, tasks0, cur, mem, loc, tasks, c)
    ensures Unnoticed(mem0, tasks0, mem, tasks, cur)
  {
    hide SeesSame, Shape, Space, HasHolder, PlanOk, Copied, ChildRegisters;
    forall q | 0 <= q < |tasks| && q != cur && !tasks0[q].state.UnInit? && !tasks[q].state.UnInit?
      ensures SeesSame(mem0, tasks0[q].root, mem, tasks[q].root)
    {
      assert TaskMemory(mem0, loc0, tasks0[q], q, trampoline, kroot);
      RootsDiffer(mem0, loc0, mem, loc, tasks0[q].root, tasks[c].root, c);
      assert !Mine(Trap(q), tasks[c].root);
      PlaceInRange(mem0, loc0, Trap(q));
      ViewKept(mem0, loc0, mem, loc, tasks0[q], q, trampoline, kroot);
    }
  }

  lemma ReapUnnoticed(mem0: Memory, loc0: Plan, mem: Memory, loc: Plan, tasks: seq<Task>, trampoline: nat, kroot: nat,
                      s: nat, c: nat)
    requires Owned(mem0, loc0, tasks, trampoline, kroot) && c < |tasks| && !tasks[c].state.UnInit?
    requires loc == Without(loc0, tasks[c].root, true, c) && Kept(mem0, mem, loc)
    requires Owned(mem, loc, tasks[c := Blank(tasks[c])], trampoline, kroot)
    ensures Unnoticed(mem0, tasks, mem, tasks[c := Blank(tasks[c])], s)
  {
    hide SeesSame, Shape, Space, HasHolder, PlanOk;
    var tasks' := tasks[c := Blank(tasks[c])];
    forall q | 0 <= q < |tasks'| && q != s && !tasks[q].state.UnInit? && !tasks'[q].state.UnInit?
      ensures SeesSame(mem0, tasks[q].root, mem, tasks'[q].root)
    {
      assert TaskMemory(mem0, loc0, tasks[q], q, trampoline, kroot);
      assert Trap(q) in loc && tasks[q].root != tasks[c].root;
      PlaceInRange(mem0, loc0, Trap(q));
      WithoutSame(mem0, loc0, mem, tasks[c].root, true, c, tasks[q].root);
      ViewKept(mem0, loc0, mem, loc, tasks[q], q, trampoline, kroot);
    }
  }

  /** No character goes to words 34 to 36 of a trap page. */
  predicate Spares(call: Call) {
    call.GetChar? ==> UserPage(call.uptr) != TRAP_VPN || !(34 <= call.uptr % 4096 / 8 <= 36)
  }

  lemma YieldedWords(mem: Memory, loc: Plan, tasks: seq<Task>, trampoline: nat, kroot: nat, top: nat, s: nat, next: nat,
                     tasks': seq<Task>)
    requires Owned(mem, loc, tasks, trampoline, kroot) && 0 < top <= |tasks| && s < |tasks|
    requires next == YieldTo(tasks, top, s)
    requires tasks' == if Alive(tasks[(s + 1) % top]) then Switched(tasks, s, next) else tasks
    ensures WordsKept(mem, tasks, mem, tasks')
  {
    hide Owned;
    FieldsKeepWords(mem, loc, tasks, tasks', trampoline, kroot);
  }

  lemma ExitedWords(mem: Memory, loc: Plan, tasks: seq<Task>, trampoline: nat, kroot: nat, s: nat, next: nat,
                    code: Word)
    requires Owned(mem, loc, tasks, trampoline, kroot) && s < |tasks| && next < |tasks|
    requires next != s && !tasks[s].state.UnInit? && Alive(tasks[next])
    ensures WordsKept(mem, tasks, mem, Switched(Exited(tasks, s, code), s, next))
  {
    hide Owned;
    FieldsKeepWords(mem, loc, tasks, Switched(Exited(tasks, s, code), s, next), trampoline, kroot);
  }

  lemma ForkedWords(mem0: Memory, loc0: Plan, tasks0: seq<Task>, trampoline: nat, kroot: nat, cur: nat, mem: Memory,
                    loc: Plan, tasks: seq<Task>, c: nat)
    requires Owned(mem0, loc0, tasks0, trampoline, kroot) && cur < |tasks0| && !tasks0[cur].state.UnInit?
    requires Forked(mem0, loc0, tasks0, cur, mem, loc, tasks, c)
    ensures WordsKept(mem0, tasks0, mem, tasks)
  {
    hide Owned, Spawned, Copied, ChildRegisters;
    ForkKeepsWords(mem0, loc0, mem, loc, tasks0, trampoline, kroot, cur, c, tasks[c]);
  }

  lemma BlankFields(t: Task)
    ensures Blank(t) == Task(UnInit, t.pid, None, 0, 0, t.kstack, 0, 0, 0, 0)
  {
  }

  lemma BlankKeepsStack(t: Task)
    ensures Blank(t).kstack == t.kstack && Blank(t).state.UnInit?
  {
  }

  lemma ReapedWords(mem0: Memory, loc0: Plan, mem: Memory, loc: Plan, tasks: seq<Task>, trampoline: nat, kroot: nat,
                    c: nat)
    requires Owned(mem0, loc0, tasks, trampoline, kroot) && c < |tasks|
    requires loc == Without(loc0, tasks[c].root, true, c) && Kept(mem0, mem, loc)
    ensures WordsKept(mem0, tasks, mem, tasks[c := Blank(tasks[c])])
  {
    hide Owned, Kept;
    ReapKeepsWords(mem0, loc0, mem, tasks, trampoline, kroot, c, Blank(tasks[c]));
  }

  lemma SetLength(after: Frame, before: Frame, index: nat, w: Word)
    requires WordSet(after, before, index, w)
    ensures |after| == |before| == ENTRIES
  {
  }

  lemma SavedSpares(after: Frame, before: Frame, page: Frame)
    requires Saved(after, before, page)
    ensures |after| == |before| == ENTRIES == 512 && after[34..37] == before[34..37]
  {
  }

  lemma CharKeepsWords(mem: Memory, loc: Plan, tasks: seq<Task>, trampoline: nat, kroot: nat, s: nat, f: nat,
                       stdin: bool, ready: bool, uptr: Word, c: nat)
    requires Owned(mem, loc, tasks, trampoline, kroot) && s < |tasks| && Target(loc, tasks[s], s, UserPage(uptr), f)
    requires f < |mem| && |mem[f]| == ENTRIES && c < 256 && Spares(GetChar(stdin, ready, uptr, c))
    ensures WordsKept(mem, tasks, mem[f := BytePatched(mem[f], uptr % 4096, c)], tasks)
  {
    hide Owned, PutByte;
    var data := BytePatched(mem[f], uptr % 4096, c);
    if UserPage(uptr) == TRAP_VPN {
      assert data[34..37] == mem[f][34..37];
    } else {
      NoTrapPage(mem, loc, tasks, trampoline, kroot, tasks[s].root, UserPage(uptr));
    }
    WriteKeepsWords(mem, loc, tasks, trampoline, kroot, f, data);
  }

  /** A character that does go there and is not the byte that was there breaks them. */
  lemma CharBreaksWords(mem: Memory, loc: Plan, tasks: seq<Task>, s: nat, f: nat, uptr: Word, c: nat, satp: Word,
                        handler: Word)
    requires s < |tasks| && !tasks[s].state.UnInit? && Target(loc, tasks[s], s, UserPage(uptr), f) && c < 256
    requires UserPage(uptr) == TRAP_VPN && 34 <= uptr % 4096 / 8 <= 36
    requires f < |mem| && |mem[f]| == ENTRIES && ByteOf(mem[f], uptr % 4096) != c
    requires KernelWords(mem, tasks, satp, handler)
    ensures !KernelWords(mem[f := BytePatched(mem[f], uptr % 4096, c)], tasks, satp, handler)
  {
    var offset := uptr % 4096;
    var data := BytePatched(mem[f], offset, c);
    BytePatchedSets(mem[f], offset, c);
    hide PutByte, BytePatched;
    assert ByteOf(data, offset) == c;
    assert data[offset / 8] != mem[f][offset / 8];
    assert mem[f := data][f] == data && tasks[s].trap == f;
  }

  lemma SlotInUse(os: Os)
    requires os.Valid()
    ensures os.m.Valid() && os.cur < |os.tasks| && !os.tasks[os.cur].state.UnInit?
  {
  }

  lemma OwnTag(root: nat, vpn: nat)
    ensures Mine(Page(root, vpn), root)
  {
  }

  lemma SameOutside(mem: Memory, loc: Plan, tasks: seq<Task>, s: nat)
    requires s < |tasks|
    ensures Outside(mem, loc, tasks, mem, loc, tasks, s)
  {
  }

  lemma SwitchedOutside(mem: Memory, loc: Plan, tasks: seq<Task>, s: nat, next: nat)
    requires s < |tasks| && next < |tasks|
    ensures Alive(tasks[next]) ==> Outside(mem, loc, tasks, mem, loc, Switched(tasks, s, next), s)
  {
  }

  lemma YieldedOutside(mem: Memory, loc: Plan, tasks: seq<Task>, top: nat, s: nat, next: nat, tasks': seq<Task>)
    requires 0 < top <= |tasks| && s < |tasks| && next == YieldTo(tasks, top, s)
    requires tasks' == if Alive(tasks[(s + 1) % top]) then Switched(tasks, s, next) else tasks
    ensures Outside(mem, loc, tasks, mem, loc, tasks', s)
  {
    if Alive(tasks[(s + 1) % top]) {
      SwitchedOutside(mem, loc, tasks, s, next);
    } else {
      SameOutside(mem, loc, tasks, s);
    }
  }

  /** The slot that takes over runs and the one before steps back if it was running, which is also
      what happens to a task that takes over from itself; nothing else changes. */
  ghost predicate HandedOver(tasks0: seq<Task>, cur0: nat, tasks: seq<Task>, cur: nat) {
    && |tasks| == |tasks0| && cur0 < |tasks| && cur < |tasks|
    && tasks[cur].state == (if cur == cur0 then Ready else Running)
    && (cur != cur0 ==> tasks[cur0].state == if tasks0[cur0].state == Running then Ready else tasks0[cur0].state)
    && forall q | 0 <= q < |tasks| ::
         && tasks[q] == tasks0[q].(state := tasks[q].state)
         && (q != cur0 && q != cur ==> tasks[q] == tasks0[q])
  }

  lemma SwitchHandsOver(tasks: seq<Task>, cur: nat, next: nat)
    requires cur < |tasks| && next < |tasks|
    ensures HandedOver(tasks, cur, Switched(tasks, cur, next), next)
  {
  }

  /** The task that exits is a zombie with its code, its children are the first task's, the next one
      runs; and no task's memory or number changes. */
  ghost predicate LeftBehind(tasks0: seq<Task>, cur0: nat, tasks: seq<Task>, cur: nat, code: Word) {
    && |tasks| == |tasks0| && cur0 < |tasks| && cur < |tasks| && cur != cur0
    && tasks[cur0].state == Zombie && tasks[cur0].exitCode == code && tasks[cur].state == Running
    && forall q | 0 <= q < |tasks| ::
         && tasks[q] == tasks0[q].(state := tasks[q].state, parent := tasks[q].parent, exitCode := tasks[q].exitCode)
         && tasks[q].parent == (if tasks0[q].parent == Some(cur0) then Some(0) else tasks0[q].parent)
         && (q != cur0 ==> tasks[q].exitCode == tasks0[q].exitCode)
         && (q != cur0 && q != cur ==> tasks[q].state == tasks0[q].state)
  }

  lemma ExitLeaves(tasks: seq<Task>, cur: nat, next: nat, code: Word)
    requires cur < |tasks| && next < |tasks| && next != cur
    ensures LeftBehind(tasks, cur, Switched(Exited(tasks, cur, code), cur, next), next, code)
  {
  }

  lemma ExitedOutside(mem: Memory, loc: Plan, tasks: seq<Task>, s: nat, next: nat, code: Word)
    requires s < |tasks| && next < |tasks| && next != s && !tasks[s].state.UnInit? && Alive(tasks[next])
    ensures Outside(mem, loc, tasks, mem, loc, Switched(Exited(tasks, s, code), s, next), s)
  {
    var tasks1 := Exited(tasks, s, code);
    forall q | 0 <= q < |tasks|
      ensures tasks1[q].state.UnInit? == tasks[q].state.UnInit? && tasks1[q].pid == tasks[q].pid
      ensures tasks1[q].root == tasks[q].root
    {
    }
  }

  lemma ExecOutside(mem0: Memory, loc0: Plan, tasks0: seq<Task>, mem: Memory, loc: Plan, tasks: seq<Task>, s: nat)
    requires s < |tasks0| == |tasks| && tasks == tasks0[s := tasks[s]]
    requires tasks[s].state == tasks0[s].state && tasks[s].pid == tasks0[s].pid
    requires OthersSame(mem0, loc0, mem, loc, tasks0[s].root, tasks[s].root, s)
    requires (forall t | t in loc :: !Mine(t, tasks0[s].root)) && forall t | t in loc0 :: !Mine(t, tasks[s].root)
    ensures Outside(mem0, loc0, tasks0, mem, loc, tasks, s)
  {
    hide PlanOk;
    var w, w0 := Without(loc, tasks[s].root, true, s), Without(loc0, tasks0[s].root, true, s);
    forall t
      ensures t in w <==> t in w0
      ensures t in w && t in w0 ==> w[t] == w0[t]
    {
    }
  }

  /** Writing a frame of the task's own touches nobody else's. */
  lemma WrittenOutside(mem0: Memory, loc: Plan, tasks: seq<Task>, s: nat, t: Tag, mem: Memory)
    requires PlanOk(mem0, loc) && s < |tasks| && t in loc && (Mine(t, tasks[s].root) || t == Trap(s))
    requires |mem| == |mem0| && forall f | 0 <= f < |mem| && f != loc[t] :: mem[f] == mem0[f]
    ensures Outside(mem0, loc, tasks, mem, loc, tasks, s)
  {
  }

  lemma TargetOutside(m: Machine, mem0: Memory, tasks: seq<Task>, s: nat, vpn: nat, f: nat)
    requires PlanOk(mem0, m.loc) && s < |tasks| && Target(m.loc, tasks[s], s, vpn, f)
    requires |m.mem| == |mem0| && forall g | 0 <= g < |m.mem| && g != f :: m.mem[g] == mem0[g]
    ensures Outside(mem0, m.loc, tasks, m.mem, m.loc, tasks, s)
  {
    var t := if vpn == TRAP_VPN then Trap(s) else Page(tasks[s].root, vpn);
    assert m.loc[t] == f;
    WrittenOutside(mem0, m.loc, tasks, s, t, m.mem);
  }

  lemma ExecOk(segs: seq<Segment>, entry: Word, before: Word)
    requires CallOk(Exec(segs, entry))
    ensures ImagesOk(segs) && Fits(segs, before)
  {
    AnyTaskFits(segs, before);
  }

  lemma ValidIsolates(os: Os)
    requires os.Valid()
    ensures Uniform(os.m.mem) && Isolated(os.m.mem, os.m.recycled, os.m.loc, os.tasks, os.trampoline, os.kroot)
  {
    hide BooksOk, Owned, Isolated, Tree;
    OwnedIsolates(os.m.Account(), os.m.mem, os.tasks, os.trampoline, os.kroot);
  }

  /** One word was written, and no other changed. */
  predicate WordSet(after: Frame, before: Frame, index: nat, w: Word) {
    && |after| == |before| == ENTRIES && index < ENTRIES
    && forall i | 0 <= i < ENTRIES :: after[i] == if i == index then w else before[i]
  }

  lemma WordIsSet(after: Frame, before: Frame, index: nat, w: Word)
    requires |before| == ENTRIES && index < ENTRIES && after == before[index := w]
    ensures WordSet(after, before, index, w) && |after| == ENTRIES
  {
  }

  /** The page of an address, cut to 39 bits. */
  function UserPage(uptr: Word): nat { uptr % VA_END / 4096 }

  lemma PageNumber(uptr: Word)
    ensures UserPage(uptr) < VPN_END && uptr % 4096 < 4096 && VA_END > 0 && uptr % VA_END < VA_END
    ensures uptr % VA_END == 4096 * UserPage(uptr) + uptr % 4096
    ensures uptr % VA_END / 4096 == UserPage(uptr) && uptr % VA_END % 4096 == uptr % 4096
  {
    var q, lo := Divide(uptr, VA_END);
    assert VA_END * q == 4096 * (VPN_END * q);
    assert lo % 4096 == uptr % 4096;
  }

  /** What the task finds at an address of a frame of its own. */
  lemma SeenThrough(mem: Memory, loc: Plan, tasks: seq<Task>, trampoline: nat, kroot: nat, s: nat, va: nat, f: nat)
    requires Owned(mem, loc, tasks, trampoline, kroot) && s < |tasks| && !tasks[s].state.UnInit?
    requires va < VA_END && va / 4096 != TRAMPOLINE_VPN && Target(loc, tasks[s], s, va / 4096, f)
    ensures Uniform(mem) && f < |mem| && |mem[f]| == ENTRIES
    ensures Fetch(mem, tasks[s].root, va) == Some(mem[f][va % 4096 / 8])
  {
    hide Shape, Leaf, Found, PtePpn;
    assert TaskMemory(mem, loc, tasks[s], s, trampoline, kroot);
    FoundIsLeaf(mem, loc, tasks[s].root, va);
    assert PageOk(mem, loc, tasks[s].root, tasks[s].base / 4096, tasks[s].trap, trampoline, va / 4096);
    OtherPurpose(mem, loc, if va / 4096 == TRAP_VPN then Trap(s) else Page(tasks[s].root, va / 4096));
  }

  lemma StoreSeen(mem: Memory, loc: Plan, tasks: seq<Task>, trampoline: nat, kroot: nat, s: nat, vpn: nat, index: nat)
    requires Owned(mem, loc, tasks, trampoline, kroot) && s < |tasks| && !tasks[s].state.UnInit?
    requires vpn < VPN_END && Page(tasks[s].root, vpn) in loc && index < ENTRIES
    ensures var f := loc[Page(tasks[s].root, vpn)];
      && Uniform(mem) && f < |mem| && |mem[f]| == ENTRIES
      && Fetch(mem, tasks[s].root, 4096 * vpn + 8 * index) == Some(mem[f][index])
  {
    hide Shape, Leaf, Fetch;
    var va := 4096 * vpn + 8 * index;
    assert va / 4096 == vpn && va % 4096 / 8 == index && va < VA_END;
    assert TaskMemory(mem, loc, tasks[s], s, trampoline, kroot);
    assert PageOk(mem, loc, tasks[s].root, tasks[s].base / 4096, tasks[s].trap, trampoline, vpn);
    SeenThrough(mem, loc, tasks, trampoline, kroot, s, va, loc[Page(tasks[s].root, vpn)]);
  }

  /** The hardware lets user code write where U, W and R are set. */
  lemma MayStore(mem: Memory, loc: Plan, root: nat, vpn: nat)
    requires Shape(mem, loc) && Table(root, 0, 0) in loc && vpn < VPN_END
    ensures Uniform(mem)
    ensures May(mem, root, 4096 * vpn, 2) && May(mem, root, 4096 * vpn, 4) <==>
      IsValid(Leaf(mem, loc, root, vpn)) && UserWritable(Leaf(mem, loc, root, vpn))
  {
    hide Shape, Leaf, Found;
    assert 4096 * vpn / 4096 == vpn && 4096 * vpn < VA_END;
    FoundIsLeaf(mem, loc, root, 4096 * vpn);
  }

  /** Byte k of a word replaced. */
  function PutByte(w: Word, k: nat, c: nat): Word
    requires k < 8 && c < 256
  {
    var u := Pow2(8 * k);
    PutByteReads(w, k, c);
    u * (256 * (w / u / 256) + c) + w % u
  }

  /** It reads back, and what is above and below it stays. */
  lemma PutByteReads(w: Word, k: nat, c: nat)
    requires k < 8 && c < 256
    ensures var u := Pow2(8 * k);
      var r := u * (256 * (w / u / 256) + c) + w % u;
      && 0 <= r < WORD_END && r / u % 256 == c && r % u == w % u && r / u / 256 == w / u / 256
  {
    hide Pow2;
    Pow2Add(8 * k, 64 - 8 * k);
    Pow2Add(8, 56 - 8 * k);
    Pow2Word();
    Pow2Eight();
    PutDigit(w, Pow2(8 * k), Pow2(56 - 8 * k), c);
  }

  lemma PutDigit(w: nat, u: nat, m: nat, c: nat)
    requires u > 0 && w < u * (256 * m) && c < 256
    ensures var r := u * (256 * (w / u / 256) + c) + w % u;
      && 0 <= r < u * (256 * m) && r / u % 256 == c && r % u == w % u && r / u / 256 == w / u / 256
  {
    var d, lo := w / u, w % u;
    assert w == u * d + lo;
    Steps(u, 256 * m, d);
    assert d < 256 * m;
    PutLowDigit(u, d, m, lo, c);
  }

  lemma PutLowDigit(u: nat, d: nat, m: nat, lo: nat, c: nat)
    requires lo < u && d < 256 * m && c < 256
    ensures var n := 256 * (d / 256) + c;
      var r := u * n + lo;
      0 <= r < u * (256 * m) && r / u % 256 == c && r % u == lo && r / u / 256 == d / 256
  {
    var n := 256 * (d / 256) + c;
    DivMod(u * n + lo, u, n, lo);
    assert n < 256 * m;
    Steps(u, n, 256 * m);
  }

  lemma Pow2Eight()
    ensures Pow2(8) == 256
  {
  }

  function BytePatched(page: Frame, offset: nat, c: nat): (r: Frame)
    requires |page| == ENTRIES && offset < 4096 && c < 256
    ensures |r| == ENTRIES
  {
    page[offset / 8 := PutByte(page[offset / 8], offset % 8, c)]
  }

  /** Byte k of a page; words are stored with the low byte first. */
  function ByteOf(page: Frame, k: nat): nat
    requires |page| == ENTRIES && k < 4096
  {
    page[k / 8] / Pow2(8 * (k % 8)) % 256
  }

  /** One byte was written, and no other changed. */
  ghost predicate ByteSet(after: Frame, before: Frame, offset: nat, c: nat)
    requires |after| == |before| == ENTRIES
  {
    forall k: nat | k < 4096 :: ByteOf(after, k) == if k == offset then c else ByteOf(before, k)
  }

  lemma BytePatchedSets(page: Frame, offset: nat, c: nat)
    requires |page| == ENTRIES && offset < 4096 && c < 256
    ensures ByteSet(BytePatched(page, offset, c), page, offset, c)
  {
    hide PutByte, Pow2;
    var after := BytePatched(page, offset, c);
    forall k: nat | k < 4096
      ensures ByteOf(after, k) == if k == offset then c else ByteOf(page, k)
    {
      if k / 8 == offset / 8 {
        assert k == offset <==> k % 8 == offset % 8;
        PutByteAt(page[k / 8], offset % 8, c, k % 8);
      }
    }
  }

  /** Byte j of a word after byte k was replaced. */
  lemma PutByteAt(w: Word, k: nat, c: nat, j: nat)
    requires k < 8 && c < 256 && j < 8
    ensures PutByte(w, k, c) / Pow2(8 * j) % 256 == if j == k then c else w / Pow2(8 * j) % 256
  {
    var r := PutByte(w, k, c);
    PutByteReads(w, k, c);
    hide Pow2, PutByte;
    if j < k {
      Pow2Add(8 * j, 8 * (k - j));
      Pow2Add(8, 8 * (k - j - 1));
      Pow2Eight();
      LowerDigit(r, Pow2(8 * j), Pow2(8 * (k - j - 1)), Pow2(8 * (k - j)), Pow2(8 * k));
      LowerDigit(w, Pow2(8 * j), Pow2(8 * (k - j - 1)), Pow2(8 * (k - j)), Pow2(8 * k));
    } else if j > k {
      Pow2Add(8 * k, 8 * (j - k));
      Pow2Add(8, 8 * (j - k - 1));
      Pow2Eight();
      UpperDigit(r, Pow2(8 * k), Pow2(8 * (j - k - 1)), Pow2(8 * (j - k)), Pow2(8 * j));
      UpperDigit(w, Pow2(8 * k), Pow2(8 * (j - k - 1)), Pow2(8 * (j - k)), Pow2(8 * j));
    }
  }

  /** Where a mapped page of a task other than the trampoline leads. */
  ghost predicate Target(loc: Plan, t: Task, s: nat, vpn: nat, f: nat) {
    if vpn == TRAP_VPN then f == t.trap && Trap(s) in loc && loc[Trap(s)] == f
    else Page(t.root, vpn) in loc && loc[Page(t.root, vpn)] == f
  }

  lemma TargetFrame(m: Machine, tasks: seq<Task>, trampoline: nat, kroot: nat, s: nat, vpn: nat)
    requires m.FramesOk() && trampoline < m.start && Owned(m.mem, m.loc, tasks, trampoline, kroot)
    requires s < |tasks| && !tasks[s].state.UnInit? && IsValid(Leaf(m.mem, m.loc, tasks[s].root, vpn))
    requires vpn != TRAMPOLINE_VPN
    ensures var f := PtePpn(Leaf(m.mem, m.loc, tasks[s].root, vpn));
      && Target(m.loc, tasks[s], s, vpn, f) && NoTable(m.loc, f) && f < |m.mem|
  {
    hide Shape, Leaf, PtePpn;
    assert TaskMemory(m.mem, m.loc, tasks[s], s, trampoline, kroot);
    assert PageOk(m.mem, m.loc, tasks[s].root, tasks[s].base / 4096, tasks[s].trap, trampoline, vpn);
    OtherPurpose(m.mem, m.loc, if vpn == TRAP_VPN then Trap(s) else Page(tasks[s].root, vpn));
  }

  lemma InMemory(m: Machine)
    requires m.FramesOk()
    ensures forall g: nat | g < |m.mem| :: |m.mem[g]| == ENTRIES
  {
  }

  /** The fields free_child resets. */
  function Blank(t: Task): (r: Task)
    ensures r.state == UnInit && r.parent == None
  {
    t.(state := UnInit, parent := None, trap := 0, base := 0, ustack := 0, entry := 0, root := 0, exitCode := 0)
  }

  /** User mode may store: U and W are set, and R too, since W without R is reserved. */
  predicate UserWritable(e: Word) {
    PteFlags(e) / PTE_R % 2 == 1 && PteFlags(e) / PTE_W % 2 == 1 && PteFlags(e) / PTE_U % 2 == 1
  }

  /** Programs that load something at all, with aligned segments that end below base_size; stores and
      characters of the right size. */
  ghost predicate CallOk(call: Call) {
    && (call.Exec? ==>
          ImagesOk(call.segs) && Fits(call.segs, 0) && exists i :: 0 <= i < |call.segs| && call.segs[i].load)
    && (call.Store? ==> call.index < ENTRIES)
    && (call.GetChar? ==> call.c < 256)
    && (call.Save? ==> |call.page| == ENTRIES)
  }

  lemma CallParts(call: Call)
    requires CallOk(call)
    ensures call.Store? ==> call.index < ENTRIES
    ensures call.GetChar? ==> call.c < 256
    ensures call.Save? ==> |call.page| == ENTRIES
  {
  }

  lemma {:induction false} LastEndAny(segs: seq<Segment>, i: nat, a: Word, b: Word)
    requires i < |segs| && segs[i].load
    ensures LastEnd(segs, a) == LastEnd(segs, b)
  {
    if !segs[|segs| - 1].load {
      LastEndAny(segs[..|segs| - 1], i, a, b);
    }
  }

  lemma AnyTaskFits(segs: seq<Segment>, before: Word)
    requires Fits(segs, 0) && exists i :: 0 <= i < |segs| && segs[i].load
    ensures Fits(segs, before)
  {
    var i :| 0 <= i < |segs| && segs[i].load;
    LastEndAny(segs, i, 0, before);
  }

  /** Where a walk that succeeds ends. */
  lemma LeafPlace(mem: Memory, loc: Plan, root: nat, vpn: nat)
    requires Shape(mem, loc) && Table(root, 0, 0) in loc && vpn < VPN_END && IsValid(Leaf(mem, loc, root, vpn))
    ensures var t := Table(root, 2, vpn / 512);
      && t in loc && loc[t] < |mem| && |mem[loc[t]]| == ENTRIES && vpn % 512 < ENTRIES
      && mem[loc[t]][vpn % 512] == Leaf(mem, loc, root, vpn)
  {
  }

  lemma OwnPage(mem: Memory, loc: Plan, root: nat, pages: nat, trap: nat, trampoline: nat, vpn: nat)
    requires Space(mem, loc, root, pages, trap, trampoline) && IsValid(Leaf(mem, loc, root, vpn))
    requires UserWritable(Leaf(mem, loc, root, vpn))
    ensures Page(root, vpn) in loc && loc[Page(root, vpn)] == PtePpn(Leaf(mem, loc, root, vpn))
  {
    hide Shape;
    assert PageOk(mem, loc, root, pages, trap, trampoline, vpn);
  }

  lemma TopBounds(tasks: seq<Task>, cur: nat, top: int, nextPid: int)
    requires Tree(tasks, cur, top, nextPid)
    ensures 0 < top <= MAX_TASKS && |tasks| == MAX_TASKS && cur < MAX_TASKS
  {
    assert SlotOk(tasks, cur, nextPid, 0);
    CountBounds(tasks);
  }

  lemma FirstTask(tasks: seq<Task>, cur: nat, top: int, nextPid: int)
    requires Tree(tasks, cur, top, nextPid) && Alive(tasks[cur])
    ensures tasks[cur].pid == 0 <==> cur == 0
  {
    assert SlotOk(tasks, cur, nextPid, cur);
  }

  lemma ExitedAlive(tasks: seq<Task>, cur: nat, top: int, nextPid: int, code: Word)
    requires Tree(tasks, cur, top, nextPid) && Alive(tasks[cur]) && cur != 0
    ensures var t' := Exited(tasks, cur, code);
      && t' == Adopted(tasks[cur := tasks[cur].(exitCode := code, state := Zombie)], cur)
      && forall s | 0 <= s < |tasks| :: Alive(t'[s]) <==> s != cur && Alive(tasks[s])
    ensures top > 1 && |tasks| == MAX_TASKS
  {
    assert SlotOk(tasks, cur, nextPid, 0);
    CountTwo(tasks, 0, cur);
  }

  lemma CountTwo(tasks: seq<Task>, a: nat, b: nat)
    requires a < b < |tasks| && Alive(tasks[a]) && Alive(tasks[b])
    ensures CountAlive(tasks) >= 2
  {
    var t := tasks[a].(state := Zombie);
    CountPut(tasks, a, t);
    var tasks' := tasks[a := t];
    CountPut(tasks', b, tasks'[b].(state := Zombie));
  }

  lemma YieldDone(mem: Memory, loc: Plan, tasks: seq<Task>, trampoline: nat, kroot: nat, cur: nat, next: nat)
    requires Owned(mem, loc, tasks, trampoline, kroot) && cur < |tasks| && next < |tasks| && Alive(tasks[next])
    ensures Owned(mem, loc, Switched(tasks, cur, next), trampoline, kroot)
  {
    OtherFieldsKeepOwned(mem, loc, tasks, Switched(tasks, cur, next), trampoline, kroot);
  }

  lemma ExitDone(mem: Memory, loc: Plan, tasks: seq<Task>, trampoline: nat, kroot: nat, cur: nat, next: nat, code: Word)
    requires Owned(mem, loc, tasks, trampoline, kroot) && cur < |tasks| && next < |tasks|
    requires Alive(tasks[cur]) && Alive(Exited(tasks, cur, code)[next])
    ensures Owned(mem, loc, Switched(Exited(tasks, cur, code), cur, next), trampoline, kroot)
  {
    OtherFieldsKeepOwned(mem, loc, tasks, Exited(tasks, cur, code), trampoline, kroot);
    YieldDone(mem, loc, Exited(tasks, cur, code), trampoline, kroot, cur, next);
  }

  lemma StillThere(mem0: Memory, loc0: Plan, mem: Memory, loc: Plan, root: nat, t: Tag)
    requires Framed(mem0, loc0, mem, loc, root) && t in loc0 && t.Trap?
    ensures t in loc && loc[t] == loc0[t] && loc[t] < |mem| && |mem[loc[t]]| == ENTRIES && mem[loc[t]] == mem0[loc[t]]
  {
    assert !Mine(t, root);
  }

  /** Words 1 to 33 are those of `page`, the others as before. */
  predicate Saved(after: Frame, before: Frame, page: Frame) {
    && |after| == |before| == |page| == ENTRIES
    && forall i | 0 <= i < ENTRIES :: after[i] == if 1 <= i <= 33 then page[i] else before[i]
  }

  lemma SavedWords(after: Frame, before: Frame, page: Frame)
    requires |before| == |page| == ENTRIES == 512 && after == before[..1] + page[1..34] + before[34..]
    ensures Saved(after, before, page) && |after| == ENTRIES
  {
  }

  lemma PageWords()
    ensures ENTRIES == 512
  {
  }

  lemma ExecWords(after: Frame, before: Frame, entry: Word, sp: Word)
    requires |before| == ENTRIES && 33 < |before| && after == before[33 := entry][2 := sp]
    ensures ExecRegisters(after, before, entry, sp) && |after| == ENTRIES
  {
  }

  lemma ExecTree(tasks: seq<Task>, cur: nat, top: int, nextPid: int, t: Task)
    requires Tree(tasks, cur, top, nextPid) && Alive(tasks[cur])
    requires t.state == tasks[cur].state && t.pid == tasks[cur].pid && t.parent == tasks[cur].parent
    ensures Tree(tasks[cur := t], cur, top, nextPid)
  {
    var tasks' := tasks[cur := t];
    CountPut(tasks, cur, t);
    forall s | 0 <= s < |tasks'|
      ensures SlotOk(tasks', cur, nextPid, s)
    {
      assert SlotOk(tasks, cur, nextPid, s);
    }
  }

  lemma OsExactly(os: Os)
    requires os.m.FramesOk() && os.trampoline < os.m.start && os.m.start < PPN_END
    requires Tree(os.tasks, os.cur, os.top, os.nextPid) && os.cur < |os.tasks| && Alive(os.tasks[os.cur])
    ensures os.Valid() <==> Owned(os.m.mem, os.m.loc, os.tasks, os.trampoline, os.kroot)
  {
  }

  /** The current task's memory, spelled out. */
  lemma TaskReady(mem: Memory, loc: Plan, tasks: seq<Task>, trampoline: nat, kroot: nat, s: nat)
    requires Owned(mem, loc, tasks, trampoline, kroot) && s < |tasks| && !tasks[s].state.UnInit?
    ensures TaskMemory(mem, loc, tasks[s], s, trampoline, kroot)
    ensures Space(mem, loc, tasks[s].root, tasks[s].base / 4096, tasks[s].trap, trampoline)
    ensures Trap(s) in loc && loc[Trap(s)] == tasks[s].trap && tasks[s].trap < |mem| && |mem| <= PPN_END
    ensures |mem[tasks[s].trap]| == ENTRIES
  {
    assert TaskMemory(mem, loc, tasks[s], s, trampoline, kroot);
    PlaceInRange(mem, loc, Trap(s));
  }

  lemma OsParts(os: Os)
    requires os.Valid()
    ensures os.m.Valid() && os.m.FramesOk() && os.trampoline < os.m.start && os.trampoline < PPN_END
    ensures Owned(os.m.mem, os.m.loc, os.tasks, os.trampoline, os.kroot)
    ensures Tree(os.tasks, os.cur, os.top, os.nextPid) && os.cur < |os.tasks| && Alive(os.tasks[os.cur])
    ensures os.m.start < PPN_END
  {
  }

  lemma OsValid(os: Os)
    requires os.m.FramesOk() && os.trampoline < os.m.start && os.m.start < PPN_END
    requires Owned(os.m.mem, os.m.loc, os.tasks, os.trampoline, os.kroot)
    requires Tree(os.tasks, os.cur, os.top, os.nextPid) && os.cur < |os.tasks| && Alive(os.tasks[os.cur])
    ensures os.Valid()
  {
  }

  lemma ForkReady(mem: Memory, loc: Plan, tasks: seq<Task>, trampoline: nat, kroot: nat, cur: nat, c: nat)
    requires Owned(mem, loc, tasks, trampoline, kroot) && cur < |tasks| && c < |tasks|
    requires Alive(tasks[cur]) && tasks[c].state.UnInit?
    ensures c != cur && Trap(c) !in loc
    ensures Space(mem, loc, tasks[cur].root, tasks[cur].base / 4096, tasks[cur].trap, trampoline)
    ensures Trap(cur) in loc && loc[Trap(cur)] == tasks[cur].trap && tasks[cur].trap < |mem|
  {
    hide Shape, Space;
    assert TaskMemory(mem, loc, tasks[cur], cur, trampoline, kroot);
    PlaceInRange(mem, loc, Trap(cur));
    assert !HasHolder(tasks, kroot, Trap(c));
  }

  lemma ForkDone(mem0: Memory, loc0: Plan, mem: Memory, loc: Plan, tasks: seq<Task>, trampoline: nat, kroot: nat,
                 cur: nat, c: nat, t: Task)
    requires Owned(mem0, loc0, tasks, trampoline, kroot) && cur < |tasks| && c < |tasks| && c != cur
    requires Alive(tasks[cur]) && tasks[c].state.UnInit?
    requires Spawned(mem0, loc0, mem, loc, t.root, c) && Rooted(loc)
    requires Trap(c) in loc && loc[Trap(c)] == t.trap && t.trap < |mem| && tasks[cur].trap < |mem0|
    requires Space(mem, loc, t.root, t.base / 4096, t.trap, trampoline)
    requires Copied(mem, loc, loc0, tasks[cur].root, t.root, t.base / 4096)
    requires ChildRegisters(mem[t.trap], mem0[tasks[cur].trap], tasks[c].kstack)
    requires t == tasks[c].(state := Ready, pid := t.pid, trap := t.trap, root := t.root,
                            entry := tasks[cur].entry, base := tasks[cur].base, parent := Some(cur),
                            ustack := tasks[cur].ustack)
    ensures Owned(mem, loc, tasks[c := t], trampoline, kroot)
    ensures Forked(mem0, loc0, tasks, cur, mem, loc, tasks[c := t], c)
  {
    hide Shape, Space, Copied, PlanOk;
    assert TaskMemory(mem0, loc0, tasks[cur], cur, trampoline, kroot);
    assert Table(kroot, 0, 0) in loc0 && Mine(Table(t.root, 0, 0), t.root);
    hide Spawned, Owned;
    SpawnKeeps(mem0, loc0, mem, loc, tasks, trampoline, kroot, c, t);
  }
}
