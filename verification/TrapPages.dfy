/** The words of a trap page that trap entry relies on (os/src/kerneltrap.S): the kernel's page table
    in word 34, the task's kernel stack in word 35 and the handler in word 36. */
module TrapPages {
  import opened Common
  import opened Sv39
  import opened KernelMemory
  import opened AddressSpace
  import opened Tasks
  import opened Ownership

  predicate EntryWords(page: Frame, satp: Word, kstack: Word, handler: Word) {
    |page| == ENTRIES && page[34] == satp && page[35] == kstack && page[36] == handler
  }

  /** Every task enters the kernel through the same table and handler, on its own kernel stack. */
  ghost predicate KernelWords(mem: Memory, tasks: seq<Task>, satp: Word, handler: Word) {
    forall s | 0 <= s < |tasks| && !tasks[s].state.UnInit? ::
      tasks[s].trap < |mem| && EntryWords(mem[tasks[s].trap], satp, tasks[s].kstack, handler)
  }

  /** No slot's kernel stack moved. */
  predicate StacksStay(tasks0: seq<Task>, tasks: seq<Task>) {
    |tasks| == |tasks0| && forall s | 0 <= s < |tasks| :: tasks[s].kstack == tasks0[s].kstack
  }

  /** ... and every task still enters the kernel as it should if all did. */
  ghost predicate WordsKept(mem0: Memory, tasks0: seq<Task>, mem: Memory, tasks: seq<Task>)
    ensures WordsKept(mem0, tasks0, mem, tasks) ==> StacksStay(tasks0, tasks)
  {
    && StacksStay(tasks0, tasks)
    && forall satp: Word, handler: Word ::
         KernelWords(mem0, tasks0, satp, handler) ==> KernelWords(mem, tasks, satp, handler)
  }

  lemma WordsReflexive(mem: Memory, tasks: seq<Task>)
    ensures WordsKept(mem, tasks, mem, tasks)
  {
  }

  lemma WordsTransitive(mem0: Memory, tasks0: seq<Task>, mem1: Memory, tasks1: seq<Task>, mem2: Memory,
                        tasks2: seq<Task>)
    requires WordsKept(mem0, tasks0, mem1, tasks1) && WordsKept(mem1, tasks1, mem2, tasks2)
    ensures WordsKept(mem0, tasks0, mem2, tasks2)
  {
    hide KernelWords;
  }

  lemma StacksTransitive(a: seq<Task>, b: seq<Task>, c: seq<Task>)
    requires StacksStay(a, b) && StacksStay(b, c)
    ensures StacksStay(a, c)
  {
  }

  /** The trap page of slot s holds the same three words, or the words of a task that held the common
      ones and the slot's own stack. */
  ghost predicate Descends(mem0: Memory, tasks0: seq<Task>, mem: Memory, tasks: seq<Task>, s: nat)
    requires s < |tasks0| == |tasks|
  {
    exists q: nat :: q < |tasks0| && !tasks0[q].state.UnInit? && From(mem0, tasks0, mem, tasks, s, q)
  }

  ghost predicate From(mem0: Memory, tasks0: seq<Task>, mem: Memory, tasks: seq<Task>, s: nat, q: nat)
    requires s < |tasks0| == |tasks| && q < |tasks0|
  {
    && tasks0[q].trap < |mem0| && |mem0[tasks0[q].trap]| == ENTRIES
    && tasks[s].trap < |mem| && |mem[tasks[s].trap]| == ENTRIES
    && var before, after := mem0[tasks0[q].trap], mem[tasks[s].trap];
    && after[34] == before[34] && after[36] == before[36]
    && (after[35] == tasks[s].kstack || (q == s && after[35] == before[35]))
  }

  lemma AllDescend(mem0: Memory, tasks0: seq<Task>, mem: Memory, tasks: seq<Task>)
    requires StacksStay(tasks0, tasks)
    requires forall s: nat | s < |tasks| && !tasks[s].state.UnInit? :: Descends(mem0, tasks0, mem, tasks, s)
    ensures WordsKept(mem0, tasks0, mem, tasks)
  {
    forall satp: Word, handler: Word | KernelWords(mem0, tasks0, satp, handler)
      ensures KernelWords(mem, tasks, satp, handler)
    {
      forall s | 0 <= s < |tasks| && !tasks[s].state.UnInit?
        ensures tasks[s].trap < |mem| && EntryWords(mem[tasks[s].trap], satp, tasks[s].kstack, handler)
      {
        assert Descends(mem0, tasks0, mem, tasks, s);
        var q: nat :| q < |tasks0| && !tasks0[q].state.UnInit? && From(mem0, tasks0, mem, tasks, s, q);
      }
    }
  }

  /** Where a live task's trap page is. */
  lemma TrapPlace(mem: Memory, loc: Plan, tasks: seq<Task>, trampoline: nat, kroot: nat, s: nat)
    requires Owned(mem, loc, tasks, trampoline, kroot) && s < |tasks| && !tasks[s].state.UnInit?
    ensures PlanOk(mem, loc) && Trap(s) in loc && loc[Trap(s)] == tasks[s].trap
    ensures tasks[s].trap < |mem| && |mem[tasks[s].trap]| == ENTRIES
  {
    hide Space;
    assert TaskMemory(mem, loc, tasks[s], s, trampoline, kroot);
    PlaceInRange(mem, loc, Trap(s));
  }

  /** Changes of other fields. */
  lemma FieldsKeepWords(mem: Memory, loc: Plan, tasks: seq<Task>, tasks': seq<Task>, trampoline: nat, kroot: nat)
    requires Owned(mem, loc, tasks, trampoline, kroot) && |tasks'| == |tasks|
    requires forall s | 0 <= s < |tasks| ::
      && tasks'[s].state.UnInit? == tasks[s].state.UnInit? && tasks'[s].trap == tasks[s].trap
      && tasks'[s].kstack == tasks[s].kstack
    ensures WordsKept(mem, tasks, mem, tasks')
  {
    hide Owned;
    forall s: nat | s < |tasks'| && !tasks'[s].state.UnInit?
      ensures Descends(mem, tasks, mem, tasks', s)
    {
      TrapPlace(mem, loc, tasks, trampoline, kroot, s);
      assert From(mem, tasks, mem, tasks', s, s);
    }
    AllDescend(mem, tasks, mem, tasks');
  }

  /** A write to a frame, which may be a trap page if it spares the three words. */
  lemma WriteKeepsWords(mem: Memory, loc: Plan, tasks: seq<Task>, trampoline: nat, kroot: nat, f: nat, data: Frame)
    requires Owned(mem, loc, tasks, trampoline, kroot) && f < |mem| && |data| == |mem[f]| == ENTRIES
    requires (forall s | 0 <= s < |tasks| && !tasks[s].state.UnInit? :: tasks[s].trap != f)
             || data[34..37] == mem[f][34..37]
    ensures WordsKept(mem, tasks, mem[f := data], tasks)
  {
    hide Owned;
    var mem' := mem[f := data];
    forall s: nat | s < |tasks| && !tasks[s].state.UnInit?
      ensures Descends(mem, tasks, mem', tasks, s)
    {
      TrapPlace(mem, loc, tasks, trampoline, kroot, s);
      if tasks[s].trap == f {
        assert forall i | 34 <= i < 37 :: data[i] == data[34..37][i - 34] && mem[f][i] == mem[f][34..37][i - 34];
      }
      assert From(mem, tasks, mem', tasks, s, s);
    }
    AllDescend(mem, tasks, mem', tasks);
  }

  /** No trap page is a page of an address space. */
  lemma NoTrapPage(mem: Memory, loc: Plan, tasks: seq<Task>, trampoline: nat, kroot: nat, root: nat, v: nat)
    requires Owned(mem, loc, tasks, trampoline, kroot) && Page(root, v) in loc
    ensures forall s | 0 <= s < |tasks| && !tasks[s].state.UnInit? :: tasks[s].trap != loc[Page(root, v)]
  {
    hide Owned;
    forall s | 0 <= s < |tasks| && !tasks[s].state.UnInit?
      ensures tasks[s].trap != loc[Page(root, v)]
    {
      TrapPlace(mem, loc, tasks, trampoline, kroot, s);
    }
  }

  lemma ForkKeepsWords(mem0: Memory, loc0: Plan, mem: Memory, loc: Plan, tasks: seq<Task>, trampoline: nat, kroot: nat,
                       cur: nat, c: nat, t: Task)
    requires Owned(mem0, loc0, tasks, trampoline, kroot)
    requires cur < |tasks| && c < |tasks| && c != cur && !tasks[cur].state.UnInit? && tasks[c].state.UnInit?
    requires Spawned(mem0, loc0, mem, loc, t.root, c) && t.kstack == tasks[c].kstack && !t.state.UnInit?
    requires t.trap < |mem| && tasks[cur].trap < |mem0|
    requires ChildRegisters(mem[t.trap], mem0[tasks[cur].trap], t.kstack)
    ensures WordsKept(mem0, tasks, mem, tasks[c := t])
  {
    hide Owned, PlanOk;
    var tasks' := tasks[c := t];
    forall s: nat | s < |tasks'| && !tasks'[s].state.UnInit?
      ensures Descends(mem0, tasks, mem, tasks', s)
    {
      if s == c {
        TrapPlace(mem0, loc0, tasks, trampoline, kroot, cur);
        assert From(mem0, tasks, mem, tasks', c, cur);
      } else {
        TrapPlace(mem0, loc0, tasks, trampoline, kroot, s);
        assert !Mine(Trap(s), t.root);
        assert From(mem0, tasks, mem, tasks', s, s);
      }
    }
    AllDescend(mem0, tasks, mem, tasks');
  }

  lemma ExecKeepsWords(mem0: Memory, loc0: Plan, mem: Memory, loc: Plan, tasks: seq<Task>, trampoline: nat, kroot: nat,
                       cur: nat, t: Task, entry: Word, sp: Word)
    requires Owned(mem0, loc0, tasks, trampoline, kroot) && cur < |tasks| && !tasks[cur].state.UnInit?
    requires OthersSame(mem0, loc0, mem, loc, tasks[cur].root, t.root, cur)
    requires t.trap == tasks[cur].trap && t.kstack == tasks[cur].kstack && !t.state.UnInit?
    requires t.trap < |mem| && t.trap < |mem0| && ExecRegisters(mem[t.trap], mem0[t.trap], entry, sp)
    ensures WordsKept(mem0, tasks, mem, tasks[cur := t])
  {
    hide Owned, PlanOk;
    var tasks' := tasks[cur := t];
    forall s: nat | s < |tasks'| && !tasks'[s].state.UnInit?
      ensures Descends(mem0, tasks, mem, tasks', s)
    {
      TrapPlace(mem0, loc0, tasks, trampoline, kroot, s);
      assert !Mine(Trap(s), t.root) && !Mine(Trap(s), tasks[cur].root);
      assert From(mem0, tasks, mem, tasks', s, s);
    }
    AllDescend(mem0, tasks, mem, tasks');
  }

  lemma ReapKeepsWords(mem0: Memory, loc0: Plan, mem: Memory, tasks: seq<Task>, trampoline: nat, kroot: nat, c: nat,
                       t: Task)
    requires Owned(mem0, loc0, tasks, trampoline, kroot) && c < |tasks|
    requires t.state.UnInit? && t.kstack == tasks[c].kstack
    requires Kept(mem0, mem, Without(loc0, tasks[c].root, true, c))
    ensures WordsKept(mem0, tasks, mem, tasks[c := t])
  {
    hide Owned, PlanOk;
    var tasks' := tasks[c := t];
    forall s: nat | s < |tasks'| && !tasks'[s].state.UnInit?
      ensures Descends(mem0, tasks, mem, tasks', s)
    {
      TrapPlace(mem0, loc0, tasks, trampoline, kroot, s);
      assert Trap(s) in Without(loc0, tasks[c].root, true, c);
      assert From(mem0, tasks, mem, tasks', s, s);
    }
    AllDescend(mem0, tasks, mem, tasks');
  }
}
