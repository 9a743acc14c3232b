/** The whole life of a child process, from fork to the recycling of its slot. */
module Lifecycle {
  import opened Common
  import opened Sv39
  import opened AddressSpace
  import opened Tasks
  import opened Scheduling
  import opened Ownership
  import opened Kernel

  // ---------------------------------------------------------------- any life of a child

  /** A call in a run: which slot was current, and how it came out. */
  datatype Event = Event(actor: nat, call: Call, result: Outcome)

  /** Nothing was forked or freed, and nobody but slot c replaced its memory. */
  predicate Quiet(e: Event, c: nat) {
    && (e.call.Fork? || e.call.Recycle? ==> !e.result.Pid?)
    && (e.call.Exec? ==> e.actor == c)
  }

  /** And nobody but slot c wrote to memory. */
  predicate Silent(e: Event, c: nat) {
    && Quiet(e, c)
    && (e.call.Store? || e.call.Save? || (e.call.GetChar? && e.result == Ok) ==> e.actor == c)
  }

  predicate AllQuiet(trace: seq<Event>, c: nat) { forall i | 0 <= i < |trace| :: Quiet(trace[i], c) }
  predicate AllSilent(trace: seq<Event>, c: nat) { forall i | 0 <= i < |trace| :: Silent(trace[i], c) }

  /** Without the memory of the task in slot c, which has this pid, the plan is loc0. */
  ghost predicate Beyond(loc: Plan, tasks: seq<Task>, c: nat, pid: int, loc0: Plan) {
    && c < |tasks| && !tasks[c].state.UnInit? && tasks[c].pid == pid
    && Without(loc, tasks[c].root, true, c) == loc0
  }

  lemma LifeStep(mem1: Memory, loc1: Plan, tasks1: seq<Task>, mem2: Memory, loc2: Plan, tasks2: seq<Task>, e: Event,
                 c: nat, pid: int, mem0: Memory, loc0: Plan)
    requires Quiet(e, c) && Outside(mem1, loc1, tasks1, mem2, loc2, tasks2, e.actor)
    requires !e.call.Exec? ==> loc2 == loc1
    requires !e.call.Exec? && !e.call.Store? && !e.call.Save? && !(e.call.GetChar? && e.result == Ok) ==> mem2 == mem1
    requires Beyond(loc1, tasks1, c, pid, loc0)
    ensures Beyond(loc2, tasks2, c, pid, loc0)
    ensures Silent(e, c) && Kept(mem0, mem1, loc0) ==> Kept(mem0, mem2, loc0)
  {
    hide Without;
  }

  lemma {:induction false} OneMoreEvent(trace: seq<Event>, e: Event, c: nat)
    ensures AllQuiet(trace + [e], c) <==> AllQuiet(trace, c) && Quiet(e, c)
    ensures AllSilent(trace + [e], c) <==> AllSilent(trace, c) && Silent(e, c)
  {
    hide Quiet, Silent;
    var n := |trace|;
    assert forall i | 0 <= i < n :: (trace + [e])[i] == trace[i];
    assert (trace + [e])[n] == e;
  }

  lemma QuietUnlessFork(e: Event, c: nat)
    ensures Quiet(e, c) ==> !(e.call.Fork? && e.result.Pid?) && !(e.call.Recycle? && e.result.Pid?)
  {
  }

  lemma SilentIsQuiet(trace: seq<Event>, c: nat)
    ensures AllSilent(trace, c) ==> AllQuiet(trace, c)
  {
  }

  /** Any run after the fork. */
  method Life(os: Os, calls: seq<Call>, ghost c: nat, ghost pid: int, ghost mem0: Memory, ghost loc0: Plan)
    returns (running: bool, trace: seq<Event>)
    requires os.Valid() && (forall i | 0 <= i < |calls| :: CallOk(calls[i]))
    requires Beyond(os.m.loc, os.tasks, c, pid, loc0) && Kept(mem0, os.m.mem, loc0)
    modifies os, os.m
    ensures |trace| <= |calls| && (forall i | 0 <= i < |trace| :: trace[i].call == calls[i])
    ensures trace != [] ==> trace[0].actor == old(os.cur)
    ensures running ==> os.Valid() && |trace| == |calls|
    ensures running && AllQuiet(trace, c) ==> Beyond(os.m.loc, os.tasks, c, pid, loc0)
    ensures running && AllSilent(trace, c) ==> Kept(mem0, os.m.mem, loc0)
  {
    hide *;
    trace := [];
    while |trace| < |calls|
      invariant |trace| <= |calls| && forall i | 0 <= i < |trace| :: trace[i].call == calls[i]
      invariant if trace == [] then os.cur == old(os.cur) else trace[0].actor == old(os.cur)
      invariant os.Valid()
      invariant AllQuiet(trace, c) ==> Beyond(os.m.loc, os.tasks, c, pid, loc0)
      invariant AllSilent(trace, c) ==> Kept(mem0, os.m.mem, loc0)
    {
      ghost var mem1, loc1, tasks1 := os.m.mem, os.m.loc, os.tasks;
      var actor, call := os.cur, calls[|trace|];
      var r := os.Step(call);
      if r == Stopped {
        return false, trace;
      }
      var e := Event(actor, call, r);
      OneMoreEvent(trace, e, c);
      QuietUnlessFork(e, c);
      SilentIsQuiet(trace + [e], c);
      SilentIsQuiet(trace, c);
      if AllQuiet(trace + [e], c) {
        LifeStep(mem1, loc1, tasks1, os.m.mem, os.m.loc, os.tasks, e, c, pid, mem0, loc0);
      }
      trace := trace + [e];
    }
    running := true;
  }

  lemma AfterFork(mem0: Memory, loc0: Plan, tasks0: seq<Task>, cur: nat, mem: Memory, loc: Plan, tasks: seq<Task>,
                  c: nat)
    requires Forked(mem0, loc0, tasks0, cur, mem, loc, tasks, c)
    ensures c < |tasks| && Beyond(loc, tasks, c, tasks[c].pid, loc0) && Kept(mem0, mem, loc0)
  {
    hide Copied, Uniform, ChildRegisters, PlanOk;
    TeardownUndoesSpawn(mem0, loc0, mem, loc, tasks[c].root, c);
  }

  lemma SamePidSameSlot(tasks: seq<Task>, cur: nat, top: int, nextPid: int, a: nat, b: nat)
    requires Tree(tasks, cur, top, nextPid) && a < |tasks| && b < |tasks|
    requires !tasks[a].state.UnInit? && !tasks[b].state.UnInit? && tasks[a].pid == tasks[b].pid
    ensures a == b
  {
    hide SlotOk, CountAlive;
  }

  /** Conservation: whoever forks, and whatever happens in between as long as only the child itself
      changes which frames are in use, the recycle that returns the child's pid leaves exactly the
      frames in use that were in use before the fork; with their contents, if nobody else wrote. */
  method ForkLiveReap(os: Os, calls: seq<Call>)
    returns (forked: Outcome, ghost child: nat, trace: seq<Event>, reaped: Outcome)
    requires os.Valid() && forall i | 0 <= i < |calls| :: CallOk(calls[i])
    modifies os, os.m
    ensures forked == Stopped || forked == Failed || forked == Pid(old(os.nextPid))
    ensures forked == Failed ==> forall s | 0 <= s < |old(os.tasks)| :: !old(os.tasks)[s].state.UnInit?
    ensures |trace| <= |calls| && (forall i | 0 <= i < |trace| :: trace[i].call == calls[i])
    ensures trace != [] ==> trace[0].actor == old(os.cur)
    ensures reaped.Pid? ==> os.Valid() && |trace| == |calls|
    ensures forked.Pid? && reaped == forked && AllQuiet(trace, child) ==> os.m.loc == old(os.m.loc)
    ensures forked.Pid? && reaped == forked && AllSilent(trace, child) ==>
      os.m.loc == old(os.m.loc) && Kept(old(os.m.mem), os.m.mem, os.m.loc)
  {
    hide *;
    ghost var mem0, loc0, tasks0, cur0 := os.m.mem, os.m.loc, os.tasks, os.cur;
    trace, reaped := [], Stopped;
    forked, child := os.DoFork();
    if !forked.Pid? {
      return;
    }
    AfterFork(mem0, loc0, tasks0, cur0, os.m.mem, os.m.loc, os.tasks, child);
    var running;
    running, trace := Life(os, calls, child, forked.pid, mem0, loc0);
    if !running {
      return;
    }
    OsParts(os);
    ghost var mem2, loc2, tasks2, top2, next2 := os.m.mem, os.m.loc, os.tasks, os.top, os.nextPid;
    ghost var freed;
    reaped, freed := os.DoRecycle();
    SilentIsQuiet(trace, child);
    if reaped == forked && AllQuiet(trace, child) {
      BeyondSlot(loc2, tasks2, child, forked.pid, loc0);
      SamePidSameSlot(tasks2, os.cur, top2, next2, freed, child);
      if AllSilent(trace, child) {
        KeptTwice(mem0, mem2, os.m.mem, loc0);
      }
    }
  }

  lemma BeyondSlot(loc: Plan, tasks: seq<Task>, c: nat, pid: int, loc0: Plan)
    requires Beyond(loc, tasks, c, pid, loc0)
    ensures c < |tasks| && !tasks[c].state.UnInit? && tasks[c].pid == pid
    ensures Without(loc, tasks[c].root, true, c) == loc0
  {
  }

  lemma KeptTwice(mem0: Memory, mem1: Memory, mem2: Memory, loc: Plan)
    requires Kept(mem0, mem1, loc) && Kept(mem1, mem2, loc)
    ensures Kept(mem0, mem2, loc)
  {
  }

  // ---------------------------------------------------------------- a schedule in which it succeeds

  /** The first `top` slots hold live tasks, the others are free. */
  ghost predicate Settled(tasks: seq<Task>, top: int) {
    && 0 < top <= |tasks|
    && (forall s | 0 <= s < top :: Alive(tasks[s])) && forall s | top <= s < |tasks| :: tasks[s].state.UnInit?
  }

  /** The child in the slot after its parent's is in the given state; whatever comes before it is
      alive, whatever comes after it is free. */
  ghost predicate Family(tasks: seq<Task>, parent: nat, child: nat, root: nat, alive: bool) {
    && child == parent + 1 && child < |tasks|
    && tasks[child].parent == Some(parent) && tasks[child].root == root
    && (if alive then Alive(tasks[child]) else tasks[child].state.Zombie?)
    && (forall s | 0 <= s <= parent :: Alive(tasks[s])) && forall s | child < s < |tasks| :: tasks[s].state.UnInit?
  }

  lemma Born(mem0: Memory, loc0: Plan, tasks0: seq<Task>, cur: nat, mem: Memory, loc: Plan, tasks: seq<Task>,
             child: nat)
    requires Settled(tasks0, cur + 1) && Forked(mem0, loc0, tasks0, cur, mem, loc, tasks, child)
    requires forall s | 0 <= s < child :: !tasks0[s].state.UnInit?
    ensures child < |tasks| && Family(tasks, cur, child, tasks[child].root, true)
    ensures Spawned(mem0, loc0, mem, loc, tasks[child].root, child)
  {
    hide Spawned, Copied, Uniform, ChildRegisters;
    assert forall s | 0 <= s <= cur :: !tasks0[s].state.UnInit?;
    assert child > cur;
    assert tasks0[cur + 1].state.UnInit?;
  }

  lemma Full(tasks: seq<Task>, cur: nat, top: int, nextPid: int)
    requires Settled(tasks, top) && Tree(tasks, cur, top, nextPid)
    ensures |tasks| == MAX_TASKS
    ensures top == MAX_TASKS <==> forall s | 0 <= s < |tasks| :: !tasks[s].state.UnInit?
  {
    hide CountAlive, SlotOk;
    if top < |tasks| {
      assert tasks[top].state.UnInit?;
    }
  }

  lemma Runs(tasks: seq<Task>, parent: nat, child: nat, root: nat)
    requires Family(tasks, parent, child, root, true)
    ensures (parent + 1) % (child + 1) == child
    ensures Family(Switched(tasks, parent, child), parent, child, root, true)
  {
    Below(child, child + 1);
  }

  /** The child's exit succeeds: the slot that takes over, 0 or 1, holds a live task. */
  lemma Exits(tasks: seq<Task>, parent: nat, child: nat, root: nat, code: Word)
    requires Family(tasks, parent, child, root, true)
    ensures var next := (child + 1) % child;
      && next <= parent && next != child && Alive(tasks[next])
      && Family(Switched(Exited(tasks, child, code), child, next), parent, child, root, false)
  {
    Over(child);
    var next := (child + 1) % child;
    var tasks1 := Exited(tasks, child, code);
    assert forall s | 0 <= s < |tasks| && s != child ::
      Alive(tasks1[s]) == Alive(tasks[s]) && tasks1[s].state == tasks[s].state;
    assert tasks1[child].state.Zombie? && tasks1[child].parent == Some(parent) && tasks1[child].root == root;
  }

  lemma Over(n: nat)
    requires n > 0
    ensures (n + 1) % n == if n == 1 then 0 else 1
  {
    if n > 1 {
      assert n + 1 == n * 1 + 1;
    }
  }

  lemma Below(x: nat, n: nat)
    requires x < n
    ensures x % n == x
  {
  }

  lemma Waits(tasks: seq<Task>, cur: nat, parent: nat, child: nat, root: nat)
    requires Family(tasks, parent, child, root, false) && cur < parent
    ensures (cur + 1) % (parent + 1) == cur + 1 && cur + 1 < |tasks| && Alive(tasks[cur + 1])
    ensures Family(Switched(tasks, cur, cur + 1), parent, child, root, false)
  {
    Below(cur + 1, parent + 1);
  }

  lemma Collected(tasks: seq<Task>, parent: nat, child: nat, root: nat)
    requires Family(tasks, parent, child, root, false)
    ensures Settled(tasks[child := Blank(tasks[child])], parent + 1)
    ensures forall s | 0 <= s < |tasks| && tasks[s].state.Zombie? :: s == child
  {
  }

  lemma ContentsKept(mem0: Memory, loc0: Plan, mem1: Memory, loc1: Plan, mem2: Memory, root: nat, slot: nat)
    requires Spawned(mem0, loc0, mem1, loc1, root, slot) && Kept(mem1, mem2, loc0)
    ensures Kept(mem0, mem2, loc0)
  {
    hide PlanOk;
  }

  /** A case in which all of it succeeds: a child that is forked, runs, exits and is recycled leaves no
      trace: the frames in use are the ones from before, with their contents. The live tasks fill the
      first slots and the last of them forks, so that the child is the next to run; the others run
      before the parent is back. */
  method ForkExitRecycle(os: Os, code: Word) returns (r: Outcome)
    requires os.Valid() && Settled(os.tasks, os.top) && os.cur == os.top - 1
    modifies os, os.m
    ensures r == Stopped || r == Failed || r == Ok
    ensures (r == Failed ==> old(os.top) == MAX_TASKS) && (r == Stopped ==> os.m.Exhausted())
    ensures r == Ok ==>
      && os.Valid() && os.cur == old(os.cur) && os.top == old(os.top) && os.nextPid == old(os.nextPid) + 1
      && Settled(os.tasks, os.top) && os.m.loc == old(os.m.loc) && Kept(old(os.m.mem), os.m.mem, os.m.loc)
  {
    hide *;
    OsParts(os);
    ghost var mem0, loc0, tasks0 := os.m.mem, os.m.loc, os.tasks;
    var parent := os.cur;
    Full(os.tasks, os.cur, os.top, os.nextPid);
    ghost var child;
    r, child := os.DoFork();
    if r == Stopped || r == Failed {
      return;
    }
    Born(mem0, loc0, tasks0, parent, os.m.mem, os.m.loc, os.tasks, child);
    ghost var mem1, loc1, root := os.m.mem, os.m.loc, os.tasks[child].root;
    LiveAndDie(os, parent, child, root, code);
    Collect(os, parent, child, root);
    TeardownUndoesSpawn(mem0, loc0, mem1, loc1, root, child);
    ContentsKept(mem0, loc0, mem1, loc1, os.m.mem, root, child);
    r := Ok;
  }

  /** The child runs and exits; then the others run until it is the parent's turn. */
  method LiveAndDie(os: Os, parent: nat, ghost child: nat, ghost root: nat, code: Word)
    requires os.Valid() && os.cur == parent && os.top == parent + 2 && Family(os.tasks, parent, child, root, true)
    modifies os
    ensures os.Valid() && os.cur == parent && os.top == parent + 1 && os.nextPid == old(os.nextPid)
    ensures Family(os.tasks, parent, child, root, false)
  {
    hide *;
    FamilySlot(os.tasks, parent, child, root, true);
    Runs(os.tasks, parent, child, root);
    RunsNext(os.tasks, parent, child, root);
    os.YieldStep();
    Exits(os.tasks, parent, child, root, code);
    var r := os.DoExit(code);
    WaitForTurn(os, parent, child, root);
  }

  lemma RunsNext(tasks: seq<Task>, parent: nat, child: nat, root: nat)
    requires Family(tasks, parent, child, root, true)
    ensures child + 1 <= |tasks| && parent < |tasks| && YieldTo(tasks, child + 1, parent) == child
  {
    Below(child, child + 1);
  }

  method WaitForTurn(os: Os, parent: nat, ghost child: nat, ghost root: nat)
    requires os.Valid() && os.top == parent + 1 && os.cur <= parent && Family(os.tasks, parent, child, root, false)
    modifies os
    ensures os.Valid() && os.cur == parent && os.top == parent + 1 && os.nextPid == old(os.nextPid)
    ensures Family(os.tasks, parent, child, root, false)
  {
    hide *;
    while os.cur != parent
      invariant os.Valid() && os.top == parent + 1 && os.cur <= parent && os.nextPid == old(os.nextPid)
      invariant Family(os.tasks, parent, child, root, false)
      decreases parent - os.cur
    {
      Waits(os.tasks, os.cur, parent, child, root);
      WaitsNext(os.tasks, os.cur, parent, child, root);
      os.YieldStep();
    }
  }

  lemma WaitsNext(tasks: seq<Task>, cur: nat, parent: nat, child: nat, root: nat)
    requires Family(tasks, parent, child, root, false) && cur < parent
    ensures parent + 1 <= |tasks| && cur < |tasks| && YieldTo(tasks, parent + 1, cur) == cur + 1
  {
    Below(cur + 1, parent + 1);
  }

  /** The parent collects the child. */
  method Collect(os: Os, parent: nat, ghost child: nat, ghost root: nat)
    requires os.Valid() && os.cur == parent && os.top == parent + 1 && Family(os.tasks, parent, child, root, false)
    modifies os, os.m
    ensures os.Valid() && os.cur == parent && os.top == parent + 1 && os.nextPid == old(os.nextPid)
    ensures Settled(os.tasks, parent + 1)
    ensures os.m.loc == Without(old(os.m.loc), root, true, child) && Kept(old(os.m.mem), os.m.mem, os.m.loc)
  {
    hide *;
    Collected(os.tasks, parent, child, root);
    FamilySlot(os.tasks, parent, child, root, false);
    ghost var gone;
    var r;
    r, gone := os.DoRecycle();
  }

  lemma FamilySlot(tasks: seq<Task>, parent: nat, child: nat, root: nat, alive: bool)
    requires Family(tasks, parent, child, root, alive)
    ensures child == parent + 1 && child < |tasks| && tasks[child].parent == Some(parent) && tasks[child].root == root
    ensures if alive then Alive(tasks[child]) else tasks[child].state.Zombie?
  {
  }
}
