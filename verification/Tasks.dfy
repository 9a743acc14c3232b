/** The task table of os/src/task.c: states, parents and counters. */
module Tasks {
  import opened Common

  const MAX_TASKS: nat := 10

  datatype TaskState = UnInit | Ready | Running | Zombie

  /** struct TaskControlBlock; `trap` is the frame of the trap page, `parent` the parent's slot. */
  datatype Task = Task(state: TaskState, pid: int, parent: Option<nat>, trap: nat, base: Word, kstack: Word,
                       ustack: Word, entry: Word, root: nat, exitCode: Word)

  predicate Alive(t: Task) { t.state.Ready? || t.state.Running? }

  ghost function CountAlive(tasks: seq<Task>): nat {
    if tasks == [] then 0 else (if Alive(tasks[0]) then 1 else 0) + CountAlive(tasks[1..])
  }

  lemma {:induction false} CountPut(tasks: seq<Task>, i: nat, t: Task)
    requires i < |tasks|
    ensures CountAlive(tasks[i := t]) ==
      CountAlive(tasks) - (if Alive(tasks[i]) then 1 else 0) + (if Alive(t) then 1 else 0)
  {
    if i == 0 {
      assert tasks[0 := t][1..] == tasks[1..];
    } else {
      assert tasks[i := t][1..] == tasks[1..][i - 1 := t];
      CountPut(tasks[1..], i - 1, t);
    }
  }

  lemma {:induction false} CountBounds(tasks: seq<Task>)
    ensures CountAlive(tasks) <= |tasks|
    ensures tasks != [] && Alive(tasks[0]) ==> CountAlive(tasks) >= 1
  {
    if tasks != [] {
      CountBounds(tasks[1..]);
    }
  }

  /** Slot s is in order: a task other than the first has a live parent, a free slot has none. */
  ghost predicate SlotOk(tasks: seq<Task>, cur: nat, nextPid: int, s: nat)
    requires s < |tasks|
  {
    && (tasks[s].state.UnInit? ==> tasks[s].parent == None)
    && (!tasks[s].state.UnInit? ==> tasks[s].pid < nextPid)
    && (s == 0 ==> Alive(tasks[0]) && tasks[0].pid == 0 && tasks[0].parent == None)
    && (s != 0 && !tasks[s].state.UnInit? ==>
          && tasks[s].pid > 0
          && tasks[s].parent.Some? && tasks[s].parent.value < |tasks| && Alive(tasks[tasks[s].parent.value]))
    && (tasks[s].state.Running? ==> s == cur)
  }

  /** The task tree, apart from whether the current task is still alive. */
  ghost predicate Tree(tasks: seq<Task>, cur: nat, top: int, nextPid: int) {
    && |tasks| == MAX_TASKS && cur < MAX_TASKS && nextPid >= 1
    && top == CountAlive(tasks)
    && (forall s | 0 <= s < |tasks| :: SlotOk(tasks, cur, nextPid, s))
    && (forall s, s' | 0 <= s < s' < |tasks| && !tasks[s].state.UnInit? && !tasks[s'].state.UnInit? ::
          tasks[s].pid != tasks[s'].pid)
  }

  /** What __sys_yield makes of the table: the next slot runs, the current one steps back if it
      was running. */
  function Switched(tasks: seq<Task>, cur: nat, next: nat): (r: seq<Task>)
    requires cur < |tasks| && next < |tasks|
    ensures |r| == |tasks|
  {
    var t1 := tasks[next := tasks[next].(state := Running)];
    if t1[cur].state.Running? then t1[cur := t1[cur].(state := Ready)] else t1
  }

  lemma SwitchCount(tasks: seq<Task>, cur: nat, next: nat)
    requires cur < |tasks| && next < |tasks| && Alive(tasks[next])
    ensures CountAlive(Switched(tasks, cur, next)) == CountAlive(tasks)
  {
    hide CountAlive;
    var t1 := tasks[next := tasks[next].(state := Running)];
    CountPut(tasks, next, t1[next]);
    CountPut(t1, cur, t1[cur].(state := Ready));
  }

  /** A switch changes nothing but states, and nobody's liveness. */
  lemma SwitchSlot(tasks: seq<Task>, cur: nat, next: nat, s: nat)
    requires cur < |tasks| && next < |tasks| && Alive(tasks[next]) && s < |tasks|
    ensures var t := Switched(tasks, cur, next)[s];
      && Alive(t) == Alive(tasks[s]) && t.state.UnInit? == tasks[s].state.UnInit?
      && t.pid == tasks[s].pid && t.parent == tasks[s].parent
      && (t.state.Running? ==> s == next || (s != cur && tasks[s].state.Running?))
  {
  }

  lemma SwitchKeeps(tasks: seq<Task>, cur: nat, top: int, nextPid: int, next: nat)
    requires Tree(tasks, cur, top, nextPid) && next < |tasks| && Alive(tasks[next])
    ensures Tree(Switched(tasks, cur, next), next, top, nextPid)
    ensures Alive(Switched(tasks, cur, next)[next])
  {
    hide Switched, CountAlive;
    SwitchCount(tasks, cur, next);
    var t2 := Switched(tasks, cur, next);
    forall s: nat | s < |tasks|
      ensures Alive(t2[s]) == Alive(tasks[s]) && t2[s].state.UnInit? == tasks[s].state.UnInit?
      ensures t2[s].pid == tasks[s].pid
      ensures t2[s].parent == tasks[s].parent
      ensures (t2[s].state.Running? ==> s == next || (s != cur && tasks[s].state.Running?))
    {
      SwitchSlot(tasks, cur, next, s);
    }
    forall s: nat | s < |tasks| ensures SlotOk(t2, next, nextPid, s) { assert SlotOk(tasks, cur, nextPid, s); }
  }

  /** child_proc_mv: the children of p become children of the first task. */
  function Adopted(tasks: seq<Task>, p: nat): (r: seq<Task>)
    ensures |r| == |tasks|
  {
    seq(|tasks|, i requires 0 <= i < |tasks| =>
      if tasks[i].parent == Some(p) then tasks[i].(parent := Some(0)) else tasks[i])
  }

  /** The table after a task became a zombie and its children were handed over. */
  function Exited(tasks: seq<Task>, p: nat, code: Word): (r: seq<Task>)
    requires p < |tasks|
    ensures |r| == |tasks|
  {
    Adopted(tasks[p := tasks[p].(exitCode := code, state := Zombie)], p)
  }

  lemma {:induction false} CountSame(a: seq<Task>, b: seq<Task>)
    requires |a| == |b| && forall i | 0 <= i < |a| :: Alive(a[i]) == Alive(b[i])
    ensures CountAlive(a) == CountAlive(b)
  {
    if a != [] {
      CountSame(a[1..], b[1..]);
    }
  }

  /** A task that exits leaves a tree behind: nobody is left without a live parent, and its slot,
      once freed, has no stale children. */
  lemma ExitKeeps(tasks: seq<Task>, cur: nat, top: int, nextPid: int, code: Word)
    requires Tree(tasks, cur, top, nextPid) && Alive(tasks[cur]) && cur != 0
    ensures var t' := Exited(tasks, cur, code);
      && Tree(t', cur, top - 1, nextPid)
      && forall s | 0 <= s < |t'| :: t'[s].parent != Some(cur)
  {
    var t1 := tasks[cur := tasks[cur].(exitCode := code, state := Zombie)];
    var t' := Adopted(t1, cur);
    CountPut(tasks, cur, t1[cur]);
    CountSame(t1, t');
    assert SlotOk(tasks, cur, nextPid, 0);
    forall s | 0 <= s < |t'|
      ensures SlotOk(t', cur, nextPid, s) && t'[s].parent != Some(cur)
    {
      assert SlotOk(tasks, cur, nextPid, s);
    }
  }

  /** A fresh task in a free slot, child of the current one. */
  lemma ForkKeeps(tasks: seq<Task>, cur: nat, top: int, nextPid: int, c: nat, t: Task)
    requires Tree(tasks, cur, top, nextPid) && Alive(tasks[cur]) && c < |tasks| && tasks[c].state.UnInit?
    requires t.state == Ready && t.pid == nextPid && t.parent == Some(cur)
    ensures Tree(tasks[c := t], cur, top + 1, nextPid + 1)
  {
    CountPut(tasks, c, t);
    var t' := tasks[c := t];
    assert SlotOk(tasks, cur, nextPid, 0);
    forall s | 0 <= s < |t'|
      ensures SlotOk(t', cur, nextPid + 1, s)
      ensures s != c && !t'[s].state.UnInit? ==> t'[s].pid < nextPid
    {
      assert SlotOk(tasks, cur, nextPid, s);
    }
  }

  /** A reaped zombie leaves a free slot without children. */
  lemma ReapKeeps(tasks: seq<Task>, cur: nat, top: int, nextPid: int, c: nat, t: Task)
    requires Tree(tasks, cur, top, nextPid) && c < |tasks| && tasks[c].state.Zombie?
    requires t.state == UnInit && t.parent == None
    ensures Tree(tasks[c := t], cur, top, nextPid)
    ensures var t' := tasks[c := t]; forall s | 0 <= s < |t'| :: t'[s].parent != Some(c)
  {
    CountPut(tasks, c, t);
    var t' := tasks[c := t];
    assert SlotOk(tasks, cur, nextPid, 0);
    forall s | 0 <= s < |t'|
      ensures SlotOk(t', cur, nextPid, s) && t'[s].parent != Some(c)
    {
      assert SlotOk(tasks, cur, nextPid, s);
    }
  }
}
