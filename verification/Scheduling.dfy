/** Whom __sys_yield (os/src/trap.c) lets run when nothing but yields happens. */
module Scheduling {
  import opened Common
  import opened Tasks

  /** The slot that runs after one yield. */
  function YieldTo(tasks: seq<Task>, top: nat, cur: nat): (r: nat)
    requires 0 < top <= |tasks| && cur < |tasks|
    ensures r < |tasks|
  {
    var next := (cur + 1) % top;
    if Alive(tasks[next]) then next else cur
  }

  /** The slot that runs after k yields; a yield changes no task's liveness. */
  function AfterYields(tasks: seq<Task>, top: nat, cur: nat, k: nat): (r: nat)
    requires 0 < top <= |tasks| && cur < |tasks|
    ensures r < |tasks|
  {
    if k == 0 then cur else YieldTo(tasks, top, AfterYields(tasks, top, cur, k - 1))
  }

  /** Slot s runs after k yields for some k >= n. */
  ghost predicate RunsAfter(tasks: seq<Task>, top: nat, cur: nat, s: nat, n: nat)
    requires 0 < top <= |tasks| && cur < |tasks|
  {
    exists k: nat :: k >= n && AfterYields(tasks, top, cur, k) == s
  }

  /** Every live task runs again and again. */
  ghost predicate Fair(tasks: seq<Task>, top: nat, cur: nat)
    requires 0 < top <= |tasks| && cur < |tasks|
  {
    forall s: nat, n: nat | s < |tasks| && Alive(tasks[s]) :: RunsAfter(tasks, top, cur, s, n)
  }

  /** The live tasks sit in the first slots, without a gap. */
  ghost predicate Packed(tasks: seq<Task>, top: nat) {
    top <= |tasks| && forall s | 0 <= s < top :: Alive(tasks[s])
  }

  // ---------------------------------------------------------------- counting

  lemma {:induction false} CountSplit(tasks: seq<Task>, k: nat)
    requires k <= |tasks|
    ensures CountAlive(tasks) == CountAlive(tasks[..k]) + CountAlive(tasks[k..])
  {
    if k == 0 {
      assert tasks[0..] == tasks;
    } else {
      assert tasks[..k][1..] == tasks[1..][..k - 1];
      assert tasks[1..][k - 1..] == tasks[k..];
      CountSplit(tasks[1..], k - 1);
    }
  }

  lemma {:induction false} CountAll(tasks: seq<Task>)
    ensures CountAlive(tasks) == |tasks| <==> forall s | 0 <= s < |tasks| :: Alive(tasks[s])
  {
    CountBounds(tasks);
    if tasks != [] {
      CountBounds(tasks[1..]);
      CountAll(tasks[1..]);
      assert forall s | 0 < s < |tasks| :: tasks[s] == tasks[1..][s - 1];
    }
  }

  lemma {:induction false} CountSome(tasks: seq<Task>)
    ensures CountAlive(tasks) > 0 <==> exists s :: 0 <= s < |tasks| && Alive(tasks[s])
  {
    if tasks != [] {
      CountSome(tasks[1..]);
      assert forall s | 0 < s < |tasks| :: tasks[s] == tasks[1..][s - 1];
      if s :| 0 <= s < |tasks[1..]| && Alive(tasks[1..][s]) {
        assert Alive(tasks[s + 1]);
      }
    }
  }

  /** With as many live tasks as `top` says, a gap below it means a live task at or above it. */
  lemma GapMeansHigh(tasks: seq<Task>, top: nat)
    requires top == CountAlive(tasks) <= |tasks|
    ensures !Packed(tasks, top) <==> exists s :: top <= s < |tasks| && Alive(tasks[s])
  {
    CountSplit(tasks, top);
    CountAll(tasks[..top]);
    CountBounds(tasks[..top]);
    var high := tasks[top..];
    CountSome(high);
    if s :| 0 <= s < |high| && Alive(high[s]) {
      assert Alive(tasks[top + s]);
    }
    if s :| top <= s < |tasks| && Alive(tasks[s]) {
      assert Alive(high[s - top]);
    }
  }

  // ---------------------------------------------------------------- packed tables are fair

  lemma PackedNext(tasks: seq<Task>, top: nat, cur: nat)
    requires 0 < top && Packed(tasks, top) && cur < top
    ensures YieldTo(tasks, top, cur) == if cur + 1 < top then cur + 1 else 0
  {
  }

  lemma {:induction false} PackedStays(tasks: seq<Task>, top: nat, cur: nat, k: nat)
    requires 0 < top && Packed(tasks, top) && cur < top
    ensures AfterYields(tasks, top, cur, k) < top
  {
    if k > 0 {
      PackedStays(tasks, top, cur, k - 1);
      PackedNext(tasks, top, AfterYields(tasks, top, cur, k - 1));
    }
  }

  /** From slot r on, the next slots run one after the other. */
  lemma {:induction false} PackedAhead(tasks: seq<Task>, top: nat, cur: nat, n: nat, j: nat)
    requires 0 < top && Packed(tasks, top) && cur < top && AfterYields(tasks, top, cur, n) + j < top
    ensures AfterYields(tasks, top, cur, n + j) == AfterYields(tasks, top, cur, n) + j
  {
    if j > 0 {
      PackedAhead(tasks, top, cur, n, j - 1);
      PackedNext(tasks, top, AfterYields(tasks, top, cur, n + j - 1));
    }
  }

  lemma PackedReaches(tasks: seq<Task>, top: nat, cur: nat, s: nat, n: nat)
    requires 0 < top && Packed(tasks, top) && cur < top && s < top
    ensures RunsAfter(tasks, top, cur, s, n)
  {
    PackedStays(tasks, top, cur, n);
    var r := AfterYields(tasks, top, cur, n);
    if s >= r {
      PackedAhead(tasks, top, cur, n, s - r);
    } else {
      var last := n + (top - 1 - r);
      PackedAhead(tasks, top, cur, n, top - 1 - r);
      PackedNext(tasks, top, top - 1);
      assert AfterYields(tasks, top, cur, last + 1) == 0;
      PackedAhead(tasks, top, cur, last + 1, s);
    }
  }

  // ---------------------------------------------------------------- and only those

  lemma {:induction false} Stuck(tasks: seq<Task>, top: nat, cur: nat, k: nat)
    requires 0 < top <= |tasks| && cur < |tasks| && YieldTo(tasks, top, cur) == cur
    ensures AfterYields(tasks, top, cur, k) == cur
  {
    if k > 0 {
      Stuck(tasks, top, cur, k - 1);
    }
  }

  lemma {:induction false} StaysLow(tasks: seq<Task>, top: nat, cur: nat, k: nat)
    requires 0 < top <= |tasks| && cur < |tasks| && YieldTo(tasks, top, cur) != cur && k > 0
    ensures AfterYields(tasks, top, cur, k) < top
  {
    if k == 1 {
      assert AfterYields(tasks, top, cur, 0) == cur;
    } else {
      StaysLow(tasks, top, cur, k - 1);
    }
  }

  /** Somebody starves as soon as there is a gap. */
  lemma GapStarves(tasks: seq<Task>, cur: nat, top: nat, nextPid: int, high: nat)
    requires Tree(tasks, cur, top, nextPid) && top > 0 && top <= high < |tasks| && Alive(tasks[high])
    ensures !Fair(tasks, top, cur)
  {
    assert SlotOk(tasks, cur, nextPid, 0);
    var s := if YieldTo(tasks, top, cur) != cur then high else if cur == 0 then high else 0;
    forall k: nat | k >= 1
      ensures AfterYields(tasks, top, cur, k) != s
    {
      if YieldTo(tasks, top, cur) != cur {
        StaysLow(tasks, top, cur, k);
      } else {
        Stuck(tasks, top, cur, k);
      }
    }
    assert !RunsAfter(tasks, top, cur, s, 1);
  }

  /** Yielding is fair exactly when the live tasks fill the slots below their number. */
  lemma FairExactly(tasks: seq<Task>, cur: nat, top: nat, nextPid: int)
    requires Tree(tasks, cur, top, nextPid) && Alive(tasks[cur]) && 0 < top <= |tasks|
    ensures Fair(tasks, top, cur) <==> Packed(tasks, top)
  {
    GapMeansHigh(tasks, top);
    if Packed(tasks, top) {
      assert forall s | top <= s < |tasks| :: !Alive(tasks[s]);
      forall s: nat, n: nat | s < |tasks| && Alive(tasks[s])
        ensures RunsAfter(tasks, top, cur, s, n)
      {
        PackedReaches(tasks, top, cur, s, n);
      }
    } else {
      var high :| top <= high < |tasks| && Alive(tasks[high]);
      GapStarves(tasks, cur, top, nextPid, high);
    }
  }

  lemma SwitchKeepsAlive(tasks: seq<Task>, cur: nat, next: nat)
    requires cur < |tasks| && next < |tasks| && Alive(tasks[next])
    ensures forall s | 0 <= s < |tasks| :: Alive(Switched(tasks, cur, next)[s]) == Alive(tasks[s])
  {
  }

  /** When a task in the middle of a packed table exits, the last live task never runs again until
      something else changes the table. */
  lemma MiddleExitStarves(tasks: seq<Task>, cur: nat, top: nat, nextPid: int, code: Word)
    requires Tree(tasks, cur, top, nextPid) && Packed(tasks, top) && 0 < cur < top - 1
    ensures var next := (cur + 1) % (top - 1);
      next != cur && !Fair(Switched(Exited(tasks, cur, code), cur, next), top - 1, next)
  {
    var next := (cur + 1) % (top - 1);
    var tasks1 := Exited(tasks, cur, code);
    ExitKeeps(tasks, cur, top, nextPid, code);
    assert next != cur;
    assert Alive(tasks1[next]);
    SwitchKeeps(tasks1, cur, top - 1, nextPid, next);
    SwitchKeepsAlive(tasks1, cur, next);
    var tasks2 := Switched(tasks1, cur, next);
    assert !Alive(tasks2[cur]);
    FairExactly(tasks2, next, top - 1, nextPid);
  }
}
