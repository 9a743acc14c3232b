/** The cold-boot lottery and the wake-up of the waiting harts (opensbi-1.2/lib/sbi/sbi_init.c), as
    atomic steps of n harts. The coldboot lock is the ticket lock, seen as a holder or none. */
module ColdBoot {
  import opened Common

  /** Control points, in the order of the code. */
  datatype Pc =
    | Reset
    | Nascent(cold: bool)
    | Cold
    | Marked
    | Waking(i: nat)
    | ColdDone
    | Arriving
    | Joining
    | Checking
    | Asleep
    | Departing
    | Clearing
    | WarmDone
    | Hung

  /** Shared words, per-hart interrupt pending bits, who drew the winning lot, and whether that hart
      has been through waking the others. */
  datatype State = State(pc: seq<Pc>, lottery: bool, done: bool, lock: Option<nat>, mask: seq<bool>, pending: seq<bool>,
                         winner: Option<nat>, woken: bool)

  datatype Action =
    | Draw(h: nat, supported: bool)
    | Fail(h: nat)
    | Begin(h: nat)
    | Mark(h: nat)
    | Lock(h: nat)
    | WakeNext(h: nat)
    | Join(h: nat)
    | Check(h: nat)
    | Wake(h: nat)
    | Clear(h: nat)
    | Raise(h: nat)
    | Restart(h: nat)   // a hart that was stopped enters sbi_init again

  predicate Init(s: State, n: nat) {
    && |s.pc| == |s.mask| == |s.pending| == n
    && (forall h | 0 <= h < n :: s.pc[h] == Reset && !s.mask[h])
    && !s.lottery && !s.done && s.lock == None && s.winner == None && !s.woken
  }

  predicate Shaped(s: State, n: nat) { |s.pc| == |s.mask| == |s.pending| == n }

  predicate Enabled(s: State, a: Action, n: nat) {
    && Shaped(s, n) && a.h < n
    && var p := s.pc[a.h];
    match a
    case Draw(_, _) => p == Reset
    case Fail(_) => p.Nascent? || p.Cold?
    case Begin(_) => p.Nascent?
    case Mark(_) => p.Cold?
    case Lock(_) => s.lock == None && (p.Marked? || p.Arriving? || p.Departing?)
    case WakeNext(_) => p.Waking?
    case Join(_) => p.Joining?
    case Check(_) => p.Checking?
    case Wake(_) => p.Asleep? && s.pending[a.h]
    case Clear(_) => p.Clearing?
    case Raise(_) => true
    case Restart(_) => p.ColdDone? || p.WarmDone?
  }

  /** The exchange on the lottery word: only a hart that supports the next mode takes part. */
  function Drawn(s: State, h: nat, supported: bool): State
    requires h < |s.pc|
  {
    var wins := supported && !s.lottery;
    s.(pc := s.pc[h := Nascent(wins)], lottery := s.lottery || supported, winner := if wins then Some(h) else s.winner)
  }

  function Locked(p: Pc): Pc {
    if p.Marked? then Waking(0) else if p.Arriving? then Joining else Clearing
  }

  function Step(s: State, a: Action, n: nat): State
    requires Enabled(s, a, n)
  {
    var h := a.h;
    match a
    case Draw(_, supported) => Drawn(s, h, supported)
    case Fail(_) => s.(pc := s.pc[h := Hung])
    case Begin(_) => s.(pc := s.pc[h := if s.pc[h].cold then Cold else Arriving])
    case Mark(_) => s.(pc := s.pc[h := Marked], done := true)
    case Lock(_) => s.(pc := s.pc[h := Locked(s.pc[h])], lock := Some(h))
    case WakeNext(_) =>
      var i := s.pc[h].i;
      if i >= n then s.(pc := s.pc[h := ColdDone], lock := None, woken := true)
      else if i != h && s.mask[i] then s.(pc := s.pc[h := Waking(i + 1)], pending := s.pending[i := true])
      else s.(pc := s.pc[h := Waking(i + 1)])
    case Join(_) => s.(pc := s.pc[h := Checking], mask := s.mask[h := true], lock := None)
    case Check(_) => s.(pc := s.pc[h := if s.done then Departing else Asleep])
    case Wake(_) => s.(pc := s.pc[h := Checking])
    case Clear(_) => s.(pc := s.pc[h := WarmDone], mask := s.mask[h := false], lock := None)
    case Raise(_) => s.(pending := s.pending[h := true])
    case Restart(_) => s.(pc := s.pc[h := Reset])
  }

  ghost predicate Run(run: seq<State>, acts: seq<Action>, n: nat) {
    && |run| == |acts| + 1 && Init(run[0], n)
    && forall i | 0 <= i < |acts| :: Enabled(run[i], acts[i], n) && run[i + 1] == Step(run[i], acts[i], n)
  }

  // ---------------------------------------------------------------- the invariant

  predicate IsCold(p: Pc) { p == Nascent(true) || p.Cold? || p.Marked? || p.Waking? || p.ColdDone? }
  predicate HasDone(p: Pc) { p.Marked? || p.Waking? || p.ColdDone? }
  predicate Holds(p: Pc) { p.Joining? || p.Waking? || p.Clearing? }
  predicate Waits(p: Pc) { p.Checking? || p.Asleep? || p.Departing? || p.Clearing? }

  /** A sleeping hart will be woken: it has an interrupt, or the waker has not passed it yet. */
  ghost predicate WillWake(s: State, h: nat)
    requires h < |s.pending|
  {
    s.pending[h] || (s.winner.Some? && s.winner.value < |s.pc| && s.winner.value != h &&
      var p := s.pc[s.winner.value]; p.Marked? || (p.Waking? && p.i <= h))
  }

  ghost predicate HartOk(s: State, h: nat)
    requires h < |s.pc| == |s.mask| == |s.pending|
  {
    && (IsCold(s.pc[h]) ==> s.winner == Some(h))
    && (s.lock == Some(h) <==> Holds(s.pc[h]))
    && (s.mask[h] <==> Waits(s.pc[h]))
    && (HasDone(s.pc[h]) ==> s.done)
    && (s.pc[h].Departing? || s.pc[h].Clearing? || s.pc[h].WarmDone? ==> s.done)
    && (s.pc[h].Asleep? && s.done ==> WillWake(s, h))
    && (IsCold(s.pc[h]) ==> (s.woken <==> s.pc[h].ColdDone?))
  }

  ghost predicate Inv(s: State, n: nat) {
    && Shaped(s, n)
    && (s.winner.Some? ==> s.lottery && s.winner.value < n)
    && (!s.lottery ==> s.winner == None)
    && (s.done ==> s.winner.Some? && s.winner.value < n && (s.woken || HasDone(s.pc[s.winner.value])))
    && (s.woken ==> s.done)
    && (s.lock.Some? ==> s.lock.value < n)
    && forall h: nat | h < n :: HartOk(s, h)
  }

  lemma WakeHart(s: State, h: nat, n: nat, g: nat)
    requires Inv(s, n) && Enabled(s, WakeNext(h), n) && g < n
    ensures Shaped(Step(s, WakeNext(h), n), n) && HartOk(Step(s, WakeNext(h), n), g)
  {
    assert HartOk(s, h) && HartOk(s, g);
  }

  lemma LockHart(s: State, h: nat, n: nat, g: nat)
    requires Inv(s, n) && Enabled(s, Lock(h), n) && g < n
    ensures Shaped(Step(s, Lock(h), n), n) && HartOk(Step(s, Lock(h), n), g)
  {
    assert HartOk(s, h) && HartOk(s, g);
  }

  lemma OtherHart(s: State, a: Action, n: nat, g: nat)
    requires Inv(s, n) && Enabled(s, a, n) && g < n && !a.WakeNext? && !a.Lock?
    ensures Shaped(Step(s, a, n), n) && HartOk(Step(s, a, n), g)
  {
    assert HartOk(s, a.h) && HartOk(s, g);
  }

  lemma StepHart(s: State, a: Action, n: nat, g: nat)
    requires Inv(s, n) && Enabled(s, a, n) && g < n
    ensures Shaped(Step(s, a, n), n) && HartOk(Step(s, a, n), g)
  {
    hide HartOk, Step, Enabled, Shaped;
    match a
    case WakeNext(h) => WakeHart(s, h, n, g);
    case Lock(h) => LockHart(s, h, n, g);
    case _ => OtherHart(s, a, n, g);
  }

  lemma StepShared(s: State, a: Action, n: nat)
    requires Inv(s, n) && Enabled(s, a, n)
    ensures var s' := Step(s, a, n);
      && Shaped(s', n) && (s'.winner.Some? ==> s'.lottery && s'.winner.value < n)
      && (!s'.lottery ==> s'.winner == None)
      && (s'.done ==> s'.winner.Some? && s'.winner.value < |s'.pc| && (s'.woken || HasDone(s'.pc[s'.winner.value])))
      && (s'.woken ==> s'.done)
      && (s'.lock.Some? ==> s'.lock.value < n)
  {
    assert HartOk(s, a.h);
  }

  lemma StepKeeps(s: State, a: Action, n: nat)
    requires Inv(s, n) && Enabled(s, a, n)
    ensures Inv(Step(s, a, n), n)
  {
    hide HartOk, Step, Enabled;
    StepShared(s, a, n);
    forall g: nat | g < n ensures HartOk(Step(s, a, n), g) { StepHart(s, a, n, g); }
  }

  lemma {:induction false} RunKeeps(run: seq<State>, acts: seq<Action>, n: nat)
    requires Run(run, acts, n)
    ensures forall i | 0 <= i < |run| :: Inv(run[i], n)
  {
    if acts != [] {
      var k := |acts| - 1;
      RunKeeps(run[..k + 1], acts[..k], n);
      assert run[..k + 1][k] == run[k];
      hide Inv, Enabled, Step;
      StepKeeps(run[k], acts[k], n);
    }
  }

  /** Once drawn, the winning lot stays where it is. */
  lemma {:induction false} WinnerStays(run: seq<State>, acts: seq<Action>, n: nat, i: nat, j: nat)
    requires Run(run, acts, n) && i <= j < |run| && run[i].winner.Some?
    ensures run[j].winner == run[i].winner
    decreases j
  {
    if i < j {
      WinnerStays(run, acts, n, i, j - 1);
      RunKeeps(run, acts, n);
      assert Inv(run[j - 1], n);
      assert run[j] == Step(run[j - 1], acts[j - 1], n);
    }
  }

  // ---------------------------------------------------------------- main results

  /** In a whole run at most one hart ever executes the cold-boot path, and nobody does after it is
      through, however often harts stop and enter sbi_init again. */
  lemma SingleColdBoot(run: seq<State>, acts: seq<Action>, n: nat, i: nat, j: nat, h: nat, g: nat)
    requires Run(run, acts, n) && i < |run| && j < |run| && h < n && g < n
    requires |run[i].pc| == n && |run[j].pc| == n && IsCold(run[i].pc[h]) && IsCold(run[j].pc[g])
    ensures h == g && (run[i].woken ==> run[i].pc[h] == ColdDone)
  {
    RunKeeps(run, acts, n);
    assert HartOk(run[i], h) && HartOk(run[j], g);
    if i <= j {
      WinnerStays(run, acts, n, i, j);
    } else {
      WinnerStays(run, acts, n, j, i);
    }
  }

  /** Nobody else is disturbed: an interrupt that does not come from outside is sent by the hart that
      won the lottery, after cold boot is done, to another hart that is waiting. */
  lemma OnlyWaitersWoken(run: seq<State>, acts: seq<Action>, n: nat, i: nat, g: nat)
    requires Run(run, acts, n) && i < |acts| && g < n
    ensures Shaped(run[i], n) && Shaped(run[i + 1], n)
    ensures !run[i].pending[g] && run[i + 1].pending[g] && acts[i] != Raise(g) ==>
      && acts[i].WakeNext? && run[i].winner == Some(acts[i].h) && acts[i].h != g
      && Waits(run[i].pc[g]) && run[i].done
  {
    RunKeeps(run, acts, n);
    assert Inv(run[i], n) && Inv(run[i + 1], n);
    assert HartOk(run[i], g) && HartOk(run[i], acts[i].h);
  }

  /** No wake-up is lost: once the waker is through, every hart that still sleeps has an interrupt
      pending. */
  lemma NoLostWakeup(run: seq<State>, acts: seq<Action>, n: nat, i: nat, h: nat)
    requires Run(run, acts, n) && i < |run| && h < n && Shaped(run[i], n)
    requires run[i].woken && run[i].pc[h] == Asleep
    ensures run[i].pending[h]
  {
    RunKeeps(run, acts, n);
    assert HartOk(run[i], h) && HartOk(run[i], run[i].winner.value);
  }

  // ---------------------------------------------------------------- everybody gets through

  predicate Finished(p: Pc) { p.ColdDone? || p.WarmDone? || p.Hung? }

  /** Steps a hart has before it at most, once coldboot_done is set. */
  function Ahead(p: Pc, n: nat): nat {
    match p
    case Reset => 9
    case Nascent(_) => 8
    case Arriving => 7
    case Joining => 6
    case Asleep => 5
    case Checking => 4
    case Departing => 3
    case Clearing => 2
    case Cold => n + 7
    case Marked => n + 6
    case Waking(i) => (if i <= n then n - i else 0) + 1
    case _ => 0
  }

  ghost function Work(pc: seq<Pc>, n: nat): nat {
    if pc == [] then 0 else Ahead(pc[0], n) + Work(pc[1..], n)
  }

  lemma {:induction false} WorkPut(pc: seq<Pc>, h: nat, p: Pc, n: nat)
    requires h < |pc|
    ensures Work(pc[h := p], n) == Work(pc, n) - Ahead(pc[h], n) + Ahead(p, n)
  {
    if h == 0 {
      assert pc[0 := p][1..] == pc[1..];
    } else {
      assert pc[h := p][1..] == pc[1..][h - 1 := p];
      WorkPut(pc[1..], h - 1, p, n);
    }
  }

  /** What starts work anew rather than doing it: interrupts and restarts. */
  predicate External(a: Action) { a.Raise? || a.Restart? }

  /** After coldboot_done every step of a hart uses up work; a restart adds at most nine steps. */
  lemma StepWork(s: State, a: Action, n: nat)
    requires Inv(s, n) && s.done && Enabled(s, a, n) && !a.Raise?
    ensures Step(s, a, n).done
    ensures if a.Restart? then Work(Step(s, a, n).pc, n) == Work(s.pc, n) + 9
            else Work(Step(s, a, n).pc, n) < Work(s.pc, n)
  {
    hide Work;
    var h := a.h;
    assert HartOk(s, h);
    var s' := Step(s, a, n);
    WorkPut(s.pc, h, s'.pc[h], n);
    assert s'.pc == s.pc[h := s'.pc[h]];
  }

  /** ... and as long as some hart is not through, some hart can take a step. */
  lemma SomeoneMoves(s: State, n: nat, h: nat) returns (a: Action)
    requires Inv(s, n) && s.done && h < n && !Finished(s.pc[h])
    ensures Enabled(s, a, n) && !External(a)
  {
    assert HartOk(s, h);
    var g := if s.lock.Some? then s.lock.value else h;
    assert HartOk(s, g);
    var w := s.winner.value;
    assert HartOk(s, w);
    var p := s.pc[g];
    if p == Reset {
      a := Draw(g, false);
    } else if p.Nascent? {
      a := Begin(g);
    } else if p.Joining? {
      a := Join(g);
    } else if p.Checking? {
      a := Check(g);
    } else if p.Clearing? {
      a := Clear(g);
    } else if p.Waking? {
      a := WakeNext(g);
    } else if p.Asleep? {
      a := if s.pending[g] then Wake(g) else if s.pc[w].Marked? then Lock(w) else WakeNext(w);
    } else {
      a := Lock(g);
    }
  }

  /** Steps of harts, not counting interrupts and restarts. */
  function HartSteps(acts: seq<Action>): nat {
    if acts == [] then 0 else (if External(acts[0]) then 0 else 1) + HartSteps(acts[1..])
  }

  function Restarts(acts: seq<Action>): nat {
    if acts == [] then 0 else (if acts[0].Restart? then 1 else 0) + Restarts(acts[1..])
  }

  /** However a run goes on after coldboot_done is set, the harts take boundedly many steps, nine more
      for each restart; and when none of them can take another, all are through. */
  lemma {:induction false} EverybodyFinishes(run: seq<State>, acts: seq<Action>, n: nat, i: nat)
    requires Run(run, acts, n) && i < |run| && Shaped(run[i], n) && run[i].done
    ensures HartSteps(acts[i..]) <= Work(run[i].pc, n) + 9 * Restarts(acts[i..])
    ensures var last := run[|run| - 1];
      && Shaped(last, n)
      && ((forall a: Action | !External(a) :: !Enabled(last, a, n)) ==> forall h | 0 <= h < n :: Finished(last.pc[h]))
    decreases |acts| - i
  {
    RunKeeps(run, acts, n);
    assert Inv(run[i], n);
    if i == |acts| {
      forall h: nat | h < n && !Finished(run[i].pc[h])
        ensures exists a: Action :: !External(a) && Enabled(run[i], a, n)
      {
        var a := SomeoneMoves(run[i], n, h);
      }
    } else {
      hide Work, Finished;
      assert run[i + 1] == Step(run[i], acts[i], n);
      if !acts[i].Raise? {
        StepWork(run[i], acts[i], n);
      }
      assert Inv(run[i + 1], n);
      assert acts[i..][1..] == acts[i + 1..];
      EverybodyFinishes(run, acts, n, i + 1);
    }
  }
}
