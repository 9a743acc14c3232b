/** Hart state management (opensbi-1.2/lib/sbi/sbi_hsm.c, warm-boot paths of
    opensbi-1.2/lib/sbi/sbi_init.c), as compare-and-swap steps of n harts. */
module Hsm {
  import opened Common

  datatype St = Started | Stopped | StartPending | StopPending | Suspended | SuspendPending | ResumePending

  /** Control points of a hart. Booting covers the cold-boot path from sbi_hsm_init on; PoweredOff is
      a hart its platform switched off after stopping. */
  datatype Pc =
    | Booting
    | WarmEntry
    | WarmWait
    | WarmStart
    | ResumeBegin
    | Resuming
    | Running
    | Stopping
    | PoweredOff
    | InSuspend
    | Restoring
    | Hang

  /** The atomic state words, the control points, and two ghost counts for each hart: how often it
      was stopped, and how many start calls won. */
  datatype State = State(st: seq<St>, pc: seq<Pc>, stops: seq<nat>, wins: seq<nat>)

  datatype Action =
    | ReadState(h: nat)            // init_warmboot decides between resume and startup
    | SeePending(h: nat)           // sbi_hsm_hart_wait leaves its loop
    | Jump(h: nat)                 // sbi_hsm_prepare_next_jump
    | StopCall(h: nat)             // sbi_hsm_hart_stop, also for a HALT that sbi_exit finds pending
    | ExitHart(h: nat, off: bool)  // sbi_hsm_exit, with or without hotplug
    | PowerOn(h: nat)
    | SuspendCall(h: nat)          // sbi_hsm_hart_suspend up to its first exchange
    | EndSuspend(h: nat, warm: bool)
    | Restore(h: nat)              // fail_restore_state
    | ResumeStart(h: nat)
    | ResumeFinish(h: nat)
    | StartCall(h: nat, target: nat)

  predicate Shaped(s: State, n: nat) { |s.st| == |s.pc| == |s.stops| == |s.wins| == n }

  /** After sbi_hsm_init on the cold-boot hart: it is about to start, the others are stopped and on
      their way through warm boot, or still off. */
  predicate Init(s: State, n: nat, boot: nat) {
    && Shaped(s, n) && boot < n
    && forall h | 0 <= h < n ::
         && s.wins[h] == 0
         && (h == boot ==> s.st[h] == StartPending && s.pc[h] == Booting && s.stops[h] == 0)
         && (h != boot ==> s.st[h] == Stopped && (s.pc[h] == WarmEntry || s.pc[h] == PoweredOff) && s.stops[h] == 1)
  }

  predicate Enabled(s: State, a: Action, n: nat) {
    && Shaped(s, n) && a.h < n
    && var p := s.pc[a.h];
    match a
    case ReadState(_) => p == WarmEntry
    case SeePending(h) => p == WarmWait && s.st[h] == StartPending
    case Jump(_) => p == WarmStart || p == Booting
    case StopCall(_) => p == Running || p == Stopping
    case ExitHart(_, _) => p == Stopping
    case PowerOn(_) => p == PoweredOff
    case SuspendCall(_) => p == Running
    case EndSuspend(_, _) => p == InSuspend
    case Restore(_) => p == Restoring
    case ResumeStart(_) => p == ResumeBegin
    case ResumeFinish(_) => p == Resuming
    case StartCall(_, target) => (p == Running || p == Booting) && target < n
  }

  /** A compare-and-swap of hart h on its own word, with the control points for success and failure. */
  function Swap(s: State, h: nat, old': St, new': St, good: Pc, bad: Pc): State
    requires h < |s.st| == |s.pc|
  {
    if s.st[h] == old' then s.(st := s.st[h := new'], pc := s.pc[h := good]) else s.(pc := s.pc[h := bad])
  }

  function Step(s: State, a: Action, n: nat): State
    requires Enabled(s, a, n)
  {
    match a
    case ReadState(h) => s.(pc := s.pc[h := if s.st[h] == Suspended then ResumeBegin else WarmWait])
    case SeePending(h) => s.(pc := s.pc[h := WarmStart])
    case Jump(h) => Swap(s, h, StartPending, Started, Running, Hang)
    case StopCall(h) => Swap(s, h, Started, StopPending, Stopping, s.pc[h])
    case ExitHart(h, off) =>
      var s' := Swap(s, h, StopPending, Stopped, if off then PoweredOff else WarmEntry, Hang);
      if s.st[h] == StopPending then s'.(stops := s.stops[h := s.stops[h] + 1]) else s'
    case PowerOn(h) => s.(pc := s.pc[h := WarmEntry])
    case SuspendCall(h) => Swap(s, h, Started, Suspended, InSuspend, Restoring)
    case EndSuspend(h, warm) => s.(pc := s.pc[h := if warm then WarmEntry else Restoring])
    case Restore(h) => Swap(s, h, Suspended, Started, Running, Hang)
    case ResumeStart(h) => Swap(s, h, Suspended, ResumePending, Resuming, Hang)
    case ResumeFinish(h) => Swap(s, h, ResumePending, Started, Running, Hang)
    case StartCall(h, target) =>
      if s.st[target] == Stopped then s.(st := s.st[target := StartPending],
                                         wins := s.wins[target := s.wins[target] + 1]) else s
  }

  /** The answers of sbi_hsm_hart_start. */
  datatype Answer = Success | Already | Invalid

  function StartAnswer(st: St): Answer {
    if st == Stopped then Success else if st == Started then Already else Invalid
  }

  ghost predicate Run(run: seq<State>, acts: seq<Action>, n: nat, boot: nat) {
    && |run| == |acts| + 1 && Init(run[0], n, boot)
    && forall i | 0 <= i < |acts| :: Enabled(run[i], acts[i], n) && run[i + 1] == Step(run[i], acts[i], n)
  }

  // ---------------------------------------------------------------- the invariant

  /** The states a control point allows: one, up to the step from stopped to start-pending that
      another hart takes; a hart entering warm boot may also come out of suspend. */
  predicate Fits(p: Pc, st: St) {
    match p
    case Booting | WarmStart => st == StartPending
    case WarmEntry => st == Stopped || st == StartPending || st == Suspended
    case WarmWait | PoweredOff => st == Stopped || st == StartPending
    case ResumeBegin | InSuspend | Restoring => st == Suspended
    case Resuming => st == ResumePending
    case Running => st == Started
    case Stopping => st == StopPending
    case Hang => false
  }

  ghost predicate HartOk(s: State, h: nat)
    requires h < |s.st| == |s.pc| == |s.stops| == |s.wins|
  {
    && Fits(s.pc[h], s.st[h])
    && s.wins[h] + (if s.st[h] == Stopped then 1 else 0) == s.stops[h]
  }

  ghost predicate Inv(s: State, n: nat) {
    Shaped(s, n) && forall h: nat | h < n :: HartOk(s, h)
  }

  lemma StepKeeps(s: State, a: Action, n: nat)
    requires Inv(s, n) && Enabled(s, a, n)
    ensures Inv(Step(s, a, n), n)
  {
    var s' := Step(s, a, n);
    assert HartOk(s, a.h);
    forall g: nat | g < n ensures HartOk(s', g) { assert HartOk(s, g); }
  }

  lemma {:induction false} RunKeeps(run: seq<State>, acts: seq<Action>, n: nat, boot: nat)
    requires Run(run, acts, n, boot)
    ensures forall i | 0 <= i < |run| :: Inv(run[i], n)
  {
    if acts != [] {
      var k := |acts| - 1;
      RunKeeps(run[..k + 1], acts[..k], n, boot);
      assert run[..k + 1][k] == run[k];
      hide Inv, Enabled, Step;
      StepKeeps(run[k], acts[k], n);
    }
  }

  // ---------------------------------------------------------------- main results

  /** The control point of a hart fixes its state, and no hart ever hangs. */
  lemma ControlFixesState(run: seq<State>, acts: seq<Action>, n: nat, boot: nat, i: nat, h: nat)
    requires Run(run, acts, n, boot) && i < |run| && h < n
    ensures Shaped(run[i], n) && Fits(run[i].pc[h], run[i].st[h]) && run[i].pc[h] != Hang
  {
    RunKeeps(run, acts, n, boot);
    assert HartOk(run[i], h);
  }

  /** The state a hart's exchange on its own word expects. */
  function Expected(a: Action): Option<St> {
    match a
    case Jump(_) => Some(StartPending)
    case StopCall(_) => Some(Started)
    case ExitHart(_, _) => Some(StopPending)
    case SuspendCall(_) => Some(Started)
    case Restore(_) => Some(Suspended)
    case ResumeStart(_) => Some(Suspended)
    case ResumeFinish(_) => Some(ResumePending)
    case _ => None
  }

  /** An exchange a hart makes on its own word fails exactly when it is a stop repeated while the hart
      is already stopping; that one answers with an error and changes nothing. */
  lemma OwnSwapsExactly(run: seq<State>, acts: seq<Action>, n: nat, boot: nat, i: nat)
    requires Run(run, acts, n, boot) && i < |acts| && Expected(acts[i]).Some?
    ensures Shaped(run[i], n) && acts[i].h < n
    ensures var s, a := run[i], acts[i];
      && (s.st[a.h] != Expected(a).value <==> a.StopCall? && s.pc[a.h] == Stopping)
      && (s.st[a.h] != Expected(a).value ==> run[i + 1] == s)
  {
    RunKeeps(run, acts, n, boot);
    assert HartOk(run[i], acts[i].h);
  }

  /** Such a failure happens: a running hart stops, and meets another stop on its way out. */
  lemma RepeatedStop(s: State, n: nat, h: nat)
    requires Inv(s, n) && h < n && s.pc[h] == Running
    ensures Enabled(s, StopCall(h), n)
    ensures var t := Step(s, StopCall(h), n);
      t.st[h] == StopPending && Enabled(t, StopCall(h), n) && Step(t, StopCall(h), n) == t
  {
    assert HartOk(s, h);
    var t := Step(s, StopCall(h), n);
    assert t.pc[h := t.pc[h]] == t.pc;
  }

  /** What a start call answers, in terms of where its target is: it succeeds exactly when it changes
      the target's state, which then is off or waiting to be started; it answers that the target
      already runs exactly when it does; a target on its way up, down, or in suspend makes the call
      invalid, and those change nothing. */
  lemma StartAnswers(run: seq<State>, acts: seq<Action>, n: nat, boot: nat, i: nat)
    requires Run(run, acts, n, boot) && i < |acts| && acts[i].StartCall?
    ensures Shaped(run[i], n) && Shaped(run[i + 1], n) && acts[i].target < n
    ensures var t := acts[i].target;
      var answer, p := StartAnswer(run[i].st[t]), run[i].pc[t];
      && (answer == Success <==> run[i].st[t] != run[i + 1].st[t])
      && (answer == Success ==>
            run[i + 1].st[t] == StartPending && (p == WarmEntry || p == WarmWait || p == PoweredOff))
      && (answer == Already <==> p == Running)
      && (answer == Invalid <== p == Booting || p == WarmStart || p == Stopping || p == InSuspend || p == Restoring
                                 || p == ResumeBegin || p == Resuming)
      && (answer != Success ==> run[i + 1] == run[i])
  {
    RunKeeps(run, acts, n, boot);
    assert HartOk(run[i], acts[i].target);
    assert Inv(run[i + 1], n);
  }

  /** Start calls on hart h that answer Success between two states of a run. */
  ghost function Successes(run: seq<State>, acts: seq<Action>, n: nat, h: nat, i: nat, j: nat): nat
    requires i <= j <= |acts| && |run| == |acts| + 1
    decreases j - i
  {
    if i == j then 0
    else Successes(run, acts, n, h, i, j - 1) + (if IsSuccess(run[j - 1], acts[j - 1], h) then 1 else 0)
  }

  predicate IsSuccess(s: State, a: Action, h: nat) {
    a.StartCall? && a.target == h && h < |s.st| && StartAnswer(s.st[h]) == Success
  }

  /** ... and how often hart h enters the stopped state between them. */
  ghost function Stops(run: seq<State>, acts: seq<Action>, n: nat, h: nat, i: nat, j: nat): nat
    requires i <= j <= |acts| && |run| == |acts| + 1
    decreases j - i
  {
    if i == j then 0
    else Stops(run, acts, n, h, i, j - 1) + (if IsStop(run[j - 1], acts[j - 1], h) then 1 else 0)
  }

  predicate IsStop(s: State, a: Action, h: nat) {
    a.ExitHart? && a.h == h && h < |s.st| && s.st[h] == StopPending
  }

  lemma CountStep(s: State, a: Action, n: nat, h: nat)
    requires Enabled(s, a, n) && h < n
    ensures Shaped(Step(s, a, n), n)
    ensures Step(s, a, n).wins[h] == s.wins[h] + if IsSuccess(s, a, h) then 1 else 0
    ensures Step(s, a, n).stops[h] == s.stops[h] + if IsStop(s, a, h) then 1 else 0
  {
  }

  lemma {:induction false} Counts(run: seq<State>, acts: seq<Action>, n: nat, boot: nat, h: nat, i: nat, j: nat)
    requires Run(run, acts, n, boot) && i <= j <= |acts| && h < n
    ensures Shaped(run[i], n) && Shaped(run[j], n)
    ensures run[j].wins[h] == run[i].wins[h] + Successes(run, acts, n, h, i, j)
    ensures run[j].stops[h] == run[i].stops[h] + Stops(run, acts, n, h, i, j)
    decreases j - i
  {
    hide Step, Enabled, IsSuccess, IsStop;
    RunKeeps(run, acts, n, boot);
    assert Inv(run[i], n) && Inv(run[j], n);
    if i < j {
      Counts(run, acts, n, boot, h, i, j - 1);
      CountStep(run[j - 1], acts[j - 1], n, h);
    }
  }

  /** At most one start call wins each stopped period: between any two moments of a run, the calls
      that succeed on a hart are as many as the times it entered the stopped state, corrected by
      whether it is stopped at either end. In particular a period without a stop sees at most one. */
  lemma OneWinnerPerStop(run: seq<State>, acts: seq<Action>, n: nat, boot: nat, h: nat, i: nat, j: nat)
    requires Run(run, acts, n, boot) && i <= j <= |acts| && h < n
    ensures Shaped(run[i], n) && Shaped(run[j], n)
    ensures Successes(run, acts, n, h, i, j) == Stops(run, acts, n, h, i, j)
      + (if run[i].st[h] == Stopped then 1 else 0) - (if run[j].st[h] == Stopped then 1 else 0)
    ensures Stops(run, acts, n, h, i, j) == 0 ==> Successes(run, acts, n, h, i, j) <= 1
  {
    RunKeeps(run, acts, n, boot);
    Counts(run, acts, n, boot, h, i, j);
    assert HartOk(run[i], h) && HartOk(run[j], h);
  }

  /** A start call that succeeds is not lost: the hart stays start-pending until it jumps. */
  lemma PendingUntilJump(s: State, a: Action, n: nat, h: nat)
    requires Inv(s, n) && Enabled(s, a, n) && h < n && s.st[h] == StartPending
    ensures Step(s, a, n).st[h] == if a == Jump(h) then Started else StartPending
  {
    assert HartOk(s, h);
  }

  // ---------------------------------------------------------------- a won start completes

  /** The steps are taken in turn, each one enabled and each one by hart h. */
  ghost predicate OwnSteps(s: State, acts: seq<Action>, last: State, n: nat, h: nat)
    decreases |acts|
  {
    if acts == [] then last == s
    else acts[0].h == h && Enabled(s, acts[0], n) && OwnSteps(Step(s, acts[0], n), acts[1..], last, n, h)
  }

  lemma OneMore(s: State, a: Action, acts: seq<Action>, last: State, n: nat, h: nat)
    requires a.h == h && Enabled(s, a, n) && OwnSteps(Step(s, a, n), acts, last, n, h)
    ensures OwnSteps(s, [a] + acts, last, n, h)
  {
    assert ([a] + acts)[0] == a && ([a] + acts)[1..] == acts;
  }

  /** How far a hart with a pending start is from its next stage. */
  function Distance(p: Pc): nat {
    match p
    case PoweredOff => 4
    case WarmEntry => 3
    case WarmWait => 2
    case _ => 1
  }

  /** Wherever a hart is when a start call on it has succeeded, its own steps alone take it to its next
      stage, and change nobody else's state. */
  lemma {:induction false} StartCompletes(s: State, n: nat, h: nat) returns (acts: seq<Action>, last: State)
    requires Inv(s, n) && h < n && s.st[h] == StartPending
    ensures OwnSteps(s, acts, last, n, h) && Shaped(last, n) && last.pc[h] == Running
    ensures last.st == s.st[h := Started] && forall g | 0 <= g < n && g != h :: last.pc[g] == s.pc[g]
    decreases Distance(s.pc[h])
  {
    assert HartOk(s, h);
    var a := match s.pc[h]
      case PoweredOff => PowerOn(h)
      case WarmEntry => ReadState(h)
      case WarmWait => SeePending(h)
      case _ => Jump(h);
    var s1 := Step(s, a, n);
    if a == Jump(h) {
      acts, last := [a], s1;
      assert OwnSteps(s1, [], s1, n, h);
      OneMore(s, a, [], s1, n, h);
      assert [a] + [] == [a];
    } else {
      StepKeeps(s, a, n);
      var rest;
      rest, last := StartCompletes(s1, n, h);
      acts := [a] + rest;
      OneMore(s, a, rest, last, n, h);
    }
  }
}
