/** The ticket lock of opensbi-1.2/lib/sbi/riscv_locks.c, as atomic steps of n contenders. */
module TicketLock {
  import opened Common

  const TICKETS: nat := 0x1_0000

  /** Where a contender is: outside, spinning with a ticket, or inside. The ticket is the 16-bit
      value it compares with the owner field. */
  datatype Pc = Outside | Spinning(ticket: nat) | Inside

  /** The two halves of the lock word, the contenders, and two ghosts: how many tickets were ever
      given out, and the running number of each contender's ticket. */
  datatype State = State(owner: nat, next: nat, pc: seq<Pc>, served: nat, issued: nat, number: seq<nat>)

  predicate Init(s: State, n: nat) {
    && s.owner == 0 && s.next == 0 && s.served == 0 && s.issued == 0
    && |s.pc| == n && |s.number| == n && forall h | 0 <= h < n :: s.pc[h] == Outside
  }

  /** What a contender can do: draw a ticket with one atomic addition (and enter at once when it is
      the owner's), find its ticket served, try, and leave. */
  datatype Action = Draw(h: nat) | Enter(h: nat) | Try(h: nat) | Leave(h: nat)

  predicate Enabled(s: State, a: Action) {
    && a.h < |s.pc| && |s.number| == |s.pc|
    && match a
       case Draw(h) => s.pc[h] == Outside
       case Enter(h) => s.pc[h] == Spinning(s.owner)
       case Try(h) => s.pc[h] == Outside
       case Leave(h) => s.pc[h] == Inside
  }

  /** spin_trylock takes a ticket when the halves of the word are equal. */
  predicate TrySucceeds(s: State) { s.owner == s.next }

  /** What it returns: whether the register is 0, which holds the outcome of the conditional store if
      one was made, and the lock word otherwise. */
  predicate TryReturns(s: State) { if s.owner == s.next then true else s.owner + TICKETS * s.next == 0 }

  function Drawn(s: State, h: nat, pc: Pc): State
    requires h < |s.pc| == |s.number|
  {
    s.(next := (s.next + 1) % TICKETS, pc := s.pc[h := pc], issued := s.issued + 1, number := s.number[h := s.issued])
  }

  function Step(s: State, a: Action): State
    requires Enabled(s, a)
  {
    match a
    case Draw(h) => Drawn(s, h, if s.next == s.owner then Inside else Spinning(s.next))
    case Enter(h) => s.(pc := s.pc[h := Inside])
    case Try(h) => if TrySucceeds(s) then Drawn(s, h, Inside) else s
    case Leave(h) => s.(owner := (s.owner + 1) % TICKETS, pc := s.pc[h := Outside], served := s.served + 1)
  }

  /** A run: every state follows from the one before. */
  ghost predicate Run(run: seq<State>, acts: seq<Action>, n: nat) {
    && |run| == |acts| + 1 && Init(run[0], n)
    && forall i | 0 <= i < |acts| :: Enabled(run[i], acts[i]) && run[i + 1] == Step(run[i], acts[i])
  }

  // ---------------------------------------------------------------- the invariant

  ghost function Active(pc: seq<Pc>): set<nat> { set h: nat | h < |pc| && pc[h] != Outside }

  /** Contender h's ticket is one of those not yet served; inside is who has the oldest. */
  ghost predicate TicketOk(s: State, h: nat)
    requires h < |s.pc| == |s.number|
  {
    s.pc[h] != Outside ==>
      && s.served <= s.number[h] < s.issued
      && (s.pc[h] == Inside ==> s.number[h] == s.served)
      && (s.pc[h].Spinning? ==> s.pc[h].ticket == s.number[h] % TICKETS)
  }

  ghost predicate Inv(s: State, n: nat) {
    && |s.pc| == |s.number| == n
    && s.owner == s.served % TICKETS && s.next == s.issued % TICKETS
    && (forall h: nat | h < n :: TicketOk(s, h))
    && (forall h: nat, g: nat | h < n && g < n && h != g && s.pc[h] != Outside && s.pc[g] != Outside ::
          s.number[h] != s.number[g])
    && s.served + |Active(s.pc)| == s.issued
  }

  lemma ActiveBound(pc: seq<Pc>)
    ensures |Active(pc)| <= |pc|
    ensures (exists h: nat :: h < |pc| && pc[h] == Outside) ==> |Active(pc)| < |pc|
  {
    UpToSize(|pc|);
    SubsetSize(Active(pc), UpTo(|pc|));
    if h: nat :| h < |pc| && pc[h] == Outside {
      SubsetSize(Active(pc), UpTo(|pc|) - {h});
    }
  }

  lemma {:induction false} UpToSize(n: nat)
    ensures |UpTo(n)| == n
  {
    if n > 0 {
      UpToSize(n - 1);
    }
  }

  lemma {:induction false} SubsetSize(a: set<nat>, b: set<nat>)
    requires a <= b
    ensures |a| <= |b|
    decreases a
  {
    if a != {} {
      var x :| x in a;
      SubsetSize(a - {x}, b - {x});
    }
  }

  /** Tickets less than 2^16 apart that look the same are the same. */
  lemma SameTicket(a: nat, b: nat)
    requires a <= b < a + TICKETS && a % TICKETS == b % TICKETS
    ensures a == b
  {
  }

  lemma ActiveSet(pc: seq<Pc>, h: nat, p: Pc)
    requires h < |pc|
    ensures |Active(pc[h := p])| ==
      |Active(pc)| + (if p != Outside then 1 else 0) - (if pc[h] != Outside then 1 else 0)
  {
    var a, b := Active(pc), Active(pc[h := p]);
    assert a - {h} == b - {h};
    assert h in a <==> pc[h] != Outside;
    assert h in b <==> p != Outside;
    assert |a - {h}| == |a| - (if h in a then 1 else 0);
    assert |b - {h}| == |b| - (if h in b then 1 else 0);
  }

  /** Equal halves mean that nobody has a ticket. */
  lemma DrawFirst(s: State, n: nat, h: nat)
    requires Inv(s, n) && n <= TICKETS && h < n && s.pc[h] == Outside
    ensures s.owner == s.next <==> s.served == s.issued
  {
    ActiveBound(s.pc);
    hide Active;
    if s.owner == s.next {
      SameTicket(s.served, s.issued);
    }
  }

  lemma DrawnKeeps(s: State, n: nat, h: nat)
    requires Inv(s, n) && n <= TICKETS && h < n && s.pc[h] == Outside
    ensures Inv(Drawn(s, h, Spinning(s.next)), n)
    ensures s.next == s.owner ==> Inv(Drawn(s, h, Inside), n)
  {
    hide Active;
    DrawFirst(s, n, h);
    ActiveSet(s.pc, h, Inside);
    ActiveSet(s.pc, h, Spinning(s.next));
    assert (s.issued % TICKETS + 1) % TICKETS == (s.issued + 1) % TICKETS;
    forall g: nat | g < n && g != h && s.pc[g] != Outside ensures s.number[g] < s.issued { assert TicketOk(s, g); }
    forall g: nat | g < n
      ensures TicketOk(Drawn(s, h, Spinning(s.next)), g)
      ensures s.next == s.owner ==> TicketOk(Drawn(s, h, Inside), g)
    {
      assert TicketOk(s, g);
    }
  }

  lemma EnterKeeps(s: State, n: nat, h: nat)
    requires Inv(s, n) && n <= TICKETS && h < n && s.pc[h] == Spinning(s.owner)
    ensures Inv(Step(s, Enter(h)), n)
  {
    ActiveBound(s.pc);
    hide Active;
    ActiveSet(s.pc, h, Inside);
    assert TicketOk(s, h);
    SameTicket(s.served, s.number[h]);
    var s' := Step(s, Enter(h));
    forall g: nat | g < n ensures TicketOk(s', g) { assert TicketOk(s, g); }
  }

  lemma LeaveKeeps(s: State, n: nat, h: nat)
    requires Inv(s, n) && h < n && s.pc[h] == Inside
    ensures Inv(Step(s, Leave(h)), n)
  {
    hide Active;
    ActiveSet(s.pc, h, Outside);
    assert TicketOk(s, h);
    var s' := Step(s, Leave(h));
    forall g: nat | g < n ensures TicketOk(s', g) { assert TicketOk(s, g); }
  }

  lemma StepKeeps(s: State, a: Action, n: nat)
    requires Inv(s, n) && n <= TICKETS && Enabled(s, a)
    ensures Inv(Step(s, a), n)
  {
    hide Inv, Drawn;
    Sizes(s, n);
    match a
    case Draw(h) => DrawnKeeps(s, n, h);
    case Enter(h) => EnterKeeps(s, n, h);
    case Try(h) => DrawnKeeps(s, n, h);
    case Leave(h) => LeaveKeeps(s, n, h);
  }

  lemma {:induction false} RunKeeps(run: seq<State>, acts: seq<Action>, n: nat)
    requires Run(run, acts, n) && n <= TICKETS
    ensures forall i | 0 <= i < |run| :: Inv(run[i], n)
  {
    if acts == [] {
      assert Active(run[0].pc) == {};
    } else {
      var k := |acts| - 1;
      RunKeeps(run[..k + 1], acts[..k], n);
      assert run[..k + 1][k] == run[k];
      StepKeeps(run[k], acts[k], n);
    }
  }

  // ---------------------------------------------------------------- main results

  predicate Exclusive(s: State) {
    forall h, g | 0 <= h < g < |s.pc| :: !(s.pc[h] == Inside && s.pc[g] == Inside)
  }

  /** Contender h came before g: its ticket was drawn earlier. Who is inside came before everybody
      who spins, and who enters next is the one that came first. */
  ghost predicate FirstCome(s: State)
    requires |s.number| == |s.pc|
  {
    && (forall h, g | 0 <= h < |s.pc| && 0 <= g < |s.pc| && s.pc[h] == Inside && s.pc[g].Spinning? ::
          s.number[h] < s.number[g])
    && (forall h, g | && 0 <= h < |s.pc| && 0 <= g < |s.pc| && g != h
                      && s.pc[h] == Spinning(s.owner) && s.pc[g].Spinning? ::
          s.number[h] < s.number[g])
  }

  lemma InvMeans(s: State, n: nat)
    requires Inv(s, n) && n <= TICKETS
    ensures Exclusive(s) && FirstCome(s)
  {
    hide Active;
    ActiveBound(s.pc);
    forall h, g | 0 <= h < n && 0 <= g < n && g != h && s.pc[h] != Outside && s.pc[g] != Outside
      ensures !(s.pc[h] == Inside && s.pc[g] == Inside)
      ensures s.pc[h] == Inside || s.pc[h] == Spinning(s.owner) ==> s.number[h] < s.number[g]
    {
      assert TicketOk(s, h) && TicketOk(s, g);
      if s.pc[h] == Spinning(s.owner) {
        SameTicket(s.served, s.number[h]);
      }
    }
  }

  /** With at most 2^16 contenders every run keeps mutual exclusion and first-come order, across any
      number of wraps of the two counters. */
  lemma Safety(run: seq<State>, acts: seq<Action>, n: nat)
    requires Run(run, acts, n) && n <= TICKETS
    ensures forall i | 0 <= i < |run| :: |run[i].number| == |run[i].pc| && Exclusive(run[i]) && FirstCome(run[i])
  {
    hide Inv;
    RunKeeps(run, acts, n);
    forall i | 0 <= i < |run|
      ensures |run[i].number| == |run[i].pc| && Exclusive(run[i]) && FirstCome(run[i])
    {
      Sizes(run[i], n);
      InvMeans(run[i], n);
    }
  }

  lemma Sizes(s: State, n: nat)
    requires Inv(s, n)
    ensures |s.number| == |s.pc| == n
  {
  }

  /** spin_trylock succeeds exactly when nobody is inside or waiting, and then the caller is inside. */
  lemma TryExact(s: State, n: nat, h: nat)
    requires Inv(s, n) && n <= TICKETS && h < n && s.pc[h] == Outside
    ensures TryReturns(s) <==> forall g | 0 <= g < n :: s.pc[g] == Outside
    ensures TryReturns(s) <==> Step(s, Try(h)).pc[h] == Inside
  {
    DrawFirst(s, n, h);
    if forall g | 0 <= g < n :: s.pc[g] == Outside {
      assert Active(s.pc) == {};
    }
    if s.served == s.issued {
      assert |Active(s.pc)| == 0;
      forall g: nat | g < n ensures s.pc[g] == Outside { assert g !in Active(s.pc); }
    }
  }

  // ---------------------------------------------------------------- and not more

  /** Contenders 0 .. k - 1 have drawn a ticket each and nobody has left. */
  function Crowd(n: nat, k: nat): State {
    State(0, k % TICKETS,
          seq(n, (h: nat) => if h >= k then Outside else if h % TICKETS == 0 then Inside else Spinning(h % TICKETS)),
          0, k, seq(n, (h: nat) => if h >= k then 0 else h))
  }

  lemma CrowdGrows(n: nat, k: nat)
    requires k < n
    ensures Enabled(Crowd(n, k), Draw(k)) && Step(Crowd(n, k), Draw(k)) == Crowd(n, k + 1)
  {
    assert (k % TICKETS + 1) % TICKETS == (k + 1) % TICKETS;
    assert Step(Crowd(n, k), Draw(k)).pc == Crowd(n, k + 1).pc;
    assert Step(Crowd(n, k), Draw(k)).number == Crowd(n, k + 1).number;
  }

  lemma {:induction false} CrowdRun(n: nat, k: nat) returns (run: seq<State>, acts: seq<Action>)
    requires k <= n
    ensures Run(run, acts, n) && run[|run| - 1] == Crowd(n, k)
  {
    if k == 0 {
      run, acts := [Crowd(n, 0)], [];
    } else {
      run, acts := CrowdRun(n, k - 1);
      CrowdGrows(n, k - 1);
      run, acts := run + [Crowd(n, k)], acts + [Draw(k - 1)];
    }
  }

  ghost predicate AlwaysExclusive(n: nat) {
    forall run, acts | Run(run, acts, n) :: forall i | 0 <= i < |run| :: Exclusive(run[i])
  }

  /** The bound is exact: mutual exclusion holds in every run of n contenders if and only if n is at
      most 2^16. */
  lemma ExclusionExactly(n: nat)
    ensures AlwaysExclusive(n) <==> n <= TICKETS
  {
    if n <= TICKETS {
      forall run, acts | Run(run, acts, n)
        ensures forall i | 0 <= i < |run| :: Exclusive(run[i])
      {
        Safety(run, acts, n);
      }
    } else {
      var run, acts := CrowdRun(n, TICKETS + 1);
      var s := run[|run| - 1];
      assert s.pc[0] == Inside && s.pc[TICKETS] == Inside;
      assert !Exclusive(s);
    }
  }
}
