/** The remote TLB shootdown protocol of opensbi-1.2/lib/sbi/sbi_tlb.c and sbi_ipi.c as a step
    system over any number of harts. One step is one atomic access to shared memory (a FIFO
    operation under its lock, an exchange of a tlb_sync word, an update of an ipi_type word) or
    one flush. Failed polls (a full FIFO, a tlb_sync word that is still clear) change nothing
    and are not steps. */
module TlbProtocol {
  import opened Common
  import opened Fifo
  import opened TlbFlush

  const FIFO_ENTRIES: nat := 8

  /** One run of sbi_ipi_send_many for a request. `sent` is the request as the caller passed it,
      `info` the possibly upgraded copy, `began` the length of the flush log when it started,
      `next` the position of the target being served. */
  datatype Req = Req(sent: Info, info: Info, began: nat, targets: seq<nat>, next: nat) {
    predicate Pending() { next < |targets| }
    function Target(): nat requires Pending() { targets[next] }
    function Advance(): Req { this.(next := next + 1) }
  }

  /** Control point of a hart. Idle is outside the TLB code; Draining is tlb_process, entered by
      an IPI; the others are the points of sbi_ipi_send with the tlb event. */
  datatype Phase =
    | Idle
    | Draining
    | Update(req: Req)
    | Enqueue(req: Req)
    | Notify(req: Req)
    | Await(req: Req)

  /** The entry tlb_entry_process is working on, if any. */
  datatype Service = Free | Flush(entry: Info) | Signal(entry: Info, left: set<nat>)

  datatype Hart = Hart(fifo: seq<Info>, sync: bool, ipi: bool, phase: Phase, service: Service)

  /** A flush that has run. */
  datatype Event = Event(hart: nat, info: Info)

  /** `limit` is tlb_range_flush_limit; `log` is the history of flushes. */
  datatype State = State(harts: seq<Hart>, limit: Word, log: seq<Event>)

  datatype Step =
    | Request(h: nat, info: Info, targets: seq<nat>)
    | Return(h: nat)
    | SelfFlush(h: nat)
    | TryMerge(h: nat)
    | DoEnqueue(h: nat)
    | SendIpi(h: nat)
    | TakeSync(h: nat)
    | Interrupt(h: nat)
    | EndDrain(h: nat)
    | Dequeue(h: nat)
    | RunFlush(h: nat)
    | SignalOne(h: nat, s: nat)
    | EndService(h: nat)

  ghost function Initial(n: nat, limit: Word): State {
    State(seq(n, _ => Hart([], false, false, Idle, Free)), limit, [])
  }

  // ---------------------------------------------------------------- steps

  /** A hart serves its own FIFO from tlb_process, from the wait for FIFO room in tlb_update and
      from the wait in tlb_sync. */
  predicate MayServe(p: Phase) { p.Draining? || p.Enqueue? || p.Await? }

  predicate OpenPhase(p: Phase) { p.Notify? || p.Await? }

  ghost predicate Enabled(st: State, step: Step) {
    && step.h < |st.harts|
    && var me := st.harts[step.h];
    match step
    case Request(h, info, targets) =>
      && me.phase.Idle? && me.service.Free?
      && info.smask == {h}
      && Admissible(Upgrade(info, st.limit))
      && forall t | t in targets :: t < |st.harts|
    case Return(h) => me.phase.Update? && !me.phase.req.Pending()
    case SelfFlush(h) => me.phase.Update? && me.phase.req.Pending() && me.phase.req.Target() == h
    case TryMerge(h) =>
      && me.phase.Update? && me.phase.req.Pending()
      && me.phase.req.Target() != h && me.phase.req.Target() < |st.harts|
    case DoEnqueue(h) =>
      && me.phase.Enqueue? && me.service.Free? && me.phase.req.Pending()
      && me.phase.req.Target() < |st.harts|
      && |st.harts[me.phase.req.Target()].fifo| < FIFO_ENTRIES
    case SendIpi(h) => me.phase.Notify? && me.phase.req.Pending() && me.phase.req.Target() < |st.harts|
    case TakeSync(h) => me.phase.Await? && me.service.Free? && me.sync
    case Interrupt(h) => me.phase.Idle? && me.service.Free? && me.ipi
    case EndDrain(h) => me.phase.Draining? && me.service.Free? && me.fifo == []
    case Dequeue(h) => MayServe(me.phase) && me.service.Free? && me.fifo != []
    case RunFlush(h) => me.service.Flush?
    case SignalOne(h, s) => me.service.Signal? && s in me.service.left && s < |st.harts| && !st.harts[s].sync
    case EndService(h) => me.service.Signal? && me.service.left == {}
  }

  ghost function Put(st: State, h: nat, hart: Hart): State
    requires h < |st.harts|
  {
    st.(harts := st.harts[h := hart])
  }

  ghost function Apply(st: State, step: Step): (st': State)
    requires Enabled(st, step)
    ensures |st'.harts| == |st.harts|
  {
    var me := st.harts[step.h];
    match step
    case Request(h, info, targets) =>
      Put(st, h, me.(phase := Update(Req(info, info, |st.log|, targets, 0))))
    case Return(h) => Put(st, h, me.(phase := Idle))
    case SelfFlush(h) =>
      var r := me.phase.req.(info := Upgrade(me.phase.req.info, st.limit));
      Put(st, h, me.(phase := Update(r.Advance()))).(log := st.log + [Event(h, r.info)])
    case TryMerge(h) =>
      var r := me.phase.req.(info := Upgrade(me.phase.req.info, st.limit));
      var t := r.Target();
      var (outcome, queue) := Absorb(st.harts[t].fifo, r.info, UpdateCallback);
      if outcome.Unchanged? then Put(st, h, me.(phase := Enqueue(r)))
      else Put(Put(st, t, st.harts[t].(fifo := queue)), h, me.(phase := Notify(r)))
    case DoEnqueue(h) =>
      var r := me.phase.req;
      var t := r.Target();
      var st1 := Put(st, t, st.harts[t].(fifo := st.harts[t].fifo + [r.info]));
      Put(st1, h, st1.harts[h].(phase := Notify(r)))
    case SendIpi(h) =>
      var r := me.phase.req;
      var t := r.Target();
      var st1 := Put(st, t, st.harts[t].(ipi := true));
      Put(st1, h, st1.harts[h].(phase := Await(r)))
    case TakeSync(h) => Put(st, h, me.(sync := false, phase := Update(me.phase.req.Advance())))
    case Interrupt(h) => Put(st, h, me.(ipi := false, phase := Draining))
    case EndDrain(h) => Put(st, h, me.(phase := Idle))
    case Dequeue(h) => Put(st, h, me.(fifo := me.fifo[1..], service := Flush(me.fifo[0])))
    case RunFlush(h) =>
      Put(st, h, me.(service := Signal(me.service.entry, me.service.entry.smask)))
        .(log := st.log + [Event(h, me.service.entry)])
    case SignalOne(h, s) =>
      var st1 := Put(st, h, me.(service := me.service.(left := me.service.left - {s})));
      Put(st1, s, st1.harts[s].(sync := true))
    case EndService(h) => Put(st, h, me.(service := Free))
  }

  /** A run: the steps are taken in turn, each one enabled. */
  ghost predicate Leads(st: State, steps: seq<Step>, last: State)
    decreases |steps|
  {
    if steps == [] then last == st
    else Enabled(st, steps[0]) && Leads(Apply(st, steps[0]), steps[1..], last)
  }

  // ---------------------------------------------------------------- tokens

  /** Places where "hart x has still to be told" or "hart x has been told" can be recorded. */
  datatype Place = InFifo(t: nat, i: nat) | InService(t: nat) | InWord

  ghost predicate Holds(st: State, x: nat, p: Place) {
    match p
    case InFifo(t, i) => t < |st.harts| && i < |st.harts[t].fifo| && x in st.harts[t].fifo[i].smask
    case InService(t) =>
      && t < |st.harts|
      && (st.harts[t].service.Flush? ==> x in st.harts[t].service.entry.smask)
      && (st.harts[t].service.Signal? ==> x in st.harts[t].service.left)
      && !st.harts[t].service.Free?
    case InWord => x < |st.harts| && st.harts[x].sync
  }

  ghost predicate Only(st: State, x: nat, p: Place) {
    Holds(st, x, p) && forall q :: Holds(st, x, q) ==> q == p
  }

  /** Since the request began, hart t has run a flush that covers what was asked for. */
  ghost predicate Flushed(st: State, r: Req, t: nat) {
    exists k | r.began <= k < |st.log| :: st.log[k].hart == t && Covers(st.log[k].info, r.sent)
  }

  /** The token of an open request of hart x sits at p and speaks for that request. */
  ghost predicate Speaks(st: State, r: Req, p: Place)
    requires r.Pending()
  {
    match p
    case InFifo(t, i) =>
      t == r.Target() && t < |st.harts| && i < |st.harts[t].fifo| && Covers(st.harts[t].fifo[i], r.sent)
    case InService(t) =>
      && t == r.Target() && t < |st.harts|
      && (st.harts[t].service.Flush? ==> Covers(st.harts[t].service.entry, r.sent))
      && (st.harts[t].service.Signal? ==> Flushed(st, r, t))
    case InWord => Flushed(st, r, r.Target())
  }

  ghost predicate TokenAt(st: State, x: nat, p: Place)
    requires x < |st.harts| && OpenPhase(st.harts[x].phase)
  {
    var r := st.harts[x].phase.req;
    r.Pending() && Only(st, x, p) && Speaks(st, r, p)
  }

  /** Exactly one token exists for a hart with an open request, and none for any other. */
  ghost predicate TokenOk(st: State, x: nat)
    requires x < |st.harts|
  {
    if OpenPhase(st.harts[x].phase) then exists p :: TokenAt(st, x, p)
    else forall p :: !Holds(st, x, p)
  }

  // ---------------------------------------------------------------- invariant

  ghost predicate ReqOk(st: State, x: nat, r: Req) {
    && r.next <= |r.targets| && r.began <= |st.log|
    && r.info.smask == {x} && r.sent.smask == {x}
    && Admissible(Upgrade(r.info, st.limit))
    && Covers(r.info, r.sent)
    && (forall t | t in r.targets :: t < |st.harts|)
    && (forall i | 0 <= i < r.next :: Flushed(st, r, r.targets[i]))
  }

  ghost predicate HartOk(st: State, x: nat)
    requires x < |st.harts|
  {
    var me := st.harts[x];
    && (!me.phase.Idle? && !me.phase.Draining? ==> ReqOk(st, x, me.phase.req))
    && (me.phase.Enqueue? || me.phase.Notify? || me.phase.Await? ==>
          me.phase.req.Pending() && me.phase.req.Target() != x && Admissible(me.phase.req.info))
    && (me.phase.Idle? || me.phase.Update? || me.phase.Notify? ==> me.service.Free?)
    && |me.fifo| <= FIFO_ENTRIES
    && (forall i | 0 <= i < |me.fifo| :: Admissible(me.fifo[i]) && SendersOk(st, me.fifo[i].smask))
    && (me.service.Flush? ==> SendersOk(st, me.service.entry.smask))
    && (me.service.Signal? ==> SendersOk(st, me.service.left))
  }

  ghost predicate SendersOk(st: State, smask: set<nat>) {
    forall s | s in smask :: s < |st.harts|
  }

  /** A waiting entry cannot be forgotten: its hart is draining, has an IPI pending, or some
      sender is about to raise one. */
  ghost predicate IpiOk(st: State, t: nat)
    requires t < |st.harts|
  {
    st.harts[t].fifo != [] ==>
      st.harts[t].ipi || st.harts[t].phase.Draining? || exists h :: AboutToNotify(st, h, t)
  }

  ghost predicate AboutToNotify(st: State, h: nat, t: nat) {
    && h < |st.harts| && st.harts[h].phase.Notify?
    && st.harts[h].phase.req.Pending() && st.harts[h].phase.req.Target() == t
  }

  ghost predicate Inv(st: State) {
    forall x | 0 <= x < |st.harts| :: HartOk(st, x) && TokenOk(st, x) && IpiOk(st, x)
  }

  // ---------------------------------------------------------------- every step keeps it

  lemma InitialInv(n: nat, limit: Word)
    ensures Inv(Initial(n, limit))
  {
  }

  /** A log that only grows keeps every flush it recorded. */
  lemma FlushedStays(st: State, st': State, r: Req, t: nat)
    requires Flushed(st, r, t) && st.log <= st'.log
    ensures Flushed(st', r, t)
  {
    var k :| r.began <= k < |st.log| && st.log[k].hart == t && Covers(st.log[k].info, r.sent);
    assert st'.log[k] == st.log[k];
  }

  lemma ReqStays(st: State, st': State, x: nat, r: Req)
    requires ReqOk(st, x, r) && st.log <= st'.log && |st.harts| == |st'.harts| && st.limit == st'.limit
    ensures ReqOk(st', x, r)
  {
    forall i | 0 <= i < r.next
      ensures Flushed(st', r, r.targets[i])
    {
      FlushedStays(st, st', r, r.targets[i]);
    }
  }

  /** What TryMerge does to the target's queue. */
  lemma MergeSlot(queue: seq<Info>, info: Info) returns (k: nat)
    requires Admissible(info) && forall i | 0 <= i < |queue| :: Admissible(queue[i])
    ensures k <= |queue|
    ensures k == |queue| ==> Absorb(queue, info, UpdateCallback) == (Unchanged, queue)
    ensures k < |queue| ==>
      var (outcome, queue') := Absorb(queue, info, UpdateCallback);
      && !outcome.Unchanged?
      && |queue'| == |queue|
      && (forall i | 0 <= i < |queue| && i != k :: queue'[i] == queue[i])
      && Covers(queue'[k], queue[k]) && Covers(queue'[k], info)
      && queue'[k].smask == queue[k].smask + info.smask
      && Admissible(queue'[k])
  {
    k := AbsorbChangesOneSlot(queue, info, UpdateCallback);
    if k < |queue| {
      MergeCovers(info, queue[k]);
    }
  }

  /** Hart x kept its queue, control point and current entry. */
  predicate SameWork(st: State, st': State, x: nat)
    requires x < |st.harts| == |st'.harts|
  {
    && st.harts[x].fifo == st'.harts[x].fifo
    && st.harts[x].phase == st'.harts[x].phase
    && st.harts[x].service == st'.harts[x].service
  }

  lemma HartStays(st: State, st': State, x: nat)
    requires x < |st.harts| == |st'.harts| && st.log <= st'.log && st.limit == st'.limit
    requires HartOk(st, x) && SameWork(st, st', x)
    ensures HartOk(st', x)
  {
    var me := st.harts[x];
    if !me.phase.Idle? && !me.phase.Draining? {
      ReqStays(st, st', x, me.phase.req);
    }
  }

  lemma MergeHart(st: State, h: nat, x: nat)
    requires Inv(st) && Enabled(st, TryMerge(h)) && x < |st.harts|
    ensures HartOk(Apply(st, TryMerge(h)), x)
  {
    hide TokenOk, IpiOk, Covers, Admissible, Absorb;
    var st' := Apply(st, TryMerge(h));
    assert HartOk(st, h) && HartOk(st, x);
    var r := st.harts[h].phase.req;
    var info := Upgrade(r.info, st.limit);
    var t := r.Target();
    assert HartOk(st, t);
    var k := MergeSlot(st.harts[t].fifo, info);
    if x == h {
      ReqStays(st, st', h, r);
      UpgradeCovers(r.info, st.limit);
      CoversTransitive(info, r.info, r.sent);
      var r' := r.(info := info);
      forall i | 0 <= i < r'.next
        ensures Flushed(st', r', r'.targets[i])
      {
        assert Flushed(st', r, r.targets[i]);
      }
    } else if !st.harts[x].phase.Idle? && !st.harts[x].phase.Draining? {
      ReqStays(st, st', x, st.harts[x].phase.req);
    }
  }

  /** When tlb_sync returns, the current target counts as served. */
  lemma TakeSyncReq(st: State, h: nat)
    requires Inv(st) && Enabled(st, TakeSync(h))
    ensures ReqOk(Apply(st, TakeSync(h)), h, st.harts[h].phase.req.Advance())
  {
    var st' := Apply(st, TakeSync(h));
    assert HartOk(st, h) && TokenOk(st, h);
    var r := st.harts[h].phase.req;
    var p :| TokenAt(st, h, p);
    assert Holds(st, h, InWord);
    assert Flushed(st, r, r.Target());
    var r' := r.Advance();
    forall i | 0 <= i < r'.next
      ensures Flushed(st', r', r'.targets[i])
    {
      FlushedStays(st, st', r, r.targets[i]);
      assert Flushed(st', r, r.targets[i]);
    }
  }

  /** After a local flush the request counts this hart as served. */
  lemma SelfFlushReq(st: State, h: nat)
    requires Inv(st) && Enabled(st, SelfFlush(h))
    ensures ReqOk(Apply(st, SelfFlush(h)), h, Apply(st, SelfFlush(h)).harts[h].phase.req)
  {
    var st' := Apply(st, SelfFlush(h));
    assert HartOk(st, h);
    var r := st.harts[h].phase.req;
    var r' := st'.harts[h].phase.req;
    UpgradeCovers(r.info, st.limit);
    CoversTransitive(r'.info, r.info, r.sent);
    ReqStays(st, st', h, r);
    assert st'.log[|st.log|] == Event(h, r'.info);
    assert Flushed(st', r', h);
    forall i | 0 <= i < r'.next
      ensures Flushed(st', r', r'.targets[i])
    {
      if i < r.next {
        assert Flushed(st', r, r.targets[i]);
      }
    }
  }

  /** Nothing that concerns hart x's token changed, except that entries may cover more and the
      log may have grown. */
  lemma TokenStays(st: State, st': State, x: nat)
    requires |st.harts| == |st'.harts| && x < |st.harts| && st.log <= st'.log
    requires TokenOk(st, x)
    requires OpenPhase(st.harts[x].phase) <==> OpenPhase(st'.harts[x].phase)
    requires OpenPhase(st.harts[x].phase) ==> st'.harts[x].phase.req == st.harts[x].phase.req
    requires forall p :: Holds(st', x, p) <==> Holds(st, x, p)
    requires forall t, i | 0 <= t < |st.harts| && 0 <= i < |st.harts[t].fifo| && x in st.harts[t].fifo[i].smask ::
      i < |st'.harts[t].fifo| && Covers(st'.harts[t].fifo[i], st.harts[t].fifo[i])
    requires forall t | 0 <= t < |st.harts| && Holds(st, x, InService(t)) ::
      && st'.harts[t].service.Flush? == st.harts[t].service.Flush?
      && st'.harts[t].service.Signal? == st.harts[t].service.Signal?
      && (st.harts[t].service.Flush? ==> st'.harts[t].service == st.harts[t].service)
    ensures TokenOk(st', x)
  {
    if OpenPhase(st.harts[x].phase) {
      var p :| TokenAt(st, x, p);
      var r := st.harts[x].phase.req;
      match p {
        case InFifo(t, i) =>
          CoversTransitive(st'.harts[t].fifo[i], st.harts[t].fifo[i], r.sent);
        case InService(t) =>
          if st.harts[t].service.Signal? { FlushedStays(st, st', r, t); }
        case InWord =>
          FlushedStays(st, st', r, r.Target());
      }
      assert TokenAt(st', x, p);
    }
  }

  /** A step that moves no token: hart h goes from one closed control point to another, and may
      drop an entry whose senders have all been told. */
  lemma LocalMove(st: State, st': State, h: nat, me: Hart)
    requires Inv(st) && h < |st.harts|
    requires st'.harts == st.harts[h := me] && st.log <= st'.log && st.limit == st'.limit
    requires me.fifo == st.harts[h].fifo && me.sync == st.harts[h].sync
    requires
      || me.service == st.harts[h].service
      || (me.service.Free? && st.harts[h].service.Signal? && st.harts[h].service.left == {})
    requires me.phase == st.harts[h].phase || (!OpenPhase(me.phase) && !OpenPhase(st.harts[h].phase))
    requires HartOk(st', h)
    requires me.ipi || me.phase.Draining? || !(st.harts[h].ipi || st.harts[h].phase.Draining?) || me.fifo == []
    ensures Inv(st')
  {
    hide Covers, Upgrade, Admissible, Flushed, TokenOk, HartOk;
    CoversItself();
    forall x | 0 <= x < |st.harts|
      ensures HartOk(st', x) && TokenOk(st', x) && IpiOk(st', x)
    {
      assert HartOk(st, x) && TokenOk(st, x) && IpiOk(st, x);
      if x != h { HartStays(st, st', x); }
      TokenStays(st, st', x);
      assert forall a, t :: AboutToNotify(st, a, t) ==> AboutToNotify(st', a, t);
    }
  }

  lemma RequestKeeps(st: State, h: nat, info: Info, targets: seq<nat>)
    requires Inv(st) && Enabled(st, Request(h, info, targets))
    ensures Inv(Apply(st, Request(h, info, targets)))
  {
    var st' := Apply(st, Request(h, info, targets));
    assert HartOk(st, h);
    LocalMove(st, st', h, st'.harts[h]);
  }

  lemma ReturnKeeps(st: State, h: nat)
    requires Inv(st) && Enabled(st, Return(h))
    ensures Inv(Apply(st, Return(h)))
  {
    var st' := Apply(st, Return(h));
    assert HartOk(st, h);
    LocalMove(st, st', h, st'.harts[h]);
  }

  lemma SelfFlushKeeps(st: State, h: nat)
    requires Inv(st) && Enabled(st, SelfFlush(h))
    ensures Inv(Apply(st, SelfFlush(h)))
  {
    var st' := Apply(st, SelfFlush(h));
    assert HartOk(st, h);
    SelfFlushReq(st, h);
    LocalMove(st, st', h, st'.harts[h]);
  }

  lemma DrainKeeps(st: State, h: nat)
    requires Inv(st)
    ensures Enabled(st, Interrupt(h)) ==> Inv(Apply(st, Interrupt(h)))
    ensures Enabled(st, EndDrain(h)) ==> Inv(Apply(st, EndDrain(h)))
  {
    if Enabled(st, Interrupt(h)) {
      assert HartOk(st, h);
      var st' := Apply(st, Interrupt(h));
      LocalMove(st, st', h, st'.harts[h]);
    } else if Enabled(st, EndDrain(h)) {
      assert HartOk(st, h);
      var st' := Apply(st, EndDrain(h));
      LocalMove(st, st', h, st'.harts[h]);
    }
  }

  lemma EndServiceKeeps(st: State, h: nat)
    requires Inv(st) && Enabled(st, EndService(h))
    ensures Inv(Apply(st, EndService(h)))
  {
    var st' := Apply(st, EndService(h));
    assert HartOk(st, h);
    if !st.harts[h].phase.Idle? && !st.harts[h].phase.Draining? {
      ReqStays(st, st', h, st.harts[h].phase.req);
    }
    LocalMove(st, st', h, st'.harts[h]);
  }

  lemma SendIpiHart(st: State, h: nat, x: nat)
    requires Inv(st) && Enabled(st, SendIpi(h)) && x < |st.harts|
    ensures HartOk(Apply(st, SendIpi(h)), x)
  {
    hide TokenOk, IpiOk, Covers, Admissible, Flushed, Upgrade;
    var st' := Apply(st, SendIpi(h));
    assert HartOk(st, h) && HartOk(st, x);
    if x == h {
      ReqStays(st, st', h, st.harts[h].phase.req);
    } else {
      HartStays(st, st', x);
    }
  }

  lemma SendIpiToken(st: State, h: nat, x: nat)
    requires Inv(st) && Enabled(st, SendIpi(h)) && x < |st.harts|
    ensures TokenOk(Apply(st, SendIpi(h)), x)
  {
    hide HartOk, IpiOk, Admissible, Flushed, Upgrade, TokenOk;
    var st' := Apply(st, SendIpi(h));
    CoversItself();
    TokenStays(st, st', x);
  }

  lemma CoversItself()
    ensures forall e: Info :: Covers(e, e)
  {
  }

  lemma SendIpiKeeps(st: State, h: nat)
    requires Inv(st) && Enabled(st, SendIpi(h))
    ensures Inv(Apply(st, SendIpi(h)))
  {
    hide HartOk, TokenOk;
    var st' := Apply(st, SendIpi(h));
    var r := st.harts[h].phase.req;
    forall x | 0 <= x < |st.harts|
      ensures HartOk(st', x) && TokenOk(st', x) && IpiOk(st', x)
    {
      assert IpiOk(st, x);
      SendIpiHart(st, h, x);
      SendIpiToken(st, h, x);
      if a :| AboutToNotify(st, a, x) && x != r.Target() {
        assert AboutToNotify(st', a, x);
      }
    }
  }

  /** A fresh token for hart h, put into slot k of its target's queue. */
  lemma TokenBorn(st: State, st': State, h: nat, k: nat)
    requires Inv(st) && h < |st.harts| == |st'.harts| && st.log == st'.log
    requires !OpenPhase(st.harts[h].phase) && st'.harts[h].phase.Notify? && st'.harts[h].phase.req.Pending()
    requires var t := st'.harts[h].phase.req.Target();
      && t < |st.harts| && k < |st'.harts[t].fifo|
      && Covers(st'.harts[t].fifo[k], st'.harts[h].phase.req.sent)
      && h in st'.harts[t].fifo[k].smask
      && |st.harts[t].fifo| <= |st'.harts[t].fifo|
      && (forall i | 0 <= i < |st'.harts[t].fifo| && i != k ::
            i < |st.harts[t].fifo| && st'.harts[t].fifo[i] == st.harts[t].fifo[i])
      && forall y | 0 <= y < |st.harts| ::
           && (y != t ==> st'.harts[y].fifo == st.harts[y].fifo)
           && st'.harts[y].service == st.harts[y].service && st'.harts[y].sync == st.harts[y].sync
    ensures TokenOk(st', h)
  {
    var t := st'.harts[h].phase.req.Target();
    assert TokenOk(st, h);
    forall q | Holds(st', h, q)
      ensures q == InFifo(t, k)
    {
      assert !Holds(st, h, q);
    }
    assert TokenAt(st', h, InFifo(t, k));
  }

  lemma MergeKeeps(st: State, h: nat)
    requires Inv(st) && Enabled(st, TryMerge(h))
    ensures Inv(Apply(st, TryMerge(h)))
  {
    hide Covers, Upgrade, Absorb, Flushed, TokenOk;
    var st' := Apply(st, TryMerge(h));
    assert HartOk(st, h);
    var r := st.harts[h].phase.req;
    var t := r.Target();
    var info := Upgrade(r.info, st.limit);
    assert HartOk(st, t);
    var k := MergeSlot(st.harts[t].fifo, info);
    MergeHart(st, h, h);
    if k == |st.harts[t].fifo| {
      LocalMove(st, st', h, st'.harts[h]);
    } else {
      CoversTransitive(st'.harts[t].fifo[k], info, r.sent) by {
        UpgradeCovers(r.info, st.limit);
        CoversTransitive(info, r.info, r.sent);
      }
      TokenBorn(st, st', h, k);
      forall x | 0 <= x < |st.harts|
        ensures HartOk(st', x) && TokenOk(st', x) && IpiOk(st', x)
      {
        MergeHart(st, h, x);
        if x != h { MergeToken(st, h, x, k); }
        assert IpiOk(st, x);
        assert AboutToNotify(st', h, t);
        assert forall a | AboutToNotify(st, a, x) :: AboutToNotify(st', a, x);
      }
    }
  }

  lemma MergeToken(st: State, h: nat, x: nat, k: nat)
    requires Inv(st) && Enabled(st, TryMerge(h)) && x < |st.harts| && x != h
    requires var t := st.harts[h].phase.req.Target();
      var queue := st.harts[t].fifo;
      var queue' := Apply(st, TryMerge(h)).harts[t].fifo;
      && Apply(st, TryMerge(h)).harts[h].phase.Notify?
      && k < |queue| == |queue'|
      && (forall i | 0 <= i < |queue| && i != k :: queue'[i] == queue[i])
      && Covers(queue'[k], queue[k])
      && queue'[k].smask == queue[k].smask + {h}
    ensures TokenOk(Apply(st, TryMerge(h)), x)
  {
    hide IpiOk, HartOk, Covers, Admissible, Upgrade, Absorb, Flushed;
    CoversItself();
    var st' := Apply(st, TryMerge(h));
    assert TokenOk(st, x);
    var t := st.harts[h].phase.req.Target();
    forall p
      ensures Holds(st', x, p) <==> Holds(st, x, p)
    {
      if p.InFifo? && p.t == t && p.i == k {
        assert x in st'.harts[t].fifo[k].smask <==> x in st.harts[t].fifo[k].smask;
      }
    }
    TokenStays(st, st', x);
  }

  lemma EnqueueHart(st: State, h: nat, x: nat)
    requires Inv(st) && Enabled(st, DoEnqueue(h)) && x < |st.harts|
    ensures HartOk(Apply(st, DoEnqueue(h)), x)
  {
    hide TokenOk, IpiOk, Covers, Admissible, Flushed, Upgrade;
    var st' := Apply(st, DoEnqueue(h));
    assert HartOk(st, h) && HartOk(st, x);
    if !st.harts[x].phase.Idle? && !st.harts[x].phase.Draining? {
      ReqStays(st, st', x, st.harts[x].phase.req);
    }
  }

  lemma EnqueueToken(st: State, h: nat, x: nat)
    requires Inv(st) && Enabled(st, DoEnqueue(h)) && x < |st.harts|
    ensures TokenOk(Apply(st, DoEnqueue(h)), x)
  {
    hide IpiOk, Admissible, Flushed, Upgrade, TokenOk, Covers;
    var st' := Apply(st, DoEnqueue(h));
    assert HartOk(st, h);
    var r := st.harts[h].phase.req;
    if x == h {
      TokenBorn(st, st', h, |st.harts[r.Target()].fifo|);
    } else {
      CoversItself();
      TokenStays(st, st', x);
    }
  }

  lemma EnqueueKeeps(st: State, h: nat)
    requires Inv(st) && Enabled(st, DoEnqueue(h))
    ensures Inv(Apply(st, DoEnqueue(h)))
  {
    hide HartOk, TokenOk;
    var st' := Apply(st, DoEnqueue(h));
    forall x | 0 <= x < |st.harts|
      ensures HartOk(st', x) && TokenOk(st', x) && IpiOk(st', x)
    {
      assert IpiOk(st, x);
      EnqueueHart(st, h, x);
      EnqueueToken(st, h, x);
      assert AboutToNotify(st', h, st.harts[h].phase.req.Target());
      assert forall a | AboutToNotify(st, a, x) :: AboutToNotify(st', a, x);
    }
  }

  lemma TakeSyncKeeps(st: State, h: nat)
    requires Inv(st) && Enabled(st, TakeSync(h))
    ensures Inv(Apply(st, TakeSync(h)))
  {
    hide Covers, Upgrade, Admissible, Flushed;
    CoversItself();
    var st' := Apply(st, TakeSync(h));
    assert HartOk(st, h) && TokenOk(st, h);
    TakeSyncReq(st, h);
    var p :| TokenAt(st, h, p);
    assert Holds(st, h, InWord);
    forall x | 0 <= x < |st.harts|
      ensures HartOk(st', x) && TokenOk(st', x) && IpiOk(st', x)
    {
      assert HartOk(st, x) && TokenOk(st, x) && IpiOk(st, x);
      if x != h {
        HartStays(st, st', x);
        TokenStays(st, st', x);
      } else {
        forall q ensures !Holds(st', h, q) {
          assert Holds(st', h, q) ==> Holds(st, h, q);
        }
      }
      assert forall a | AboutToNotify(st, a, x) :: AboutToNotify(st', a, x);
    }
  }

  /** Where a token of a place goes when hart h takes the head of its queue. */
  function Shifted(h: nat, p: Place): Place {
    match p
    case InFifo(t, i) => if t != h then p else if i == 0 then InService(h) else InFifo(h, i - 1)
    case _ => p
  }

  /** Where it came from. */
  function Origin(h: nat, q: Place): Place {
    match q
    case InFifo(t, i) => if t != h then q else InFifo(h, i + 1)
    case InService(t) => if t != h then q else InFifo(h, 0)
    case InWord => q
  }

  lemma DequeueMoves(st: State, h: nat, x: nat, p: Place)
    requires Enabled(st, Dequeue(h))
    ensures Holds(st, x, p) ==> Holds(Apply(st, Dequeue(h)), x, Shifted(h, p)) && Origin(h, Shifted(h, p)) == p
    ensures Holds(Apply(st, Dequeue(h)), x, p) ==> Holds(st, x, Origin(h, p)) && Shifted(h, Origin(h, p)) == p
  {
  }

  lemma DequeueToken(st: State, h: nat, x: nat)
    requires Inv(st) && Enabled(st, Dequeue(h)) && x < |st.harts|
    ensures TokenOk(Apply(st, Dequeue(h)), x)
  {
    var st' := Apply(st, Dequeue(h));
    assert TokenOk(st, x);
    if OpenPhase(st.harts[x].phase) {
      var p :| TokenAt(st, x, p);
      DequeueMoves(st, h, x, p);
      forall q | Holds(st', x, q)
        ensures q == Shifted(h, p)
      {
        DequeueMoves(st, h, x, q);
      }
      assert TokenAt(st', x, Shifted(h, p));
    } else {
      forall q
        ensures !Holds(st', x, q)
      {
        DequeueMoves(st, h, x, q);
      }
    }
  }

  lemma DequeueKeeps(st: State, h: nat)
    requires Inv(st) && Enabled(st, Dequeue(h))
    ensures Inv(Apply(st, Dequeue(h)))
  {
    var st' := Apply(st, Dequeue(h));
    forall x | 0 <= x < |st.harts|
      ensures HartOk(st', x) && TokenOk(st', x) && IpiOk(st', x)
    {
      assert HartOk(st, x) && IpiOk(st, x);
      if x != h {
        HartStays(st, st', x);
      } else if !st.harts[h].phase.Draining? {
        ReqStays(st, st', h, st.harts[h].phase.req);
      }
      DequeueToken(st, h, x);
      assert forall a | AboutToNotify(st, a, x) :: AboutToNotify(st', a, x);
    }
  }

  lemma RunFlushToken(st: State, h: nat, x: nat)
    requires Inv(st) && Enabled(st, RunFlush(h)) && x < |st.harts|
    ensures TokenOk(Apply(st, RunFlush(h)), x)
  {
    hide IpiOk, Admissible, Upgrade, Covers;
    CoversItself();
    var st' := Apply(st, RunFlush(h));
    assert TokenOk(st, x) && HartOk(st, x);
    assert forall p :: Holds(st', x, p) <==> Holds(st, x, p);
    if OpenPhase(st.harts[x].phase) && exists p :: TokenAt(st, x, p) && p == InService(h) {
      var r := st.harts[x].phase.req;
      assert TokenAt(st, x, InService(h));
      assert st'.log[|st.log|] == Event(h, st.harts[h].service.entry);
      assert Flushed(st', r, h);
      assert TokenAt(st', x, InService(h));
    } else {
      TokenStays(st, st', x) by {
        if OpenPhase(st.harts[x].phase) {
          var p :| TokenAt(st, x, p);
          assert p != InService(h);
        }
        assert !Holds(st, x, InService(h));
      }
    }
  }

  lemma RunFlushKeeps(st: State, h: nat)
    requires Inv(st) && Enabled(st, RunFlush(h))
    ensures Inv(Apply(st, RunFlush(h)))
  {
    var st' := Apply(st, RunFlush(h));
    forall x | 0 <= x < |st.harts|
      ensures HartOk(st', x) && TokenOk(st', x) && IpiOk(st', x)
    {
      assert HartOk(st, x) && IpiOk(st, x);
      if x != h {
        HartStays(st, st', x);
      } else if !st.harts[h].phase.Draining? {
        ReqStays(st, st', h, st.harts[h].phase.req);
      }
      RunFlushToken(st, h, x);
      assert forall a | AboutToNotify(st, a, x) :: AboutToNotify(st', a, x);
    }
  }

  lemma SignalToken(st: State, h: nat, s: nat, x: nat)
    requires Inv(st) && Enabled(st, SignalOne(h, s)) && x < |st.harts|
    ensures TokenOk(Apply(st, SignalOne(h, s)), x)
  {
    hide IpiOk, Admissible, Upgrade, Covers;
    CoversItself();
    var st' := Apply(st, SignalOne(h, s));
    assert TokenOk(st, x) && HartOk(st, x);
    if x == s {
      assert Holds(st, s, InService(h));
      assert OpenPhase(st.harts[s].phase);
      assert TokenAt(st, s, InService(h));
      var r := st.harts[s].phase.req;
      FlushedStays(st, st', r, h);
      forall q | Holds(st', s, q)
        ensures q == InWord
      {
        assert q != InWord ==> Holds(st, s, q);
        assert !Holds(st', s, InService(h));
      }
      assert TokenAt(st', s, InWord);
    } else {
      TokenStays(st, st', x);
    }
  }

  lemma SignalKeeps(st: State, h: nat, s: nat)
    requires Inv(st) && Enabled(st, SignalOne(h, s))
    ensures Inv(Apply(st, SignalOne(h, s)))
  {
    var st' := Apply(st, SignalOne(h, s));
    forall x | 0 <= x < |st.harts|
      ensures HartOk(st', x) && TokenOk(st', x) && IpiOk(st', x)
    {
      assert HartOk(st, x) && IpiOk(st, x);
      if x != h {
        HartStays(st, st', x);
      } else if !st.harts[h].phase.Draining? && !st.harts[h].phase.Idle? {
        ReqStays(st, st', h, st.harts[h].phase.req);
      }
      SignalToken(st, h, s, x);
      assert forall a | AboutToNotify(st, a, x) :: AboutToNotify(st', a, x);
    }
  }

  lemma StepKeeps(st: State, step: Step)
    requires Inv(st) && Enabled(st, step)
    ensures Inv(Apply(st, step))
  {
    match step
    case Request(h, info, targets) => RequestKeeps(st, h, info, targets);
    case Return(h) => ReturnKeeps(st, h);
    case SelfFlush(h) => SelfFlushKeeps(st, h);
    case TryMerge(h) => MergeKeeps(st, h);
    case DoEnqueue(h) => EnqueueKeeps(st, h);
    case SendIpi(h) => SendIpiKeeps(st, h);
    case TakeSync(h) => TakeSyncKeeps(st, h);
    case Interrupt(h) => DrainKeeps(st, h);
    case EndDrain(h) => DrainKeeps(st, h);
    case Dequeue(h) => DequeueKeeps(st, h);
    case RunFlush(h) => RunFlushKeeps(st, h);
    case SignalOne(h, s) => SignalKeeps(st, h, s);
    case EndService(h) => EndServiceKeeps(st, h);
  }

  lemma {:induction false} RunKeeps(st: State, steps: seq<Step>, last: State)
    requires Inv(st) && Leads(st, steps, last)
    ensures Inv(last)
    decreases |steps|
  {
    if steps != [] {
      StepKeeps(st, steps[0]);
      RunKeeps(Apply(st, steps[0]), steps[1..], last);
    }
  }

  // ---------------------------------------------------------------- main results

  /** Completion: whatever the interleaving, when sbi_tlb_request is about to return, every hart
      it was sent to has run, since the request began, a flush that covers it. */
  lemma Completion(n: nat, limit: Word, steps: seq<Step>, st: State, h: nat)
    requires Leads(Initial(n, limit), steps, st) && Enabled(st, Return(h))
    ensures forall t | t in st.harts[h].phase.req.targets :: Flushed(st, st.harts[h].phase.req, t)
  {
    InitialInv(n, limit);
    RunKeeps(Initial(n, limit), steps, st);
    assert HartOk(st, h);
    var r := st.harts[h].phase.req;
    forall t | t in r.targets
      ensures Flushed(st, r, t)
    {
      var i :| 0 <= i < |r.targets| && r.targets[i] == t;
      assert Flushed(st, r, r.targets[i]);
    }
  }

  /** Token conservation: at every moment a hart is named in exactly one place while it waits
      for a target, and in none otherwise. */
  lemma TokenConservation(n: nat, limit: Word, steps: seq<Step>, st: State, x: nat)
    requires Leads(Initial(n, limit), steps, st) && x < |st.harts|
    ensures OpenPhase(st.harts[x].phase) ==> exists p :: Only(st, x, p)
    ensures !OpenPhase(st.harts[x].phase) ==> forall p :: !Holds(st, x, p)
  {
    InitialInv(n, limit);
    RunKeeps(Initial(n, limit), steps, st);
    assert TokenOk(st, x);
    if OpenPhase(st.harts[x].phase) {
      var p :| TokenAt(st, x, p);
      assert Only(st, x, p);
    }
  }

  /** The exchange in tlb_entry_process never finds the word already set, so it never spins. */
  lemma SignalNeverSpins(n: nat, limit: Word, steps: seq<Step>, st: State, h: nat, s: nat)
    requires Leads(Initial(n, limit), steps, st)
    requires h < |st.harts| && st.harts[h].service.Signal? && s in st.harts[h].service.left
    ensures Enabled(st, SignalOne(h, s))
  {
    InitialInv(n, limit);
    RunKeeps(Initial(n, limit), steps, st);
    SignalReady(st, h, s);
  }

  lemma SignalReady(st: State, h: nat, s: nat)
    requires Inv(st) && h < |st.harts| && st.harts[h].service.Signal? && s in st.harts[h].service.left
    ensures Enabled(st, SignalOne(h, s))
  {
    assert HartOk(st, h);
    assert TokenOk(st, s);
    assert Holds(st, s, InService(h));
    if st.harts[s].sync {
      assert Holds(st, s, InWord);
      assert false;
    }
  }

  // ---------------------------------------------------------------- progress

  ghost predicate AtRest(me: Hart) { me.phase.Idle? && me.service.Free? && me.fifo == [] }

  ghost predicate CanMove(st: State) {
    exists step: Step :: !step.Request? && Enabled(st, step)
  }

  /** Nothing for hart x to do but to wait, for room in a queue or for a signal. */
  ghost predicate Polls(me: Hart) {
    && me.service.Free?
    && ((me.phase.Idle? && !me.ipi) || ((me.phase.Enqueue? || me.phase.Await?) && me.fifo == []))
  }

  lemma OwnStep(st: State, x: nat)
    requires Inv(st) && x < |st.harts|
    ensures AtRest(st.harts[x]) || Polls(st.harts[x]) || CanMove(st)
  {
    assert HartOk(st, x) && TokenOk(st, x);
    var me := st.harts[x];
    if me.service.Signal? && me.service.left != {} {
      var s :| s in me.service.left;
      SignalReady(st, x, s);
    } else if me.service.Signal? {
      assert Enabled(st, EndService(x));
    } else if me.service.Flush? {
      assert Enabled(st, RunFlush(x));
    } else if me.phase.Idle? {
      assert me.ipi ==> Enabled(st, Interrupt(x));
    } else if MayServe(me.phase) && me.fifo != [] {
      assert Enabled(st, Dequeue(x));
    } else if me.phase.Draining? {
      assert Enabled(st, EndDrain(x));
    } else if !me.phase.req.Pending() {
      assert Enabled(st, Return(x));
    } else {
      assert me.phase.req.Target() in me.phase.req.targets;
      assert me.phase.Update? ==> Enabled(st, SelfFlush(x)) || Enabled(st, TryMerge(x));
      assert me.phase.Notify? ==> Enabled(st, SendIpi(x));
    }
  }

  /** A queue that is not empty can be worked on. */
  lemma QueueMoves(st: State, t: nat)
    requires Inv(st) && t < |st.harts| && st.harts[t].fifo != []
    ensures CanMove(st)
  {
    OwnStep(st, t);
    assert IpiOk(st, t);
    if h :| AboutToNotify(st, h, t) {
      assert HartOk(st, h);
      assert Enabled(st, SendIpi(h));
    }
  }

  /** No deadlock: as long as some hart has work, some hart can take a step that is not a poll. */
  lemma NoDeadlock(st: State, x: nat)
    requires Inv(st) && x < |st.harts| && !AtRest(st.harts[x])
    ensures CanMove(st)
  {
    OwnStep(st, x);
    assert HartOk(st, x) && TokenOk(st, x);
    if st.harts[x].fifo != [] {
      QueueMoves(st, x);
    } else if Polls(st.harts[x]) && st.harts[x].phase.Enqueue? {
      var t := st.harts[x].phase.req.Target();
      assert t in st.harts[x].phase.req.targets;
      if st.harts[t].fifo != [] {
        QueueMoves(st, t);
      } else {
        assert Enabled(st, DoEnqueue(x));
      }
    } else if Polls(st.harts[x]) && st.harts[x].phase.Await? {
      var p :| TokenAt(st, x, p);
      match p {
        case InFifo(t, i) => QueueMoves(st, t);
        case InService(t) => OwnStep(st, t);
        case InWord => assert Enabled(st, TakeSync(x));
      }
    }
  }

  ghost function EntryWork(e: Info): nat { |e.smask| + 3 }

  ghost function QueueWork(queue: seq<Info>): nat {
    if queue == [] then 0 else EntryWork(queue[0]) + QueueWork(queue[1..])
  }

  ghost function PhaseWork(p: Phase): int {
    match p
    case Idle => 0
    case Draining => 1
    case Update(r) => 11 * (|r.targets| - r.next) + 1
    case Enqueue(r) => 11 * (|r.targets| - r.next)
    case Notify(r) => 11 * (|r.targets| - r.next) - 5
    case Await(r) => 11 * (|r.targets| - r.next) - 9
  }

  ghost function ServiceWork(s: Service): nat {
    match s
    case Free => 0
    case Flush(e) => |e.smask| + 2
    case Signal(_, left) => |left| + 1
  }

  ghost function HartWork(me: Hart): int {
    QueueWork(me.fifo) + PhaseWork(me.phase) + ServiceWork(me.service) + if me.ipi then 3 else 0
  }

  ghost function Work(harts: seq<Hart>): int {
    if harts == [] then 0 else HartWork(harts[0]) + Work(harts[1..])
  }

  lemma {:induction false} WorkPut(harts: seq<Hart>, h: nat, me: Hart)
    requires h < |harts|
    ensures Work(harts[h := me]) == Work(harts) - HartWork(harts[h]) + HartWork(me)
  {
    if h == 0 {
      assert harts[0 := me][1..] == harts[1..];
    } else {
      assert harts[h := me][1..] == harts[1..][h - 1 := me];
      WorkPut(harts[1..], h - 1, me);
    }
  }

  lemma {:induction false} QueueWorkAppend(queue: seq<Info>, e: Info)
    ensures QueueWork(queue + [e]) == QueueWork(queue) + EntryWork(e)
  {
    if queue != [] {
      assert (queue + [e])[1..] == queue[1..] + [e];
      QueueWorkAppend(queue[1..], e);
    }
  }

  lemma {:induction false} QueueWorkPut(queue: seq<Info>, k: nat, e: Info)
    requires k < |queue|
    ensures QueueWork(queue[k := e]) == QueueWork(queue) - EntryWork(queue[k]) + EntryWork(e)
  {
    if k == 0 {
      assert queue[0 := e][1..] == queue[1..];
    } else {
      assert queue[k := e][1..] == queue[1..][k - 1 := e];
      QueueWorkPut(queue[1..], k - 1, e);
    }
  }

  lemma CardPlusOne(a: set<nat>, h: nat)
    ensures |a + {h}| <= |a| + 1
  {
    if h in a {
      assert a + {h} == a;
    }
  }

  lemma TwoPuts(harts: seq<Hart>, t: nat, target: Hart, h: nat, me: Hart)
    requires t < |harts| && h < |harts| && t != h
    ensures Work(harts[t := target][h := me])
         == Work(harts) - HartWork(harts[t]) + HartWork(target) - HartWork(harts[h]) + HartWork(me)
  {
    WorkPut(harts, t, target);
    WorkPut(harts[t := target], h, me);
  }

  lemma MergeWork(st: State, h: nat)
    requires Inv(st) && Enabled(st, TryMerge(h))
    ensures Work(Apply(st, TryMerge(h)).harts) < Work(st.harts)
  {
    hide TokenOk, IpiOk, Covers, Admissible, Absorb, Flushed, Work, QueueWork;
    var st' := Apply(st, TryMerge(h));
    assert HartOk(st, h);
    var r := st.harts[h].phase.req;
    var t := r.Target();
    var info := Upgrade(r.info, st.limit);
    assert HartOk(st, t);
    var queue := st.harts[t].fifo;
    var k := MergeSlot(queue, info);
    if k < |queue| {
      var queue' := Absorb(queue, info, UpdateCallback).1;
      assert queue' == queue[k := queue'[k]];
      QueueWorkPut(queue, k, queue'[k]);
      CardPlusOne(queue[k].smask, h);
      TwoPuts(st.harts, t, st.harts[t].(fifo := queue'), h, st.harts[h].(phase := Notify(r.(info := info))));
    } else {
      WorkPut(st.harts, h, st.harts[h].(phase := Enqueue(r.(info := info))));
    }
  }

  lemma EnqueueWork(st: State, h: nat)
    requires Inv(st) && Enabled(st, DoEnqueue(h))
    ensures Work(Apply(st, DoEnqueue(h)).harts) < Work(st.harts)
  {
    hide TokenOk, IpiOk, Covers, Admissible, Upgrade, Flushed, Work, QueueWork;
    assert HartOk(st, h);
    var r := st.harts[h].phase.req;
    var t := r.Target();
    QueueWorkAppend(st.harts[t].fifo, r.info);
    TwoPuts(st.harts, t, st.harts[t].(fifo := st.harts[t].fifo + [r.info]), h, st.harts[h].(phase := Notify(r)));
  }

  lemma SendIpiWork(st: State, h: nat)
    requires Inv(st) && Enabled(st, SendIpi(h))
    ensures Work(Apply(st, SendIpi(h)).harts) < Work(st.harts)
  {
    hide TokenOk, IpiOk, Covers, Admissible, Upgrade, Flushed, Work, QueueWork;
    assert HartOk(st, h);
    var r := st.harts[h].phase.req;
    var t := r.Target();
    TwoPuts(st.harts, t, st.harts[t].(ipi := true), h, st.harts[h].(phase := Await(r)));
  }

  lemma SignalWork(st: State, h: nat, s: nat)
    requires Inv(st) && Enabled(st, SignalOne(h, s))
    ensures Work(Apply(st, SignalOne(h, s)).harts) < Work(st.harts)
  {
    var me := st.harts[h];
    var me' := me.(service := me.service.(left := me.service.left - {s}));
    var harts1 := st.harts[h := me'];
    WorkPut(st.harts, h, me');
    WorkPut(harts1, s, harts1[s].(sync := true));
  }

  lemma LocalWork(st: State, step: Step)
    requires Inv(st) && Enabled(st, step)
    requires step.Return? || step.SelfFlush? || step.TakeSync? || step.Interrupt? || step.EndDrain?
      || step.Dequeue? || step.RunFlush? || step.EndService?
    ensures Work(Apply(st, step).harts) < Work(st.harts)
  {
    assert HartOk(st, step.h);
    WorkPut(st.harts, step.h, Apply(st, step).harts[step.h]);
  }

  /** Every step of the protocol itself uses up work. */
  lemma StepWork(st: State, step: Step)
    requires Inv(st) && Enabled(st, step) && !step.Request?
    ensures Work(Apply(st, step).harts) < Work(st.harts)
  {
    match step
    case TryMerge(h) => MergeWork(st, h);
    case DoEnqueue(h) => EnqueueWork(st, h);
    case SendIpi(h) => SendIpiWork(st, h);
    case SignalOne(h, s) => SignalWork(st, h, s);
    case _ => LocalWork(st, step);
  }

  lemma {:induction false} WorkNonNegative(st: State, n: nat)
    requires Inv(st) && n <= |st.harts|
    ensures Work(st.harts[n..]) >= 0
    decreases |st.harts| - n
  {
    if n < |st.harts| {
      assert HartOk(st, n);
      WorkNonNegative(st, n + 1);
      assert st.harts[n..][1..] == st.harts[n + 1..];
    }
  }

  /** Every request finishes: without new requests only boundedly many steps remain, and when
      none is left to take, every hart is idle with an empty queue. */
  lemma {:induction false} EveryRequestFinishes(st: State, steps: seq<Step>, last: State)
    requires Inv(st) && Leads(st, steps, last)
    requires forall i | 0 <= i < |steps| :: !steps[i].Request?
    ensures |steps| <= Work(st.harts)
    ensures !CanMove(last) ==> forall x | 0 <= x < |last.harts| :: AtRest(last.harts[x])
    decreases |steps|
  {
    if steps == [] {
      assert st.harts[0..] == st.harts;
      WorkNonNegative(st, 0);
      if !CanMove(last) {
        forall x | 0 <= x < |last.harts|
          ensures AtRest(last.harts[x])
        {
          if !AtRest(last.harts[x]) { NoDeadlock(last, x); }
        }
      }
    } else {
      StepKeeps(st, steps[0]);
      StepWork(st, steps[0]);
      EveryRequestFinishes(Apply(st, steps[0]), steps[1..], last);
    }
  }
}
