/** The other direction of completion: the harts flush no more than they were asked to
    (opensbi-1.2/lib/sbi/sbi_tlb.c). */
module TlbPrecision {
  import opened Common
  import opened Fifo
  import opened TlbFlush
  import opened TlbProtocol

  /** The step asks hart t for what the entry flushes, after the upgrade of long ranges. */
  ghost predicate Justifies(step: Step, limit: Word, t: nat, e: Info) {
    step.Request? && t in step.targets && SameFlush(e, Upgrade(step.info, limit))
  }

  ghost predicate Asked(asked: seq<Step>, limit: Word, t: nat, e: Info) {
    exists i :: 0 <= i < |asked| && Justifies(asked[i], limit, t, e)
  }

  /** The request a hart is working on is one that was made. */
  ghost predicate Made(asked: seq<Step>, limit: Word, x: nat, r: Req) {
    && Request(x, r.sent, r.targets) in asked
    && (r.info == r.sent || r.info == Upgrade(r.sent, limit))
  }

  ghost predicate HartPrecise(st: State, asked: seq<Step>, x: nat)
    requires x < |st.harts|
  {
    var me := st.harts[x];
    && (!me.phase.Idle? && !me.phase.Draining? ==> Made(asked, st.limit, x, me.phase.req))
    && (me.phase.Enqueue? ==> me.phase.req.info == Upgrade(me.phase.req.sent, st.limit))
    && (forall i | 0 <= i < |me.fifo| :: Asked(asked, st.limit, x, me.fifo[i]))
    && (me.service.Flush? ==> Asked(asked, st.limit, x, me.service.entry))
  }

  ghost predicate LogPrecise(st: State, asked: seq<Step>) {
    forall k | 0 <= k < |st.log| :: Asked(asked, st.limit, st.log[k].hart, st.log[k].info)
  }

  ghost predicate Precise(st: State, asked: seq<Step>) {
    LogPrecise(st, asked) && forall x: nat | x < |st.harts| :: HartPrecise(st, asked, x)
  }

  lemma AskedMore(asked: seq<Step>, step: Step, limit: Word, t: nat, e: Info)
    requires Asked(asked, limit, t, e)
    ensures Asked(asked + [step], limit, t, e)
  {
    var i :| 0 <= i < |asked| && Justifies(asked[i], limit, t, e);
    assert (asked + [step])[i] == asked[i];
  }

  /** More steps asked for justify what was justified. */
  lemma PreciseMore(st: State, asked: seq<Step>, step: Step)
    requires Precise(st, asked)
    ensures Precise(st, asked + [step])
  {
    hide Asked;
    forall k | 0 <= k < |st.log|
      ensures Asked(asked + [step], st.limit, st.log[k].hart, st.log[k].info)
    {
      AskedMore(asked, step, st.limit, st.log[k].hart, st.log[k].info);
    }
    forall x: nat | x < |st.harts|
      ensures HartPrecise(st, asked + [step], x)
    {
      var me := st.harts[x];
      assert HartPrecise(st, asked, x);
      forall i | 0 <= i < |me.fifo|
        ensures Asked(asked + [step], st.limit, x, me.fifo[i])
      {
        AskedMore(asked, step, st.limit, x, me.fifo[i]);
      }
      if me.service.Flush? {
        AskedMore(asked, step, st.limit, x, me.service.entry);
      }
    }
  }

  lemma UpgradeTwice(info: Info, limit: Word)
    ensures Upgrade(Upgrade(info, limit), limit) == Upgrade(info, limit)
  {
  }

  lemma SameFlushSelf(e: Info)
    ensures SameFlush(e, e)
  {
  }

  lemma SameFlushTransitive(a: Info, b: Info, c: Info)
    requires SameFlush(a, b) && SameFlush(b, c)
    ensures SameFlush(a, c)
  {
    CoversTransitive(a, b, c);
    CoversTransitive(c, b, a);
  }

  /** A request that was made justifies its upgraded copy on each of its targets. */
  lemma MadeJustifies(asked: seq<Step>, limit: Word, x: nat, r: Req, t: nat)
    requires Made(asked, limit, x, r) && t in r.targets
    ensures Asked(asked, limit, t, Upgrade(r.info, limit))
  {
    UpgradeTwice(r.sent, limit);
    SameFlushSelf(Upgrade(r.sent, limit));
    var i :| 0 <= i < |asked| && asked[i] == Request(x, r.sent, r.targets);
    assert Justifies(asked[i], limit, t, Upgrade(r.info, limit));
  }

  /** An entry that took in a request flushes what it did before or what the request does. */
  lemma MergedIsOne(next: Info, curr: Info)
    ensures var merged := UpdateCallback(next, curr).1; SameFlush(merged, curr) || SameFlush(merged, next)
  {
    hide SameFlush;
    SameFlushSelf(curr);
    var (outcome, merged) := UpdateCallback(next, curr);
    if outcome.Updated? {
      SameRangeFlush(merged, next);
    } else if outcome.Skip? {
      SameRangeFlush(merged, curr);
    }
  }

  lemma SameRangeFlush(a: Info, b: Info)
    requires a.start == b.start && a.size == b.size && a.fn == b.fn && Mergeable(a.fn)
    requires a.fn.SfenceVmaAsid? ==> a.asid == b.asid
    ensures SameFlush(a, b)
  {
    SameRange(a, b);
    SameRange(b, a);
  }

  lemma AskedSame(asked: seq<Step>, limit: Word, t: nat, a: Info, b: Info)
    requires Asked(asked, limit, t, a) && SameFlush(b, a)
    ensures Asked(asked, limit, t, b)
  {
    var i :| 0 <= i < |asked| && Justifies(asked[i], limit, t, a);
    SameFlushTransitive(b, a, Upgrade(asked[i].info, limit));
    assert Justifies(asked[i], limit, t, b);
  }

  /** The queue after an in-place update is justified entry by entry. */
  lemma QueuePrecise(asked: seq<Step>, limit: Word, t: nat, queue: seq<Info>, info: Info, queue': seq<Info>)
    requires queue' == Absorb(queue, info, UpdateCallback).1
    requires forall i | 0 <= i < |queue| :: Asked(asked, limit, t, queue[i])
    requires Asked(asked, limit, t, info)
    ensures forall i | 0 <= i < |queue'| :: Asked(asked, limit, t, queue'[i])
  {
    hide Asked, SameFlush;
    var k := AbsorbChangesOneSlot(queue, info, UpdateCallback);
    if k < |queue| {
      MergedIsOne(info, queue[k]);
      var merged := UpdateCallback(info, queue[k]).1;
      if SameFlush(merged, queue[k]) {
        AskedSame(asked, limit, t, queue[k], merged);
      } else {
        AskedSame(asked, limit, t, info, merged);
      }
    }
  }

  /** A step that changes one hart and logs nothing. */
  lemma OneHart(st: State, st': State, asked: seq<Step>, h: nat)
    requires Precise(st, asked) && h < |st.harts| == |st'.harts| && st'.limit == st.limit && st'.log == st.log
    requires forall x: nat | x < |st.harts| && x != h :: SameWork(st, st', x)
    requires HartPrecise(st', asked, h)
    ensures Precise(st', asked)
  {
    hide Asked;
    forall x: nat | x < |st'.harts|
      ensures HartPrecise(st', asked, x)
    {
      assert HartPrecise(st, asked, x);
      assert x != h ==> SameWork(st, st', x);
    }
  }

  lemma MergePrecise(st: State, asked: seq<Step>, h: nat)
    requires Precise(st, asked) && Enabled(st, TryMerge(h))
    ensures Precise(Apply(st, TryMerge(h)), asked)
  {
    hide Asked, Upgrade;
    var st' := Apply(st, TryMerge(h));
    var r := st.harts[h].phase.req;
    var t := r.Target();
    assert HartPrecise(st, asked, h) && HartPrecise(st, asked, t);
    MadeJustifies(asked, st.limit, h, r, t);
    UpgradeTwice(r.sent, st.limit);
    var info := Upgrade(r.info, st.limit);
    var queue := Absorb(st.harts[t].fifo, info, UpdateCallback).1;
    QueuePrecise(asked, st.limit, t, st.harts[t].fifo, info, queue);
    assert st'.harts[t] == st.harts[t].(fifo := queue) || st'.harts[t] == st.harts[t];
    assert HartPrecise(st', asked, t);
    assert HartPrecise(st', asked, h);
    forall x: nat | x < |st'.harts|
      ensures HartPrecise(st', asked, x)
    {
      assert HartPrecise(st, asked, x);
      assert x != h && x != t ==> st'.harts[x] == st.harts[x];
    }
  }

  lemma EnqueuePrecise(st: State, asked: seq<Step>, h: nat)
    requires Precise(st, asked) && Enabled(st, DoEnqueue(h))
    ensures Precise(Apply(st, DoEnqueue(h)), asked)
  {
    hide Asked, Upgrade;
    var st' := Apply(st, DoEnqueue(h));
    var r := st.harts[h].phase.req;
    var t := r.Target();
    assert HartPrecise(st, asked, h) && HartPrecise(st, asked, t);
    MadeJustifies(asked, st.limit, h, r, t);
    UpgradeTwice(r.sent, st.limit);
    assert st'.harts[t].fifo == st.harts[t].fifo + [r.info];
    assert HartPrecise(st', asked, t);
    assert HartPrecise(st', asked, h);
    forall x: nat | x < |st'.harts|
      ensures HartPrecise(st', asked, x)
    {
      assert HartPrecise(st, asked, x);
      assert x != h && x != t ==> st'.harts[x] == st.harts[x];
    }
  }

  lemma SelfFlushPrecise(st: State, asked: seq<Step>, h: nat)
    requires Precise(st, asked) && Enabled(st, SelfFlush(h))
    ensures Precise(Apply(st, SelfFlush(h)), asked)
  {
    hide Asked, Upgrade;
    var st' := Apply(st, SelfFlush(h));
    var r := st.harts[h].phase.req;
    assert HartPrecise(st, asked, h);
    MadeJustifies(asked, st.limit, h, r, h);
    UpgradeTwice(r.sent, st.limit);
    forall x: nat | x < |st'.harts|
      ensures HartPrecise(st', asked, x)
    {
      assert HartPrecise(st, asked, x);
    }
  }

  lemma RunFlushPrecise(st: State, asked: seq<Step>, h: nat)
    requires Precise(st, asked) && Enabled(st, RunFlush(h))
    ensures Precise(Apply(st, RunFlush(h)), asked)
  {
    hide Asked;
    var st' := Apply(st, RunFlush(h));
    assert HartPrecise(st, asked, h);
    forall x: nat | x < |st'.harts|
      ensures HartPrecise(st', asked, x)
    {
      assert HartPrecise(st, asked, x);
    }
  }

  lemma OtherPrecise(st: State, asked: seq<Step>, step: Step)
    requires Precise(st, asked) && Enabled(st, step)
    requires !step.Request? && !step.TryMerge? && !step.DoEnqueue? && !step.SelfFlush? && !step.RunFlush?
    ensures Precise(Apply(st, step), asked)
  {
    hide Asked, Upgrade;
    var st' := Apply(st, step);
    forall x: nat | x < |st'.harts|
      ensures HartPrecise(st', asked, x)
    {
      assert HartPrecise(st, asked, x) && HartPrecise(st, asked, step.h);
    }
  }

  lemma PreciseStep(st: State, asked: seq<Step>, step: Step)
    requires Precise(st, asked) && Enabled(st, step)
    ensures Precise(Apply(st, step), asked + [step])
  {
    hide Asked, Apply, Enabled, LogPrecise, HartPrecise, Precise;
    match step
    case Request(h, info, targets) => RequestPrecise(st, asked, h, info, targets);
    case TryMerge(h) =>
      MergePrecise(st, asked, h);
      PreciseMore(Apply(st, step), asked, step);
    case DoEnqueue(h) =>
      EnqueuePrecise(st, asked, h);
      PreciseMore(Apply(st, step), asked, step);
    case SelfFlush(h) =>
      SelfFlushPrecise(st, asked, h);
      PreciseMore(Apply(st, step), asked, step);
    case RunFlush(h) =>
      RunFlushPrecise(st, asked, h);
      PreciseMore(Apply(st, step), asked, step);
    case _ =>
      OtherPrecise(st, asked, step);
      PreciseMore(Apply(st, step), asked, step);
  }

  lemma RequestPrecise(st: State, asked: seq<Step>, h: nat, info: Info, targets: seq<nat>)
    requires Precise(st, asked) && Enabled(st, Request(h, info, targets))
    ensures Precise(Apply(st, Request(h, info, targets)), asked + [Request(h, info, targets)])
  {
    hide Asked, Upgrade;
    var step := Request(h, info, targets);
    var st' := Apply(st, step);
    PreciseMore(st, asked, step);
    assert (asked + [step])[|asked|] == step;
    assert HartPrecise(st, asked + [step], h);
    OneHart(st, st', asked + [step], h);
  }

  lemma {:induction false} PreciseRun(st: State, steps: seq<Step>, last: State, asked: seq<Step>)
    requires Precise(st, asked) && Leads(st, steps, last)
    ensures Precise(last, asked + steps) && last.limit == st.limit
    decreases |steps|
  {
    hide Precise, Apply, Enabled;
    if steps == [] {
      assert asked + steps == asked;
    } else {
      PreciseStep(st, asked, steps[0]);
      LimitStays(st, steps[0]);
      PreciseRun(Apply(st, steps[0]), steps[1..], last, asked + [steps[0]]);
      assert asked + [steps[0]] + steps[1..] == asked + steps;
    }
  }

  lemma LimitStays(st: State, step: Step)
    requires Enabled(st, step)
    ensures Apply(st, step).limit == st.limit
  {
  }

  /** The same request for all pages of its spaces. */
  function Whole(info: Info): Info { info.(start := 0, size := FLUSH_ALL) }

  /** Step i asked the hart for this flush: it flushes nothing the request does not, or the request
      was longer than the limit, and it flushes nothing outside the request's spaces. */
  ghost predicate AskedFor(step: Step, limit: Word, e: Event) {
    && step.Request? && e.hart in step.targets
    && (if step.info.size <= limit then Covers(step.info, e.info) else Covers(Whole(step.info), e.info))
  }

  /** Precision: whatever the interleaving, every flush a hart has run was asked for by a request that
      names the hart among its targets. */
  lemma Precision(n: nat, limit: Word, steps: seq<Step>, st: State, k: nat)
    requires Leads(Initial(n, limit), steps, st) && k < |st.log|
    ensures exists i :: 0 <= i < |steps| && AskedFor(steps[i], limit, st.log[k])
  {
    hide Leads, Covers;
    assert Precise(Initial(n, limit), []);
    PreciseRun(Initial(n, limit), steps, st, []);
    assert [] + steps == steps;
    var e := st.log[k];
    var i :| 0 <= i < |steps| && Justifies(steps[i], limit, e.hart, e.info);
    UpgradeMeans(steps[i].info, limit, e.info);
    assert AskedFor(steps[i], limit, e);
  }

  lemma UpgradeMeans(info: Info, limit: Word, e: Info)
    requires SameFlush(e, Upgrade(info, limit))
    ensures if info.size <= limit then Covers(info, e) else Covers(Whole(info), e)
  {
    hide Flushes;
    UpgradeExactly(info, limit);
    if info.size <= limit {
      CoversTransitive(info, Upgrade(info, limit), e);
    } else {
      WholeSpaces(info);
    }
  }

  lemma WholeSpaces(info: Info)
    ensures forall item: Item ::
      item.stage == StageOf(info.fn) && TagsMatch(info, item) && !AllSpaces(info) ==> Flushes(Whole(info), item)
  {
  }
}
