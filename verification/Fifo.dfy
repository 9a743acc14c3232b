/** The bounded ring buffer of opensbi-1.2/lib/sbi/sbi_fifo.c.

    Every operation runs under the FIFO's spin lock, so one call is one atomic
    step of the hart that makes it. */
module Fifo {

  /** What an in-place callback did with the incoming entry. */
  datatype Outcome = Skip | Updated | Unchanged

  /** The first queued entry that the callback absorbs the incoming one into. */
  ghost function Absorb<T(!new)>(queue: seq<T>, incoming: T, callback: (T, T) -> (Outcome, T)): (r: (Outcome, seq<T>))
    ensures |r.1| == |queue|
  {
    if queue == [] then (Unchanged, [])
    else
      var (outcome, entry) := callback(incoming, queue[0]);
      if !outcome.Unchanged? then (outcome, [entry] + queue[1..])
      else
        var (rest, tail) := Absorb(queue[1..], incoming, callback);
        (rest, [entry] + tail)
  }

  /** A callback leaves an entry alone when it answers Unchanged. */
  ghost predicate Honest<T(!new)>(callback: (T, T) -> (Outcome, T)) {
    forall a, b :: callback(a, b).0.Unchanged? ==> callback(a, b).1 == b
  }

  /** Absorbing changes exactly one slot, the first that does not answer Unchanged, or none. */
  lemma {:induction false} AbsorbChangesOneSlot<T(!new)>(queue: seq<T>, incoming: T, callback: (T, T) -> (Outcome, T))
    returns (k: nat)
    requires Honest(callback)
    ensures k <= |queue|
    ensures forall i | 0 <= i < k :: callback(incoming, queue[i]).0.Unchanged?
    ensures k == |queue| ==> Absorb(queue, incoming, callback) == (Unchanged, queue)
    ensures k < |queue| ==>
      var (outcome, entry) := callback(incoming, queue[k]);
      !outcome.Unchanged? && Absorb(queue, incoming, callback) == (outcome, queue[k := entry])
  {
    if queue == [] {
      k := 0;
    } else if !callback(incoming, queue[0]).0.Unchanged? {
      k := 0;
      var entry := callback(incoming, queue[0]).1;
      assert [entry] + queue[1..] == queue[0 := entry];
    } else {
      k := AbsorbChangesOneSlot(queue[1..], incoming, callback);
      assert queue == [queue[0]] + queue[1..];
      assert forall i | 1 <= i < k + 1 :: queue[i] == queue[1..][i - 1];
      k := k + 1;
      if k < |queue| {
        var entry := callback(incoming, queue[k]).1;
        assert queue[k := entry] == [queue[0]] + queue[1..][k - 1 := entry];
      }
    }
  }

  class Ring<T(0,!new)> {
    const queue: array<T>
    var avail: nat
    var tail: nat

    ghost predicate Valid()
      reads this
    {
      0 < queue.Length && avail <= queue.Length && tail < queue.Length
    }

    /** Slot of the i-th waiting entry. */
    function Slot(i: nat): (k: nat)
      requires 0 < queue.Length && tail < queue.Length && i <= queue.Length
      reads this
      ensures k < queue.Length
    {
      if tail + i >= queue.Length then tail + i - queue.Length else tail + i
    }

    ghost function Contents(): (s: seq<T>)
      requires Valid()
      reads this, queue
      ensures |s| == avail
    {
      seq(avail, i requires 0 <= i < avail reads this, queue requires Valid() => queue[Slot(i)])
    }

    constructor (entries: nat, zero: T)
      requires 0 < entries
      ensures Valid() && fresh(queue) && queue.Length == entries && Contents() == []
    {
      queue := new T[entries](_ => zero);
      avail, tail := 0, 0;
    }

    /** sbi_fifo_enqueue: fails exactly when every slot is taken. */
    method Enqueue(data: T) returns (ok: bool)
      requires Valid()
      modifies `avail, queue
      ensures Valid()
      ensures ok <==> old(avail) < queue.Length
      ensures Contents() == if ok then old(Contents()) + [data] else old(Contents())
    {
      if avail == queue.Length {
        return false;
      }
      queue[Slot(avail)] := data;
      avail := avail + 1;
      return true;
    }

    /** sbi_fifo_dequeue: takes the oldest entry. */
    method Dequeue(zero: T) returns (ok: bool, data: T)
      requires Valid()
      modifies `avail, `tail
      ensures Valid()
      ensures ok <==> old(Contents()) != []
      ensures ok ==> old(Contents()) == [data] + Contents()
      ensures !ok ==> Contents() == old(Contents())
    {
      if avail == 0 {
        return false, zero;
      }
      data := queue[tail];
      avail, tail := avail - 1, tail + 1;
      if tail >= queue.Length {
        tail := 0;
      }
      ok := true;
    }

    /** sbi_fifo_inplace_update: offers the incoming entry to each waiting one, oldest first,
        and stops at the first that takes it. */
    method InplaceUpdate(incoming: T, callback: (T, T) -> (Outcome, T)) returns (ret: Outcome)
      requires Valid() && Honest(callback)
      modifies queue
      ensures Valid()
      ensures (ret, Contents()) == Absorb(old(Contents()), incoming, callback)
    {
      ghost var before := Contents();
      ghost var k := AbsorbChangesOneSlot(before, incoming, callback);
      ret := Unchanged;
      var i := 0;
      while i < avail
        invariant 0 <= i <= avail
        invariant ret.Unchanged? && Contents() == before
        invariant i <= k
      {
        var index := Slot(i);
        assert queue[index] == before[i];
        var (outcome, entry) := callback(incoming, queue[index]);
        ret := outcome;
        queue[index] := entry;
        assert Contents() == before[i := entry];
        if ret.Skip? || ret.Updated? {
          assert i == k;
          return;
        }
        assert before[i := entry] == before;
        i := i + 1;
      }
    }
  }
}
