/** In what order events reach the queue. */
module BufferOrder {
  import opened Events
  import opened Buffer
  import opened BufferSafety
  import opened BufferGuarantees

  lemma {:induction false} StepEnqueues(s: State, a: Action)
    requires Enabled(s, a)
    ensures s.log.enqueued <= Apply(s, a).log.enqueued
  {
  }

  lemma {:induction false} EnqueuedGrows(s: State, acts: seq<Action>)
    ensures var t := Execute(s, acts); t.Some? ==> s.log.enqueued <= t.value.log.enqueued
  {
    if acts != [] {
      hide Apply, Enabled;
      var last := |acts| - 1;
      EnqueuedGrows(s, acts[..last]);
      if Execute(s, acts).Some? { StepEnqueues(Execute(s, acts[..last]).value, acts[last]); }
    }
  }

  /**
   What is enqueued stays enqueued where it is: the events of the offers queued by now come first, whatever is
   queued later comes after them all.
   */
  lemma EarlierOffersFirst(s: State, acts: seq<Action>)
    requires Reachable(s) && Execute(s, acts).Some?
    ensures var t, n := Execute(s, acts).value, |s.log.enqueued|;
      && s.log.enqueued <= t.log.enqueued
      && multiset(t.log.enqueued[..n]) == WithFate(s.calls, Queued)
      && multiset(t.log.enqueued[n..]) == WithFate(t.calls, Queued) - WithFate(s.calls, Queued)
  {
    hide WithFate, Execute, RemovedEvents, TakenEvents, EvictedEvents, Total, LockInv, CallOk, FlushOk;
    ReachableInv(s);
    ExecuteKeeps(s, acts);
    EnqueuedGrows(s, acts);
    var t, n := Execute(s, acts).value, |s.log.enqueued|;
    assert Ledger(s.calls, Queued, s.log.enqueued) && Ledger(t.calls, Queued, t.log.enqueued);
    assert t.log.enqueued[..n] == s.log.enqueued;
    assert t.log.enqueued == t.log.enqueued[..n] + t.log.enqueued[n..];
  }

  // ---------- One producer ----------

  /** The events of the calls that queued theirs, in the order the calls were made. */
  function QueuedEvents(calls: seq<Call>): seq<Event> {
    if calls == [] then []
    else
      var c := calls[|calls| - 1];
      QueuedEvents(calls[..|calls| - 1]) + if c.fate.Queued? then [c.event] else []
  }

  ghost predicate InOrder(s: State) {
    && (forall i :: 0 <= i < |s.calls| - 1 ==> s.calls[i].pc.Returned?)
    && s.log.enqueued == QueuedEvents(s.calls)
  }

  lemma {:induction false} QueuedEventsLast(calls: seq<Call>, c: Call)
    requires calls != []
    ensures var last := |calls| - 1;
      QueuedEvents(calls[last := c]) == QueuedEvents(calls[..last]) + if c.fate.Queued? then [c.event] else []
    ensures QueuedEvents(calls + [c]) == QueuedEvents(calls) + if c.fate.Queued? then [c.event] else []
  {
    var last := |calls| - 1;
    assert calls[last := c][..last] == calls[..last] && (calls + [c])[..|calls|] == calls;
  }

  lemma {:induction false} InOrderStep(s: State, a: Action)
    requires Inv(s) && InOrder(s) && Enabled(s, a)
    requires a.Arrive? ==> forall i :: 0 <= i < |s.calls| ==> s.calls[i].pc.Returned?
    ensures InOrder(Apply(s, a))
  {
    hide RemovedEvents, TakenEvents, EvictedEvents, Total, LockInv, FateInv, CountInv, FlushOk, QueuedEvents;
    match a
    case StepCall(i) => InOrderCall(s, i);
    case Arrive(e) =>
      var c := Call(e, Called, Undecided, 0);
      assert QueuedEvents(s.calls + [c]) == QueuedEvents(s.calls) by { QueuedEventsArrive(s.calls, c); }
    case _ =>
  }

  lemma {:induction false} QueuedEventsArrive(calls: seq<Call>, c: Call)
    requires !c.fate.Queued?
    ensures QueuedEvents(calls + [c]) == QueuedEvents(calls)
  {
    assert (calls + [c])[..|calls|] == calls;
  }

  lemma {:induction false} InOrderCall(s: State, i: nat)
    requires CallsOk(s) && StopInv(s) && InOrder(s) && Enabled(s, StepCall(i))
    ensures InOrder(ApplyCall(s, i))
  {
    hide QueuedEvents;
    assert CallOk(s.stopped, s.overflow, s.calls[i]);
    assert i == |s.calls| - 1;
    QueuedEventsLast(s.calls, ApplyCall(s, i).calls[i]);
    QueuedEventsLast(s.calls, s.calls[i]);
    assert s.calls[i := s.calls[i]] == s.calls;
  }

  lemma {:induction false} InOrderRun(s: State, acts: seq<Action>)
    requires Inv(s) && InOrder(s) && OneProducer(s, acts)
    ensures var m := Execute(s, acts); m.Some? ==> Inv(m.value) && InOrder(m.value)
  {
    hide Inv, InOrder, Apply;
    if acts != [] {
      var last := |acts| - 1;
      InOrderRun(s, acts[..last]);
      if Execute(s, acts).Some? {
        var m := Execute(s, acts[..last]).value;
        StepKeeps(m, acts[last]);
        InOrderStep(m, acts[last]);
      }
    }
  }

  /** The events of all the calls, in the order they were made. */
  function OfferedEvents(calls: seq<Call>): seq<Event> {
    seq(|calls|, i requires 0 <= i < |calls| => calls[i].event)
  }

  /**
   One producer's events are enqueued in the order it offered them, under every policy; under DropOldest or Block
   every one of them is, as long as the buffer has not stopped.
   */
  lemma OneProducerInOrder(capacity: nat, overflow: Overflow, acts: seq<Action>)
    requires 1 <= capacity && OneProducer(Init(capacity, overflow), acts)
    requires Execute(Init(capacity, overflow), acts).Some?
    ensures var s := Execute(Init(capacity, overflow), acts).value;
      && s.log.enqueued == QueuedEvents(s.calls)
      && (overflow != DropNewest && !s.stopped && (forall i :: 0 <= i < |s.calls| ==> s.calls[i].pc.Returned?)
          ==> s.log.enqueued == OfferedEvents(s.calls))
  {
    hide Execute, OneProducer, Inv;
    var s := Execute(Init(capacity, overflow), acts).value;
    InitInv(capacity, overflow);
    InOrderRun(Init(capacity, overflow), acts);
    if overflow != DropNewest && !s.stopped && forall i :: 0 <= i < |s.calls| ==> s.calls[i].pc.Returned? {
      OverflowKept(Init(capacity, overflow), acts);
      NeverRefused(capacity, overflow, acts);
      EachQueued(s);
      AllQueued(s.calls);
    }
  }

  lemma {:induction false} OverflowKept(s: State, acts: seq<Action>)
    ensures var t := Execute(s, acts); t.Some? ==> t.value.overflow == s.overflow
  {
    if acts != [] { OverflowKept(s, acts[..|acts| - 1]); }
  }

  lemma NeverRefused(capacity: nat, overflow: Overflow, acts: seq<Action>)
    requires 1 <= capacity && OneProducer(Init(capacity, overflow), acts) && overflow != DropNewest
    requires Execute(Init(capacity, overflow), acts).Some?
    ensures var s := Execute(Init(capacity, overflow), acts).value;
      forall i :: 0 <= i < |s.calls| ==> !s.calls[i].fate.Refused?
  {
    hide Execute, OneProducer, LockInv, FateInv, CountInv, FlushOk, RemovedEvents, TakenEvents;
    var s := Execute(Init(capacity, overflow), acts).value;
    InitInv(capacity, overflow);
    ExecuteKeeps(Init(capacity, overflow), acts);
    OverflowKept(Init(capacity, overflow), acts);
    forall i: nat | i < |s.calls| ensures !s.calls[i].fate.Refused? {
      if overflow == DropOldest { OneProducerKeepsItsOwn(capacity, acts, i); }
      assert CallOk(s.stopped, s.overflow, s.calls[i]);
    }
  }

  lemma {:induction false} EachQueued(s: State)
    requires Inv(s) && !s.stopped
    requires forall i :: 0 <= i < |s.calls| ==> s.calls[i].pc.Returned? && !s.calls[i].fate.Refused?
    ensures forall i :: 0 <= i < |s.calls| ==> s.calls[i].fate.Queued?
  {
    hide LockInv, FateInv, CountInv, FlushOk, RemovedEvents, TakenEvents;
    forall i: nat | i < |s.calls| ensures s.calls[i].fate.Queued? {
      assert CallOk(s.stopped, s.overflow, s.calls[i]);
    }
  }

  lemma {:induction false} AllQueued(calls: seq<Call>)
    requires forall i :: 0 <= i < |calls| ==> calls[i].fate.Queued?
    ensures QueuedEvents(calls) == OfferedEvents(calls)
  {
    if calls != [] { AllQueued(calls[..|calls| - 1]); }
  }
}
