/** What happens after the stop: late events and late flushes, which do not wait for the drain. */
module BufferLate {
  import opened Events
  import opened Wrappers
  import opened Buffer

  lemma {:induction false} ExecuteSnoc(s: State, acts: seq<Action>, a: Action)
    requires Execute(s, acts).Some? && Enabled(Execute(s, acts).value, a)
    ensures Execute(s, acts + [a]) == Some(Apply(Execute(s, acts).value, a))
  {
    assert (acts + [a])[..|acts|] == acts;
  }

  /** The fresh call takes the lock, tests the flag, and turns inline exactly when the buffer has stopped. */
  lemma LateEventTurnsInline(s: State, e: Event)
    requires s.writer.None?
    ensures var n := |s.calls|; var acts := [Arrive(e), StepCall(n), StepCall(n)];
      var t := Execute(s, acts);
      && t.Some? && t.value.calls == s.calls + [Call(e, if s.stopped then Inline else Sending, Undecided, 0)]
      && t.value == s.(calls := t.value.calls, readers := s.readers + {n})
  {
    hide Execute;
    var n := |s.calls|;
    var t1 := Apply(s, Arrive(e));
    var t2 := Apply(t1, StepCall(n));
    assert Execute(s, []) == Some(s) by { ExecuteNothing(s); }
    ExecuteSnoc(s, [], Arrive(e));
    assert [] + [Arrive(e)] == [Arrive(e)];
    ExecuteSnoc(s, [Arrive(e)], StepCall(n));
    assert [Arrive(e)] + [StepCall(n)] == [Arrive(e), StepCall(n)];
    ExecuteSnoc(s, [Arrive(e), StepCall(n)], StepCall(n));
    assert [Arrive(e), StepCall(n)] + [StepCall(n)] == [Arrive(e), StepCall(n), StepCall(n)];
  }

  lemma ExecuteNothing(s: State)
    ensures Execute(s, []) == Some(s)
  {
  }

  /** So an event offered after the stop overtakes whatever the queue still holds: no order spans Flush. */
  lemma LateEventOvertakes(s: State, e: Event)
    requires s.writer.None? && s.stopped
    ensures var n := |s.calls|; var acts := [Arrive(e), StepCall(n), StepCall(n), StepCall(n)];
      var t := Execute(s, acts);
      && t.Some? && t.value.log.inlined == s.log.inlined + [e] && t.value.log.delivered == s.log.delivered
      && t.value.queue == s.queue && t.value.worker == s.worker && t.value.drops == s.drops
  {
    hide Execute;
    var n := |s.calls|;
    LateEventTurnsInline(s, e);
    ExecuteSnoc(s, [Arrive(e), StepCall(n), StepCall(n)], StepCall(n));
    assert [Arrive(e), StepCall(n), StepCall(n)] + [StepCall(n)] == [Arrive(e), StepCall(n), StepCall(n), StepCall(n)];
  }

  /** A flush of a stopped buffer returns at once and without an error, even in the middle of the drain. */
  lemma SecondFlushReturnsAtOnce(s: State)
    requires s.writer.None? && s.readers == {} && s.stopped
    ensures var f := |s.flushes|;
      var acts := [ArriveFlush, StepFlush(f), StepFlush(f), StepFlush(f), StepFlush(f)];
      Execute(s, acts) == Some(s.(flushes := s.flushes + [ReturnedEarly]))
  {
    hide Execute;
    var f := |s.flushes|;
    ExecuteNothing(s);
    assert [] + [ArriveFlush] == [ArriveFlush];
    assert [ArriveFlush] + [StepFlush(f)] == [ArriveFlush, StepFlush(f)];
    assert [ArriveFlush, StepFlush(f)] + [StepFlush(f)] == [ArriveFlush, StepFlush(f), StepFlush(f)];
    assert [ArriveFlush, StepFlush(f), StepFlush(f)] + [StepFlush(f)]
        == [ArriveFlush, StepFlush(f), StepFlush(f), StepFlush(f)];
    assert [ArriveFlush, StepFlush(f), StepFlush(f), StepFlush(f)] + [StepFlush(f)]
        == [ArriveFlush, StepFlush(f), StepFlush(f), StepFlush(f), StepFlush(f)];
    LateFlushStep(s, [], s, ArriveFlush, Requested);
    LateFlushStep(s, [ArriveFlush], Late(s, Requested), StepFlush(f), Announced);
    LateFlushStep(s, [ArriveFlush, StepFlush(f)], Late(s, Announced), StepFlush(f), Locked);
    LateFlushStep(s, [ArriveFlush, StepFlush(f), StepFlush(f)], Late(s, Locked), StepFlush(f), LeavingEarly);
    LateFlushStep(s, [ArriveFlush, StepFlush(f), StepFlush(f), StepFlush(f)], Late(s, LeavingEarly),
                  StepFlush(f), ReturnedEarly);
  }

  /** `s` with one more flush, at that point; the flush is the writer while it has the lock. */
  function Late(s: State, pc: FlushPc): State {
    s.(flushes := s.flushes + [pc],
       writer := if pc.Announced? || HoldsWrite(pc) then Some(|s.flushes|) else s.writer)
  }

  lemma LateFlushStep(s: State, acts: seq<Action>, m: State, a: Action, pc: FlushPc)
    requires s.writer.None? && s.readers == {} && s.stopped && Execute(s, acts) == Some(m)
    requires (m == s && a == ArriveFlush && pc == Requested)
      || (a == StepFlush(|s.flushes|)
          && ((m == Late(s, Requested) && pc == Announced) || (m == Late(s, Announced) && pc == Locked)
              || (m == Late(s, Locked) && pc == LeavingEarly) || (m == Late(s, LeavingEarly) && pc == ReturnedEarly)))
    ensures Execute(s, acts + [a]) == Some(Late(s, pc))
  {
    hide Execute;
    var t := Apply(m, a);
    assert t.flushes == s.flushes + [pc];
    ExecuteSnoc(s, acts, a);
  }

  // ---------- Such states exist ----------

  /** A buffer with one queued event, nobody inside it. */
  function Holding(capacity: nat, overflow: Overflow, e: Event): State {
    Init(capacity, overflow).(queue := [e], calls := [Call(e, Returned, Queued, 0)],
                              log := Log([e], [], [], [], []))
  }

  lemma HoldingReachable(capacity: nat, overflow: Overflow, e: Event)
    requires 1 <= capacity
    ensures Reachable(Holding(capacity, overflow, e))
  {
    hide Reachable;
    var s := Init(capacity, overflow);
    assert Reachable(s) by { InitReachable(capacity, overflow); }
    ReachableStep(s, Arrive(e));
    var s1 := Apply(s, Arrive(e));
    ReachableStep(s1, StepCall(0));
    var s2 := Apply(s1, StepCall(0));
    ReachableStep(s2, StepCall(0));
    var s3 := Apply(s2, StepCall(0));
    ReachableStep(s3, StepCall(0));
    var s4 := Apply(s3, StepCall(0));
    ReachableStep(s4, StepCall(0));
    assert Apply(s4, StepCall(0)) == Holding(capacity, overflow, e);
  }

  lemma InitReachable(capacity: nat, overflow: Overflow)
    requires 1 <= capacity
    ensures Reachable(Init(capacity, overflow))
  {
    ExecuteNothing(Init(capacity, overflow));
  }

  /** The same buffer, stopped and closed by a flush that now waits for the drain. */
  function Draining(capacity: nat, overflow: Overflow, e: Event): State {
    Holding(capacity, overflow, e).(stopped := true, closed := true, flushes := [Awaiting])
  }

  /** The drain may not have begun when a late event is delivered and a second flush returns. */
  lemma DrainingReachable(capacity: nat, overflow: Overflow, e: Event)
    requires 1 <= capacity
    ensures Reachable(Draining(capacity, overflow, e))
    ensures var s := Draining(capacity, overflow, e);
      s.stopped && s.writer.None? && s.readers == {} && s.queue == [e] && !s.done
  {
    hide Reachable;
    var s := Holding(capacity, overflow, e);
    HoldingReachable(capacity, overflow, e);
    ReachableStep(s, ArriveFlush);
    var s1 := Apply(s, ArriveFlush);
    ReachableStep(s1, StepFlush(0));
    var s2 := Apply(s1, StepFlush(0));
    ReachableStep(s2, StepFlush(0));
    var s3 := Apply(s2, StepFlush(0));
    ReachableStep(s3, StepFlush(0));
    var s4 := Apply(s3, StepFlush(0));
    ReachableStep(s4, StepFlush(0));
    var s5 := Apply(s4, StepFlush(0));
    ReachableStep(s5, StepFlush(0));
    var s6 := Apply(s5, StepFlush(0));
    ReachableStep(s6, StepFlush(0));
    assert Apply(s6, StepFlush(0)) == Draining(capacity, overflow, e);
  }
}
