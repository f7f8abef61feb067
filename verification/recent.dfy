/** A window on the last events, in bounded memory. */
module RecentEvents {
  import opened Events
  import opened Wrappers
  import opened Rings

  datatype Error = NoWindow

  class Recent {
    var slots: array<Event>
    var next: nat
    var wrapped: bool
    var total: nat
    ghost var history: seq<Event>

    ghost predicate Valid()
      reads this, slots
    {
      Holds(slots[..], next, wrapped, history) && total == |history|
    }

    constructor (capacity: nat)
      requires 1 <= capacity
      ensures Valid() && fresh(slots) && history == [] && slots.Length == capacity
    {
      slots := new Event[capacity];
      next, wrapped, total, history := 0, false, 0, [];
    }

    static method NewRecent(capacity: int) returns (r: Result<Recent, Error>)
      ensures r.Failure? <==> capacity < 1
      ensures r.Success? ==>
        fresh(r.value) && fresh(r.value.slots) && r.value.Valid()
        && r.value.history == [] && r.value.slots.Length == capacity
    {
      if capacity < 1 { return Failure(NoWindow); }
      var recent := new Recent(capacity);
      return Success(recent);
    }

    method Observe(event: Event)
      requires Valid()
      modifies this, slots
      ensures Valid() && slots == old(slots) && history == old(history) + [event]
    {
      HoldsNext(slots[..], next, wrapped, history, event);
      ghost var before := slots[..];
      slots[next] := event;
      assert slots[..] == before[next := event];
      next := next + 1;
      total := total + 1;
      history := history + [event];
      if next == slots.Length {
        next := 0;
        wrapped := true;
      }
    }

    /** A copy of the last events, oldest first. */
    method LatestEvents() returns (events: seq<Event>)
      requires Valid()
      ensures events == LastOf(history, slots.Length)
      ensures |events| == if |history| < slots.Length then |history| else slots.Length
      ensures forall i :: 0 <= i < |events| ==> events[i] == history[|history| - |events| + i]
    {
      if !wrapped { return slots[..next]; }
      events := slots[next..];
      events := events + slots[..next];
    }

    method Count() returns (count: nat)
      requires Valid()
      ensures count == |history|
    {
      count := total;
    }
  }
}
