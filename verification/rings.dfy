/** A fixed number of slots written round and round, and the end of the history they hold. */
module Rings {
  /** The last `n` of a history, or all of it while it is shorter. */
  function LastOf<T>(history: seq<T>, n: nat): seq<T> {
    if |history| <= n then history else history[|history| - n..]
  }

  function Reversed<T>(xs: seq<T>): seq<T> {
    seq(|xs|, i requires 0 <= i < |xs| => xs[|xs| - 1 - i])
  }

  /** The slots hold the end of the history, the oldest at `next` once they have all been written. */
  ghost predicate Holds<T>(slots: seq<T>, next: nat, full: bool, history: seq<T>) {
    && next < |slots|
    && if full then
         |slots| <= |history| && slots[next..] + slots[..next] == history[|history| - |slots|..]
       else slots[..next] == history
  }

  lemma {:induction false} HoldsNext<T>(slots: seq<T>, next: nat, full: bool, history: seq<T>, x: T)
    requires Holds(slots, next, full, history)
    ensures var turned := next + 1 == |slots|;
      Holds(slots[next := x], if turned then 0 else next + 1, full || turned, history + [x])
  {
    var now := slots[next := x];
    assert now[..next] == slots[..next] && now[next + 1..] == slots[next + 1..];
    if full {
      var kept := history[|history| - |slots|..];
      assert kept == [slots[next]] + slots[next + 1..] + slots[..next];
      assert (history + [x])[|history| + 1 - |slots|..] == kept[1..] + [x];
      if next + 1 < |slots| { assert now[..next + 1] == now[..next] + [x]; }
    } else if next + 1 < |slots| {
      assert now[..next + 1] == now[..next] + [x];
    } else {
      assert now == now[..next] + [x];
    }
  }

  /** Counting back from the slot last written reads the history backwards. */
  lemma {:induction false} HoldsBack<T>(slots: seq<T>, next: nat, full: bool, history: seq<T>, step: nat)
    requires Holds(slots, next, full, history)
    requires 1 <= step <= if full then |slots| else next
    ensures |LastOf(history, |slots|)| == if full then |slots| else next
    ensures slots[(next - step + |slots|) % |slots|] == LastOf(history, |slots|)[|LastOf(history, |slots|)| - step]
  {
    BackIndex(next, step, |slots|);
  }

  lemma {:induction false} BackIndex(next: nat, step: nat, n: nat)
    requires next < n && 1 <= step <= n
    ensures (next - step + n) % n == if step <= next then next - step else next - step + n
  {
    if step <= next { Wraps(next - step, n); }
  }

  lemma Wraps(a: nat, n: nat)
    requires a < n
    ensures (a + n) % n == a
  {
  }
}
