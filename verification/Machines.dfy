/** Runs of state machines whose steps may be impossible. */
module Machines {
  import opened Wrappers

  /** The state after a sequence of events, each of which can happen when it does. */
  function RunAll<S, E>(step: (S, E) -> Option<S>, s: S, events: seq<E>): Option<S>
    decreases |events|
  {
    if events == [] then Some(s)
    else match step(s, events[0])
      case None => None
      case Some(s') => RunAll(step, s', events[1..])
  }

  lemma {:induction false} RunConcat<S, E>(step: (S, E) -> Option<S>, s: S, a: seq<E>, b: seq<E>)
    requires RunAll(step, s, a).Some?
    ensures RunAll(step, s, a + b) == RunAll(step, RunAll(step, s, a).value, b)
    decreases |a|
  {
    if a == [] {
      assert a + b == b;
    } else {
      assert (a + b)[1..] == a[1..] + b;
      RunConcat(step, step(s, a[0]).value, a[1..], b);
    }
  }

  lemma RunFirst<S, E>(step: (S, E) -> Option<S>, s: S, e: E, rest: seq<E>)
    requires step(s, e).Some?
    ensures RunAll(step, s, [e] + rest) == RunAll(step, step(s, e).value, rest)
  {
    assert ([e] + rest)[1..] == rest;
  }

  lemma RunOne<S, E>(step: (S, E) -> Option<S>, s: S, e: E)
    requires step(s, e).Some?
    ensures RunAll(step, s, [e]) == step(s, e)
  {
    assert [e] == [e] + [];
    RunFirst(step, s, e, []);
  }
}
