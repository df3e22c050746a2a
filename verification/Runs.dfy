/** Runs of a state machine: lists of actions, each of which may be possible or not in a state. */
module Runs {
  import opened Wrappers

  /** The state after a run of actions; None when one of them is not possible. */
  function Run<S, A>(step: (S, A) -> Option<S>, s: S, actions: seq<A>): Option<S> {
    if actions == [] then Some(s)
    else
      match Run(step, s, actions[..|actions| - 1])
      case Some(s') => step(s', actions[|actions| - 1])
      case None => None
  }

  lemma {:induction false} RunConcat<S, A>(step: (S, A) -> Option<S>, s: S, a: seq<A>, b: seq<A>, mid: S)
    requires Run(step, s, a) == Some(mid)
    ensures Run(step, s, a + b) == Run(step, mid, b)
  {
    if b == [] {
      assert a + b == a;
    } else {
      var n := |b| - 1;
      assert (a + b)[..|a + b| - 1] == a + b[..n];
      RunConcat(step, s, a, b[..n], mid);
    }
  }

  /** A list of states, each one step after the one before it, is a run. */
  lemma {:induction false} RunStates<S, A>(step: (S, A) -> Option<S>, states: seq<S>, actions: seq<A>)
    requires |states| == |actions| + 1
    requires forall i :: 0 <= i < |actions| ==> step(states[i], actions[i]) == Some(states[i + 1])
    ensures Run(step, states[0], actions) == Some(states[|actions|])
  {
    var n := |actions|;
    if n > 0 {
      RunStates(step, states[..n], actions[..n - 1]);
    }
  }
}
