/** Runs of state machines whose steps are partial functions. */
module Machines {
  import opened Basics

  /** The actions lead from s to s'. */
  ghost predicate Runs<S, A>(step: (S, A) -> Option<S>, s: S, acts: seq<A>, s': S)
    decreases |acts|
  {
    if acts == [] then s == s'
    else step(s, acts[0]).Some? && Runs(step, step(s, acts[0]).value, acts[1..], s')
  }

  ghost predicate Reachable<S, A(!new)>(step: (S, A) -> Option<S>, init: S, s: S) {
    exists acts :: Runs(step, init, acts, s)
  }

  lemma {:induction false} RunsAppend<S, A>(step: (S, A) -> Option<S>, s: S, acts: seq<A>, s': S, act: A)
    requires Runs(step, s, acts, s') && step(s', act).Some?
    ensures Runs(step, s, acts + [act], step(s', act).value)
    decreases |acts|
  {
    if acts == [] {
      assert (acts + [act])[1..] == [];
    } else {
      RunsAppend(step, step(s, acts[0]).value, acts[1..], s', act);
      assert (acts + [act])[1..] == acts[1..] + [act];
    }
  }

  lemma ReachInit<S, A(!new)>(step: (S, A) -> Option<S>, init: S)
    ensures Reachable(step, init, init)
  {
    assert Runs(step, init, [], init);
  }

  lemma Reach<S, A(!new)>(step: (S, A) -> Option<S>, init: S, s: S, act: A)
    requires Reachable(step, init, s) && step(s, act).Some?
    ensures Reachable(step, init, step(s, act).value)
  {
    var acts :| Runs(step, init, acts, s);
    RunsAppend(step, init, acts, s, act);
  }

  /** What every step keeps, every run keeps. */
  lemma {:induction false} InvariantHolds<S(!new), A(!new)>(
    step: (S, A) -> Option<S>, inv: S -> bool, s: S, acts: seq<A>, s': S)
    requires inv(s) && Runs(step, s, acts, s')
    requires forall u, act :: inv(u) && step(u, act).Some? ==> inv(step(u, act).value)
    ensures inv(s')
    decreases |acts|
  {
    if acts != [] {
      InvariantHolds(step, inv, step(s, acts[0]).value, acts[1..], s');
    }
  }
}
