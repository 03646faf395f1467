/**
 * The loader's loops all have one shape: visit items in order, let each step
 * update the state, and return at the first step that reports an error,
 * keeping whatever the earlier steps did. RunAll is that shape as a function.
 */
module Sequencing {
  import opened Wrappers
  import opened Descriptors

  function RunAll<S, X>(step: (S, X) -> (S, Option<Error>), s: S, xs: seq<X>): (S, Option<Error>)
    decreases |xs|
  {
    if xs == [] then (s, None)
    else
      var p := RunAll(step, s, xs[..|xs| - 1]);
      if p.1.Some? then p else step(p.0, xs[|xs| - 1])
  }

  /** One more item: the step runs only if no earlier step failed. */
  lemma RunAllExtend<S, X>(step: (S, X) -> (S, Option<Error>), s: S, xs: seq<X>, i: nat)
    requires i < |xs|
    ensures RunAll(step, s, xs[..i + 1])
         == (var p := RunAll(step, s, xs[..i]); if p.1.Some? then p else step(p.0, xs[i]))
  {
    assert xs[..i + 1][..i] == xs[..i];
  }

  /** Once a step has failed, the later items change neither the state nor the error. */
  lemma {:induction false} RunAllStops<S, X>(step: (S, X) -> (S, Option<Error>), s: S, xs: seq<X>, k: nat)
    requires k <= |xs|
    requires RunAll(step, s, xs[..k]).1.Some?
    ensures RunAll(step, s, xs) == RunAll(step, s, xs[..k])
    decreases |xs| - k
  {
    if k < |xs| {
      RunAllExtend(step, s, xs, k);
      if k + 1 == |xs| {
        assert xs[..k + 1] == xs;
      } else {
        RunAllStops(step, s, xs, k + 1);
      }
    } else {
      assert xs[..k] == xs;
    }
  }

  /**
   * The run either finished every step without error, or it stopped at the
   * first failing step k: steps before k succeeded, and the final state and
   * error are the ones step k produced.
   */
  lemma {:induction false} RunAllOutcome<S, X>(step: (S, X) -> (S, Option<Error>), s: S, xs: seq<X>)
    ensures RunAll(step, s, xs).1.None? ==>
      forall i :: 0 <= i < |xs| ==> step(RunAll(step, s, xs[..i]).0, xs[i]).1.None?
    ensures RunAll(step, s, xs).1.Some? ==>
      exists k :: 0 <= k < |xs| && RunAll(step, s, xs[..k]).1.None?
        && step(RunAll(step, s, xs[..k]).0, xs[k]) == RunAll(step, s, xs)
    decreases |xs|
  {
    if xs != [] {
      var n := |xs| - 1;
      var init := xs[..n];
      RunAllOutcome(step, s, init);
      assert forall i :: 0 <= i <= n ==> init[..i] == xs[..i];
      RunAllExtend(step, s, xs, n);
      assert xs[..n + 1] == xs;
      var (t, e) := RunAll(step, s, init);
      if e.Some? {
        var k :| 0 <= k < |init| && RunAll(step, s, init[..k]).1.None?
          && step(RunAll(step, s, init[..k]).0, init[k]) == RunAll(step, s, init);
        assert init[k] == xs[k];
      } else {
        if RunAll(step, s, xs).1.None? {
          forall i | 0 <= i < |xs|
            ensures step(RunAll(step, s, xs[..i]).0, xs[i]).1.None?
          {
            if i < n {
              assert init[i] == xs[i];
            }
          }
        }
      }
    }
  }

  /**
   * Two step functions that agree at every state the first run reaches,
   * wherever the first succeeds, give the same run, as long as the first run
   * finishes without error.
   */
  lemma {:induction false} RunAllAgree<S, X>(step1: (S, X) -> (S, Option<Error>), step2: (S, X) -> (S, Option<Error>), s: S, xs: seq<X>)
    requires forall i :: 0 <= i < |xs| && step1(RunAll(step1, s, xs[..i]).0, xs[i]).1.None? ==>
      step2(RunAll(step1, s, xs[..i]).0, xs[i]) == step1(RunAll(step1, s, xs[..i]).0, xs[i])
    requires RunAll(step1, s, xs).1.None?
    ensures RunAll(step2, s, xs) == RunAll(step1, s, xs)
    decreases |xs|
  {
    if xs != [] {
      var n := |xs| - 1;
      var init := xs[..n];
      var p := RunAll(step1, s, init);
      assert p.1.None?;
      assert forall i :: 0 <= i <= n ==> init[..i] == xs[..i];
      RunAllAgree(step1, step2, s, init);
      assert RunAll(step1, s, xs) == step1(p.0, xs[n]);
      assert step2(p.0, xs[n]) == step1(p.0, xs[n]);
      assert RunAll(step2, s, xs) == step2(p.0, xs[n]);
    }
  }
}
