/** Runs of a labelled transition system, and the induction every whole-run theorem of the model rests on. */
module Runs {

  /** The state after the first `n` actions of a run. */
  function After<S, A>(step: (S, A) -> S, start: S, run: seq<A>, n: nat): S
    requires n <= |run|
  {
    if n == 0 then start else step(After(step, start, run, n - 1), run[n - 1])
  }

  /** Every action of the run was enabled when it was taken. */
  ghost predicate Enabled<S, A>(guard: (S, A) -> bool, step: (S, A) -> S, start: S, run: seq<A>) {
    forall k {:trigger guard(After(step, start, run, k), run[k])} :: 0 <= k < |run| ==>
        guard(After(step, start, run, k), run[k])
  }

  /** What every enabled step keeps holds throughout every run. */
  lemma {:induction false} Kept<S(!new), A(!new)>(
    guard: (S, A) -> bool, step: (S, A) -> S, inv: S -> bool, start: S, run: seq<A>, n: nat)
    requires n <= |run| && inv(start) && Enabled(guard, step, start, run)
    requires forall s, a :: inv(s) && guard(s, a) ==> inv(step(s, a))
    ensures inv(After(step, start, run, n))
  {
    if n > 0 {
      Kept(guard, step, inv, start, run, n - 1);
      assert guard(After(step, start, run, n - 1), run[n - 1]);
    }
  }

  /** A statement about the state and how far the run has come, kept by every enabled step from a good state. */
  lemma {:induction false} FollowsRun<S(!new), A(!new)>(
    guard: (S, A) -> bool, step: (S, A) -> S, inv: S -> bool, follows: (nat, S) -> bool, start: S, run: seq<A>, n: nat)
    requires n <= |run| && inv(start) && follows(0, start) && Enabled(guard, step, start, run)
    requires forall s, a :: inv(s) && guard(s, a) ==> inv(step(s, a))
    requires forall k: nat, s :: k < |run| && inv(s) && guard(s, run[k]) && follows(k, s) ==>
             follows(k + 1, step(s, run[k]))
    ensures inv(After(step, start, run, n)) && follows(n, After(step, start, run, n))
  {
    if n > 0 {
      FollowsRun(guard, step, inv, follows, start, run, n - 1);
      assert guard(After(step, start, run, n - 1), run[n - 1]);
    }
  }

  /** `inv` holds before the first action of a run and after each. */
  ghost predicate Throughout<S(!new), A>(inv: S -> bool, step: (S, A) -> S, start: S, run: seq<A>) {
    forall n {:trigger After(step, start, run, n)} :: 0 <= n <= |run| ==> inv(After(step, start, run, n))
  }

  /** No step of a run is a bad one. */
  ghost predicate NoneBad<S(!new), A>(bad: (S, A) -> bool, step: (S, A) -> S, start: S, run: seq<A>) {
    forall k {:trigger After(step, start, run, k)} :: 0 <= k < |run| ==> !bad(After(step, start, run, k), run[k])
  }

  lemma {:induction false} KeptWhileNoneBad<S(!new), A(!new)>(
    bad: (S, A) -> bool, step: (S, A) -> S, inv: S -> bool, start: S, run: seq<A>, n: nat)
    requires n <= |run| && inv(start) && NoneBad(bad, step, start, run)
    requires forall s, a :: inv(s) ==> (inv(step(s, a)) <==> !bad(s, a))
    ensures inv(After(step, start, run, n))
  {
    if n > 0 {
      KeptWhileNoneBad(bad, step, inv, start, run, n - 1);
      assert !bad(After(step, start, run, n - 1), run[n - 1]);
    }
  }

  /** What exactly the steps that are not bad keep holds throughout a run if and only if no step of it is bad. */
  lemma KeptExactly<S(!new), A(!new)>(
    bad: (S, A) -> bool, step: (S, A) -> S, inv: S -> bool, start: S, run: seq<A>)
    requires inv(start) && forall s, a :: inv(s) ==> (inv(step(s, a)) <==> !bad(s, a))
    ensures Throughout(inv, step, start, run) <==> NoneBad(bad, step, start, run)
  {
    if NoneBad(bad, step, start, run) {
      forall n | 0 <= n <= |run| ensures inv(After(step, start, run, n)) {
        KeptWhileNoneBad(bad, step, inv, start, run, n);
      }
    }
    if Throughout(inv, step, start, run) {
      forall k | 0 <= k < |run| ensures !bad(After(step, start, run, k), run[k]) {
        var s := After(step, start, run, k);
        assert After(step, start, run, k + 1) == step(s, run[k]);
        assert inv(s) && inv(step(s, run[k]));
      }
    }
  }
}
