/** Threads and schedules.

    Every program modelled here runs a fixed set of deterministic threads. A `Machine` says which thread can
    move in a state and what its next atomic step does; all nondeterminism is in the schedule, the sequence of
    the threads that move. A statement about every schedule is a statement about every execution.
 */
module Runs {

  datatype Machine<!S> = Machine(enabled: (S, nat) -> bool, step: (S, nat) -> S)

  /** Every thread named by `sched` can move when its turn comes. */
  predicate IsRun<S>(m: Machine<S>, s: S, sched: seq<nat>) {
    sched == [] || (m.enabled(s, sched[0]) && IsRun(m, m.step(s, sched[0]), sched[1..]))
  }

  /** The state in which a run ends. */
  function After<S>(m: Machine<S>, s: S, sched: seq<nat>): S {
    if sched == [] then s else After(m, m.step(s, sched[0]), sched[1..])
  }

  ghost predicate Stuck<S>(m: Machine<S>, s: S) {
    forall i: nat :: !m.enabled(s, i)
  }

  /** `inv` is kept by every step that can be taken. */
  ghost predicate Keeps<S(!new)>(m: Machine<S>, inv: S -> bool) {
    forall s, i: nat | inv(s) && m.enabled(s, i) :: inv(m.step(s, i))
  }

  /** Every step from a state satisfying `inv` lowers `rank` by exactly one. */
  ghost predicate CountsDown<S(!new)>(m: Machine<S>, inv: S -> bool, rank: S -> int) {
    forall s, i: nat | inv(s) && m.enabled(s, i) :: rank(m.step(s, i)) == rank(s) - 1
  }

  lemma {:induction false} RunConcat<S>(m: Machine<S>, s: S, a: seq<nat>, b: seq<nat>)
    ensures After(m, s, []) == s && IsRun(m, s, [])
    ensures After(m, s, a + b) == After(m, After(m, s, a), b)
    ensures IsRun(m, s, a + b) <==> IsRun(m, s, a) && IsRun(m, After(m, s, a), b)
  {
    if a == [] {
      assert a + b == b;
    } else {
      assert (a + b)[1..] == a[1..] + b;
      RunConcat(m, m.step(s, a[0]), a[1..], b);
    }
  }

  /** One more step at the end of a run. */
  lemma RunExtend<S>(m: Machine<S>, s: S, a: seq<nat>, i: nat)
    ensures After(m, s, a + [i]) == m.step(After(m, s, a), i)
    ensures IsRun(m, s, a + [i]) <==> IsRun(m, s, a) && m.enabled(After(m, s, a), i)
  {
    RunConcat(m, s, a, [i]);
    var t := After(m, s, a);
    assert After(m, m.step(t, i), []) == m.step(t, i) && IsRun(m, m.step(t, i), []);
    assert [i][1..] == [];
  }

  lemma {:induction false} InvariantAlongRun<S(!new)>(m: Machine<S>, inv: S -> bool, s: S, sched: seq<nat>)
    requires Keeps(m, inv) && inv(s) && IsRun(m, s, sched)
    ensures inv(After(m, s, sched))
  {
    if sched == [] {
    } else {
      InvariantAlongRun(m, inv, m.step(s, sched[0]), sched[1..]);
    }
  }

  lemma {:induction false} RankAlongRun<S(!new)>(m: Machine<S>, inv: S -> bool, rank: S -> int, s: S, sched: seq<nat>)
    requires Keeps(m, inv) && CountsDown(m, inv, rank)
    requires inv(s) && IsRun(m, s, sched)
    ensures rank(After(m, s, sched)) == rank(s) - |sched|
  {
    if sched == [] {
    } else {
      RankAlongRun(m, inv, rank, m.step(s, sched[0]), sched[1..]);
    }
  }
}
