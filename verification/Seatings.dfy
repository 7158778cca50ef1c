/** Who can be at the table, and who can eat, at the same time: the semaphore and the forks keep nobody away whom they
    need not keep away. */
module Seatings {
  import opened ForkRings
  import opened Mutexes
  import opened Runs
  import opened Sums
  import opened Philosophers
  import P = PlainPhilosophers

  /** The philosophers past `sem_wait`. */
  function AtTable(pc: seq<Pc>): set<nat> { set i: nat | i < |pc| && pc[i] != Outside }

  function EatingSet(pc: seq<Pc>): set<nat> { set i: nat | i < |pc| && pc[i] == Eating }

  /** `group` are philosophers out of `n`. */
  ghost predicate OutOf(n: nat, group: set<nat>) { forall i :: i in group ==> i < n }

  /** No two of them are ring neighbours; nobody sits beside itself either. */
  ghost predicate Apart(n: nat, group: set<nat>) {
    OutOf(n, group) && forall i :: i in group ==> Right(n, i) !in group
  }

  // ---------- Counting ----------

  /** The number of admitted philosophers is the size of the set of them. */
  lemma {:induction false} AdmittedIsSize(pc: seq<Pc>)
    ensures Sum(Admissions(pc)) == |AtTable(pc)|
  {
    if pc == [] {
    } else {
      var m := |pc| - 1;
      AdmittedIsSize(pc[..m]);
      assert Admissions(pc) == Admissions(pc[..m]) + [Admission(pc[m])];
      SumAppend(Admissions(pc[..m]), Admission(pc[m]));
      if pc[m] == Outside {
        assert AtTable(pc) == AtTable(pc[..m]);
      } else {
        assert AtTable(pc) == AtTable(pc[..m]) + {m};
      }
    }
  }

  lemma SubsetIsSmaller(a: set<nat>, b: set<nat>)
    requires a <= b
    ensures |a| <= |b|
  {
    assert b == a + (b - a);
  }

  /** In every reachable state the semaphore value and the size of that set add up to the start value. */
  lemma SemaphoreCountsTable(n: nat, k: nat, s: State)
    requires Inv(n, k, s)
    ensures s.sem + |AtTable(s.pc)| == k
  {
    AdmittedIsSize(s.pc);
  }

  // ---------- Who cannot move ----------

  /** In every reachable state a philosopher cannot move exactly when it wants to come in and the semaphore is 0, or the
      fork it wants is held; and that is when `k` philosophers are at the table, the left neighbour is at a point
      where it has both forks, or the right neighbour at one where it has its left fork. */
  lemma CannotMoveExactly(n: nat, k: nat, sched: seq<nat>, i: nat)
    requires i < n && IsRun(Protocol(), Init(n, k), sched)
    ensures var s := After(Protocol(), Init(n, k), sched);
            && |s.pc| == |s.fork| == n
            && (!Enabled(s, i) <==>
                  || (s.pc[i] == Outside && s.sem == 0)
                  || (s.pc[i] == WantLeft && s.fork[i].HeldBy?)
                  || (s.pc[i] == WantRight && s.fork[Right(n, i)].HeldBy?))
            && (!Enabled(s, i) <==>
                  || (s.pc[i] == Outside && |AtTable(s.pc)| == k)
                  || (s.pc[i] == WantLeft && s.pc[Left(n, i)] in {Eating, DropRight})
                  || (s.pc[i] == WantRight && s.pc[Right(n, i)] in {WantRight, Eating, DropRight, DropLeft}))
  {
    var s := After(Protocol(), Init(n, k), sched);
    InitInv(n, k);
    RunKeepsInv(n, k, Init(n, k), sched);
    SemaphoreCountsTable(n, k, s);
    assert Project(Init(n, k)) == P.Init(n);
    RunProjects(Init(n, k), sched);
    P.CannotMoveExactly(n, ProjectRun(Init(n, k), sched), i);
    var p := Project(s);
    assert p.pc[i] == Forget(s.pc[i]) && p.pc[Left(n, i)] == Forget(s.pc[Left(n, i)]);
    assert p.pc[Right(n, i)] == Forget(s.pc[Right(n, i)]);
  }

  // ---------- Who can be at the table ----------

  /** Exactly the philosophers of `group` are at this point of the loop and all others outside. */
  ghost predicate Placed(n: nat, k: nat, s: State, group: set<nat>, point: Pc) {
    Inv(n, k, s) && forall i :: 0 <= i < n ==> s.pc[i] == if i in group then point else Outside
  }

  lemma PlacedTable(n: nat, k: nat, s: State, group: set<nat>, point: Pc)
    requires Placed(n, k, s, group, point) && OutOf(n, group) && point != Outside
    ensures AtTable(s.pc) == group && s.sem + |group| == k
  {
    assert AtTable(s.pc) == group;
    SemaphoreCountsTable(n, k, s);
  }

  lemma {:induction false} Admit(n: nat, k: nat, group: set<nat>) returns (sched: seq<nat>)
    requires OutOf(n, group) && |group| <= k
    ensures IsRun(Protocol(), Init(n, k), sched)
    ensures Placed(n, k, After(Protocol(), Init(n, k), sched), group, WantLeft)
    decreases |group|
  {
    if group == {} {
      InitInv(n, k);
      sched := [];
    } else {
      var x :| x in group;
      var fewer := group - {x};
      var before := Admit(n, k, fewer);
      var s := After(Protocol(), Init(n, k), before);
      PlacedTable(n, k, s, fewer, WantLeft);
      StepKeepsInv(n, k, s, x);
      RunExtend(Protocol(), Init(n, k), before, x);
      sched := before + [x];
    }
  }

  /** The philosophers at the table can be any set of at most `k`, and no other. */
  lemma AtTableExactly(n: nat, k: nat, group: set<nat>)
    ensures (exists sched :: IsRun(Protocol(), Init(n, k), sched)
                             && AtTable(After(Protocol(), Init(n, k), sched).pc) == group)
       <==> OutOf(n, group) && |group| <= k
  {
    if sched :| IsRun(Protocol(), Init(n, k), sched) && AtTable(After(Protocol(), Init(n, k), sched).pc) == group {
      InitInv(n, k);
      RunKeepsInv(n, k, Init(n, k), sched);
      SemaphoreCountsTable(n, k, After(Protocol(), Init(n, k), sched));
    }
    if OutOf(n, group) && |group| <= k {
      var sched := Admit(n, k, group);
      PlacedTable(n, k, After(Protocol(), Init(n, k), sched), group, WantLeft);
      assert AtTable(After(Protocol(), Init(n, k), sched).pc) == group;
    }
  }

  // ---------- Who can eat ----------

  /** While only philosophers apart from `x` eat, both forks of `x` are free. */
  lemma BothForksFree(n: nat, k: nat, s: State, group: set<nat>, x: nat)
    requires Placed(n, k, s, group, Eating) && x < n && x !in group && Apart(n, group + {x})
    ensures s.fork[x].Free? && s.fork[Right(n, x)].Free?
  {
    var p := Project(s);
    forall f: nat | f < n && s.fork[f].HeldBy? ensures s.fork[f].thread in group {
      assert P.Holds(p.pc, s.fork[f].thread, f);
    }
  }

  /** Then `x` can come in, take both forks and eat. */
  lemma OneMoreEats(n: nat, k: nat, s: State, group: set<nat>, x: nat) returns (t: State)
    requires Placed(n, k, s, group, Eating) && x < n && x !in group && Apart(n, group + {x}) && |group| < k
    ensures IsRun(Protocol(), s, [x] + [x] + [x]) && t == After(Protocol(), s, [x] + [x] + [x])
    ensures Placed(n, k, t, group + {x}, Eating)
  {
    PlacedTable(n, k, s, group, Eating);
    BothForksFree(n, k, s, group, x);
    assert Right(n, x) != x;
    assert After(Protocol(), s, []) == s && IsRun(Protocol(), s, []);
    RunExtend(Protocol(), s, [], x);
    assert [] + [x] == [x];
    RunExtend(Protocol(), s, [x], x);
    RunExtend(Protocol(), s, [x] + [x], x);
    t := After(Protocol(), s, [x] + [x] + [x]);
    RunKeepsInv(n, k, s, [x] + [x] + [x]);
  }

  lemma {:induction false} Serve(n: nat, k: nat, group: set<nat>) returns (sched: seq<nat>)
    requires Apart(n, group) && |group| <= k
    ensures IsRun(Protocol(), Init(n, k), sched)
    ensures Placed(n, k, After(Protocol(), Init(n, k), sched), group, Eating)
    decreases |group|
  {
    if group == {} {
      InitInv(n, k);
      sched := [];
    } else {
      var x :| x in group;
      var fewer := group - {x};
      var before := Serve(n, k, fewer);
      assert fewer + {x} == group;
      var t := OneMoreEats(n, k, After(Protocol(), Init(n, k), before), fewer, x);
      RunConcat(Protocol(), Init(n, k), before, [x] + [x] + [x]);
      sched := before + ([x] + [x] + [x]);
    }
  }

  /** The philosophers eating at the same time can be any set of at most `k` without ring neighbours, and no other. */
  lemma EatTogetherExactly(n: nat, k: nat, group: set<nat>)
    ensures (exists sched :: IsRun(Protocol(), Init(n, k), sched)
                             && EatingSet(After(Protocol(), Init(n, k), sched).pc) == group)
       <==> Apart(n, group) && |group| <= k
  {
    if sched :| IsRun(Protocol(), Init(n, k), sched) && EatingSet(After(Protocol(), Init(n, k), sched).pc) == group {
      var s := After(Protocol(), Init(n, k), sched);
      InitInv(n, k);
      RunKeepsInv(n, k, Init(n, k), sched);
      SemaphoreCountsTable(n, k, s);
      SubsetIsSmaller(group, AtTable(s.pc));
      forall i | i in group ensures i < n && Right(n, i) !in group {
        NeighboursNeverEatTogether(n, k, sched, i);
      }
    }
    if Apart(n, group) && |group| <= k {
      var sched := Serve(n, k, group);
      assert EatingSet(After(Protocol(), Init(n, k), sched).pc) == group;
    }
  }

  /** Without the semaphore it is any set without ring neighbours, and no other. */
  lemma PlainEatTogetherExactly(n: nat, group: set<nat>)
    ensures (exists sched :: IsRun(P.Protocol(), P.Init(n), sched)
                             && PlainEatingSet(After(P.Protocol(), P.Init(n), sched).pc) == group)
       <==> Apart(n, group)
  {
    if sched :| && IsRun(P.Protocol(), P.Init(n), sched)
                && PlainEatingSet(After(P.Protocol(), P.Init(n), sched).pc) == group {
      PlainNeighboursApart(n, sched);
    }
    if Apart(n, group) {
      var k := |group|;
      var sched := Serve(n, k, group);
      assert Project(Init(n, k)) == P.Init(n);
      RunProjects(Init(n, k), sched);
      var s := After(Protocol(), Init(n, k), sched);
      assert PlainEatingSet(Project(s).pc) == group;
    }
  }

  function PlainEatingSet(pc: seq<P.Pc>): set<nat> { set i: nat | i < |pc| && pc[i] == P.Eating }

  lemma PlainNeighboursApart(n: nat, sched: seq<nat>)
    requires IsRun(P.Protocol(), P.Init(n), sched)
    ensures Apart(n, PlainEatingSet(After(P.Protocol(), P.Init(n), sched).pc))
  {
    var s := After(P.Protocol(), P.Init(n), sched);
    P.ForksAlwaysConsistent(n, sched);
    forall i: nat | i < n ensures s.pc[i] == P.Eating ==> s.pc[Right(n, i)] != P.Eating {
      var r := Right(n, i);
      assert P.HoldsLeft(s.pc[r]) ==> P.Holds(s.pc, r, r);
      assert P.HoldsRight(s.pc[i]) ==> P.Holds(s.pc, i, r);
    }
  }
}
