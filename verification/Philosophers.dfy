/** `dining_philosophers_sem.c` and `dining_philosophers_sem_macosx.c`: a counting semaphore admits philosophers
    to the table.

    Each philosopher repeats: wait on the semaphore, lock left, lock right, eat, unlock right, unlock left, post.
    The programs start the semaphore at `nforks - 1`; here its start value `k` is arbitrary, which is what makes
    the exact deadlock-freedom condition statable.
 */
module Philosophers {
  import opened ForkRings
  import opened Mutexes
  import opened Runs
  import opened Sums
  import P = PlainPhilosophers

  /** What a philosopher is about to do; `Outside` is before `sem_wait`, `Leaving` before `sem_post`. */
  datatype Pc = Outside | WantLeft | WantRight | Eating | DropRight | DropLeft | Leaving

  datatype State = State(pc: seq<Pc>, fork: seq<Owner>, sem: nat)

  function Init(n: nat, k: nat): State {
    State(seq(n, _ => Outside), seq(n, _ => Free), k)
  }

  predicate Enabled(s: State, i: nat) {
    && i < |s.pc| == |s.fork|
    && match s.pc[i]
       case Outside => s.sem > 0
       case WantLeft => s.fork[i].Free?
       case WantRight => s.fork[Right(|s.pc|, i)].Free?
       case Eating | DropRight | DropLeft | Leaving => true
  }

  /** The next atomic step of philosopher `i`. */
  function Step(s: State, i: nat): State {
    if !Enabled(s, i) then s else
    var r := Right(|s.pc|, i);
    match s.pc[i]
    case Outside => State(s.pc[i := WantLeft], s.fork, s.sem - 1)
    case WantLeft => State(s.pc[i := WantRight], s.fork[i := HeldBy(i)], s.sem)
    case WantRight => State(s.pc[i := Eating], s.fork[r := HeldBy(i)], s.sem)
    case Eating => State(s.pc[i := DropRight], s.fork, s.sem)
    case DropRight => State(s.pc[i := DropLeft], s.fork[r := Free], s.sem)
    case DropLeft => State(s.pc[i := Leaving], s.fork[i := Free], s.sem)
    case Leaving => State(s.pc[i := Outside], s.fork, s.sem + 1)
  }

  function Protocol(): Machine<State> {
    Machine((s, i) => Enabled(s, i), (s, i) => Step(s, i))
  }

  // ---------- Refinement: the semaphore protocol implements the plain one ----------

  /** The plain program counter; outside the table a philosopher is about to want its left fork. */
  function Forget(p: Pc): P.Pc {
    match p
    case Outside | WantLeft | Leaving => P.WantLeft
    case WantRight => P.WantRight
    case Eating => P.Eating
    case DropRight => P.DropRight
    case DropLeft => P.DropLeft
  }

  function Project(s: State): P.State {
    P.State(seq(|s.pc|, i requires 0 <= i < |s.pc| => Forget(s.pc[i])), s.fork)
  }

  /** The schedule without the semaphore steps. */
  function ProjectRun(s: State, sched: seq<nat>): seq<nat>
    decreases |sched|
  {
    if sched == [] then []
    else
      var i := sched[0];
      var rest := ProjectRun(Step(s, i), sched[1..]);
      if i < |s.pc| && (s.pc[i] == Outside || s.pc[i] == Leaving) then rest else [i] + rest
  }

  lemma StepProjects(s: State, i: nat)
    requires Enabled(s, i)
    ensures if s.pc[i] == Outside || s.pc[i] == Leaving then Project(Step(s, i)) == Project(s)
            else P.Enabled(Project(s), i) && Project(Step(s, i)) == P.Step(Project(s), i)
  {
  }

  /** Every run of the semaphore protocol is, with the semaphore steps left out, a run of the plain protocol. */
  lemma {:induction false} RunProjects(s: State, sched: seq<nat>)
    requires IsRun(Protocol(), s, sched)
    ensures IsRun(P.Protocol(), Project(s), ProjectRun(s, sched))
    ensures After(P.Protocol(), Project(s), ProjectRun(s, sched)) == Project(After(Protocol(), s, sched))
    decreases |sched|
  {
    if sched == [] {
    } else {
      var i := sched[0];
      StepProjects(s, i);
      RunProjects(Step(s, i), sched[1..]);
      if s.pc[i] != Outside && s.pc[i] != Leaving {
        var rest := ProjectRun(Step(s, i), sched[1..]);
        assert ([i] + rest)[1..] == rest;
      }
    }
  }

  // ---------- What every reachable state satisfies ----------

  function Admission(p: Pc): int { if p == Outside then 0 else 1 }

  function Admissions(pc: seq<Pc>): seq<int> { seq(|pc|, i requires 0 <= i < |pc| => Admission(pc[i])) }

  /** The number of philosophers past `sem_wait`. */
  function Admitted(s: State): int { Sum(Admissions(s.pc)) }

  ghost predicate Inv(n: nat, k: nat, s: State) {
    && P.ForksConsistent(n, Project(s))
    && s.sem + Admitted(s) == k
  }

  lemma StepKeepsInv(n: nat, k: nat, s: State, i: nat)
    requires Inv(n, k, s) && Enabled(s, i)
    ensures Inv(n, k, Step(s, i))
  {
    StepProjects(s, i);
    if s.pc[i] != Outside && s.pc[i] != Leaving {
      P.StepKeepsForks(n, Project(s), i);
    }
    var t := Step(s, i);
    assert Admissions(t.pc) == Admissions(s.pc)[i := Admission(t.pc[i])];
    SumUpdate(Admissions(s.pc), i, Admission(t.pc[i]));
  }

  lemma InitInv(n: nat, k: nat)
    ensures Inv(n, k, Init(n, k))
  {
    SumConstant(Admissions(Init(n, k).pc), 0);
  }

  lemma ProtocolKeepsInv(n: nat, k: nat)
    ensures Keeps(Protocol(), s => Inv(n, k, s))
  {
    forall s, i: nat | Inv(n, k, s) && Protocol().enabled(s, i) ensures Inv(n, k, Protocol().step(s, i)) {
      StepKeepsInv(n, k, s, i);
    }
  }

  lemma RunKeepsInv(n: nat, k: nat, s: State, sched: seq<nat>)
    requires Inv(n, k, s) && IsRun(Protocol(), s, sched)
    ensures Inv(n, k, After(Protocol(), s, sched))
  {
    ProtocolKeepsInv(n, k);
    InvariantAlongRun(Protocol(), s => Inv(n, k, s), s, sched);
  }

  /** In every reachable state the semaphore value and the philosophers past it add up to the start value. */
  lemma SemaphoreCountsAdmissions(n: nat, k: nat, sched: seq<nat>)
    requires IsRun(Protocol(), Init(n, k), sched)
    ensures var s := After(Protocol(), Init(n, k), sched); s.sem + Admitted(s) == k && 0 <= Admitted(s) <= n
  {
    InitInv(n, k);
    RunKeepsInv(n, k, Init(n, k), sched);
    var s := After(Protocol(), Init(n, k), sched);
    SumBounds(Admissions(s.pc), 0, 1);
  }

  /** Ring neighbours never eat at the same time. */
  lemma NeighboursNeverEatTogether(n: nat, k: nat, sched: seq<nat>, i: nat)
    requires i < n && IsRun(Protocol(), Init(n, k), sched)
    ensures var s := After(Protocol(), Init(n, k), sched);
            |s.pc| == n && !(s.pc[i] == Eating && s.pc[Right(n, i)] == Eating)
  {
    InitInv(n, k);
    RunKeepsInv(n, k, Init(n, k), sched);
    var p := Project(After(Protocol(), Init(n, k), sched));
    var r := Right(n, i);
    if p.pc[i] == P.Eating && p.pc[r] == P.Eating {
      assert P.Holds(p.pc, i, r) && P.Holds(p.pc, r, r);
    }
  }

  /** In every reachable state an eater holds both of its forks, and whoever unlocks a fork is its owner. */
  lemma ForksHeldWhenUsed(n: nat, k: nat, sched: seq<nat>, i: nat)
    requires i < n && IsRun(Protocol(), Init(n, k), sched)
    ensures var s := After(Protocol(), Init(n, k), sched);
            && |s.pc| == |s.fork| == n
            && (s.pc[i] in {Eating, DropRight} ==> s.fork[i] == s.fork[Right(n, i)] == HeldBy(i))
            && (s.pc[i] == DropLeft ==> s.fork[i] == HeldBy(i))
            && (s.pc[i] in {Outside, WantLeft, Leaving} ==> forall f :: 0 <= f < n ==> s.fork[f] != HeldBy(i))
  {
    InitInv(n, k);
    RunKeepsInv(n, k, Init(n, k), sched);
    var p := Project(After(Protocol(), Init(n, k), sched));
    assert P.Holds(p.pc, i, i) <==> P.HoldsLeft(p.pc[i]);
    assert n > 1 ==> (P.Holds(p.pc, i, Right(n, i)) <==> P.HoldsRight(p.pc[i]));
  }

  // ---------- Deadlock freedom ----------

  lemma BlockedOnLeft(n: nat, s: State, j: nat)
    requires P.ForksConsistent(n, Project(s))
    requires j < n && s.pc[j] == WantLeft && !Enabled(s, j)
    ensures exists h: nat :: h < n && s.pc[h] != Outside && Enabled(s, h)
  {
  }

  /** Whenever somebody is past `sem_wait` and fewer than all are, one of the admitted can move. */
  lemma AdmittedCanStep(n: nat, k: nat, s: State) returns (i: nat)
    requires k < n && Inv(n, k, s)
    requires exists j :: 0 <= j < n && s.pc[j] != Outside
    ensures i < n && s.pc[i] != Outside && Enabled(s, i)
  {
    if i': nat :| i' < n && s.pc[i'] != Outside && Enabled(s, i') {
      return i';
    }
    var p := Project(s);
    var j: nat :| j < n && s.pc[j] != Outside;
    assert !Enabled(s, j);
    if s.pc[j] == WantLeft {
      BlockedOnLeft(n, s, j);
      assert false;
    }
    forall q: nat | q < n && p.pc[q] != P.WantLeft ensures !P.Enabled(p, q) {
      assert s.pc[q] != Outside && !Enabled(s, q);
    }
    P.RingClosure(n, p, j);
    forall q | 0 <= q < n ensures Admissions(s.pc)[q] == 1 {
      assert p.pc[q] == P.WantRight;
    }
    SumConstant(Admissions(s.pc), 1);
    assert false;
  }

  /** A state with nobody admitted is the initial one. */
  lemma NobodyAdmittedIsInit(n: nat, k: nat, s: State)
    requires Inv(n, k, s)
    requires forall j :: 0 <= j < n ==> s.pc[j] == Outside
    ensures s == Init(n, k)
  {
    SumConstant(Admissions(s.pc), 0);
    var p := Project(s);
    forall f: nat | f < n ensures s.fork[f] == Free {
      assert forall i: nat :: !P.Holds(p.pc, i, f);
    }
    assert s.pc == Init(n, k).pc && s.fork == Init(n, k).fork;
  }

  lemma SomebodyCanStep(n: nat, k: nat, s: State) returns (i: nat)
    requires 1 <= k < n && Inv(n, k, s)
    ensures Enabled(s, i)
  {
    if exists j :: 0 <= j < n && s.pc[j] != Outside {
      i := AdmittedCanStep(n, k, s);
    } else {
      NobodyAdmittedIsInit(n, k, s);
      i := 0;
    }
  }

  /** A run from the start that ends with nobody able to move. */
  ghost predicate Deadlocks(n: nat, k: nat, sched: seq<nat>) {
    IsRun(Protocol(), Init(n, k), sched) && Stuck(Protocol(), After(Protocol(), Init(n, k), sched))
  }

  /** No schedule ends in deadlock exactly when the semaphore starts between 1 and n - 1. The programs' start
      value `nforks - 1` is the largest such value. */
  lemma DeadlockFreeExactly(n: nat, k: nat)
    ensures (forall sched :: !Deadlocks(n, k, sched)) <==> 1 <= k < n
  {
    if 1 <= k < n {
      forall sched | IsRun(Protocol(), Init(n, k), sched) ensures !Deadlocks(n, k, sched) {
        InitInv(n, k);
        RunKeepsInv(n, k, Init(n, k), sched);
        var i := SomebodyCanStep(n, k, After(Protocol(), Init(n, k), sched));
        assert Protocol().enabled(After(Protocol(), Init(n, k), sched), i);
      }
    } else {
      var bad := DeadlockingRun(n, k);
      assert Deadlocks(n, k, bad);
    }
  }

  /** Outside 1 .. n-1 a deadlock is reachable: at once if nobody is ever admitted, or by all taking the left fork. */
  lemma DeadlockingRun(n: nat, k: nat) returns (sched: seq<nat>)
    requires !(1 <= k < n)
    ensures Deadlocks(n, k, sched)
  {
    if k == 0 {
      sched := [];
    } else {
      EveryoneEnters(n, k, n);
      sched := EntrySchedule(n);
      assert Stuck(Protocol(), LeftTakenBy(n, k, n));
    }
  }

  /** The first `m` philosophers are admitted and hold their left fork. */
  function LeftTakenBy(n: nat, k: nat, m: nat): State
    requires m <= k
  {
    State(seq(n, i => if i < m then WantRight else Outside),
          seq(n, i requires 0 <= i => if i < m then HeldBy(i) else Free),
          k - m)
  }

  /** Philosophers 0 .. m-1 each pass the semaphore and take their left fork. */
  function EntrySchedule(m: nat): seq<nat> {
    if m == 0 then [] else EntrySchedule(m - 1) + [m - 1] + [m - 1]
  }

  lemma EntersNext(n: nat, k: nat, i: nat)
    requires i < n <= k
    ensures Enabled(LeftTakenBy(n, k, i), i) && Enabled(Step(LeftTakenBy(n, k, i), i), i)
    ensures Step(Step(LeftTakenBy(n, k, i), i), i) == LeftTakenBy(n, k, i + 1)
  {
  }

  lemma {:induction false} EveryoneEnters(n: nat, k: nat, m: nat)
    requires m <= n <= k
    ensures IsRun(Protocol(), Init(n, k), EntrySchedule(m))
    ensures After(Protocol(), Init(n, k), EntrySchedule(m)) == LeftTakenBy(n, k, m)
  {
    if m == 0 {
      assert Init(n, k) == LeftTakenBy(n, k, 0);
    } else {
      var i := m - 1;
      EveryoneEnters(n, k, i);
      EntersNext(n, k, i);
      RunExtend(Protocol(), Init(n, k), EntrySchedule(i), i);
      RunExtend(Protocol(), Init(n, k), EntrySchedule(i) + [i], i);
    }
  }

  /** The plain run that a run of the semaphore protocol implements never visits the plain protocol's deadlock. */
  lemma ProjectionAvoidsDeadlock(n: nat, k: nat, sched: seq<nat>)
    requires k < n && IsRun(Protocol(), Init(n, k), sched)
    ensures var plain := ProjectRun(Init(n, k), sched);
            && IsRun(P.Protocol(), P.Init(n), plain)
            && !P.AllHoldLeft(After(P.Protocol(), P.Init(n), plain))
            && !Stuck(P.Protocol(), After(P.Protocol(), P.Init(n), plain))
  {
    assert Project(Init(n, k)) == P.Init(n);
    RunProjects(Init(n, k), sched);
    var s := After(Protocol(), Init(n, k), sched);
    SemaphoreCountsAdmissions(n, k, sched);
    P.ForksAlwaysConsistent(n, ProjectRun(Init(n, k), sched));
    if P.AllHoldLeft(Project(s)) {
      forall q | 0 <= q < n ensures Admissions(s.pc)[q] == 1 {
        assert Project(s).pc[q] == P.WantRight;
      }
      SumConstant(Admissions(s.pc), 1);
      assert false;
    }
    P.StuckExactlyWhenAllHoldLeft(n, ProjectRun(Init(n, k), sched));
  }

  // ---------- Without a limit the semaphore changes nothing ----------

  lemma {:induction false} ProjectConcat(s: State, a: seq<nat>, b: seq<nat>)
    requires IsRun(Protocol(), s, a)
    ensures ProjectRun(s, a + b) == ProjectRun(s, a) + ProjectRun(After(Protocol(), s, a), b)
    decreases |a|
  {
    if a == [] {
      assert a + b == b;
    } else {
      assert (a + b)[1..] == a[1..] + b;
      ProjectConcat(Step(s, a[0]), a[1..], b);
    }
  }

  /** With at least one place for everybody, somebody outside can always come in. */
  lemma RoomForEveryone(n: nat, k: nat, s: State, i: nat)
    requires n <= k && Inv(n, k, s) && i < n && s.pc[i] == Outside
    ensures s.sem > 0
  {
    var list := Admissions(s.pc);
    SumBounds(list[i := 1], 0, 1);
    SumUpdate(list, i, 1);
  }

  /** The steps with which philosopher `i` gets to take its left fork: post, if it has not yet, and wait. */
  function Approach(p: Pc, i: nat): seq<nat> {
    match p
    case Leaving => [i, i]
    case Outside => [i]
    case WantLeft | WantRight | Eating | DropRight | DropLeft => []
  }

  lemma ApproachIsSilent(n: nat, k: nat, s: State, i: nat)
    requires n <= k && Inv(n, k, s) && i < n
    ensures var a := Approach(s.pc[i], i);
            var t := After(Protocol(), s, a);
            && IsRun(Protocol(), s, a) && ProjectRun(s, a) == []
            && Inv(n, k, t) && Project(t) == Project(s) && t.pc[i] != Outside && t.pc[i] != Leaving
    decreases s.pc[i] == Leaving
  {
    var a := Approach(s.pc[i], i);
    if s.pc[i] == Outside {
      RoomForEveryone(n, k, s, i);
      assert a[1..] == [];
    } else if s.pc[i] == Leaving {
      StepKeepsInv(n, k, s, i);
      StepProjects(s, i);
      ApproachIsSilent(n, k, Step(s, i), i);
      assert a[1..] == [i] && [i][1..] == [];
      return;
    }
    RunKeepsInv(n, k, s, a);
    RunProjects(s, a);
  }

  /** With a start value of at least n, every run of the plain protocol, its deadlock included, is what some run of
      the semaphore protocol does. */
  lemma {:induction false} EveryPlainRunIsImplemented(n: nat, k: nat, s: State, plain: seq<nat>)
    returns (sched: seq<nat>)
    requires n <= k && Inv(n, k, s) && IsRun(P.Protocol(), Project(s), plain)
    ensures IsRun(Protocol(), s, sched) && ProjectRun(s, sched) == plain
    ensures Project(After(Protocol(), s, sched)) == After(P.Protocol(), Project(s), plain)
    decreases |plain|
  {
    if plain == [] {
      sched := [];
    } else {
      var i := plain[0];
      var a := Approach(s.pc[i], i);
      ApproachIsSilent(n, k, s, i);
      var t := After(Protocol(), s, a);
      assert Project(t).pc[i] == Forget(t.pc[i]);
      assert Enabled(t, i);
      StepProjects(t, i);
      StepKeepsInv(n, k, t, i);
      var rest := EveryPlainRunIsImplemented(n, k, Step(t, i), plain[1..]);
      var tail := [i] + rest;
      assert tail[1..] == rest;
      assert IsRun(Protocol(), t, tail) && ProjectRun(t, tail) == plain;
      sched := a + tail;
      RunConcat(Protocol(), s, a, tail);
      ProjectConcat(s, a, tail);
      RunProjects(s, sched);
    }
  }

  // ---------- Draining the table ----------

  /** The protocol with `sem_wait` closed: nobody new is admitted. */
  function Closing(): Machine<State> {
    Machine((s, i) => Enabled(s, i) && s.pc[i] != Outside, (s, i) => Step(s, i))
  }

  /** The steps an admitted philosopher still takes before it is outside again. */
  function StepsToLeave(p: Pc): int {
    match p
    case Outside => 0
    case WantLeft => 6
    case WantRight => 5
    case Eating => 4
    case DropRight => 3
    case DropLeft => 2
    case Leaving => 1
  }

  function LeaveSteps(pc: seq<Pc>): seq<int> { seq(|pc|, i requires 0 <= i < |pc| => StepsToLeave(pc[i])) }

  function Backlog(s: State): int { Sum(LeaveSteps(s.pc)) }

  lemma StepLowersBacklog(s: State, i: nat)
    requires Enabled(s, i) && s.pc[i] != Outside
    ensures Backlog(Step(s, i)) == Backlog(s) - 1
  {
    var t := Step(s, i);
    assert LeaveSteps(t.pc) == LeaveSteps(s.pc)[i := StepsToLeave(t.pc[i])];
    SumUpdate(LeaveSteps(s.pc), i, StepsToLeave(t.pc[i]));
  }

  lemma {:induction false} ClosingRunIsRun(s: State, sched: seq<nat>)
    requires IsRun(Closing(), s, sched)
    ensures IsRun(Protocol(), s, sched) && After(Protocol(), s, sched) == After(Closing(), s, sched)
    decreases |sched|
  {
    if sched == [] {
    } else {
      ClosingRunIsRun(Step(s, sched[0]), sched[1..]);
    }
  }

  /** Once nobody new is admitted, from any reachable state the table empties: a run has at most `Backlog(s)`
      steps, never more than 6 for each philosopher, and it cannot stop before it has taken exactly that many,
      when it is back in the initial state. */
  lemma ClosingRunsEndInInit(n: nat, k: nat, before: seq<nat>, sched: seq<nat>)
    requires k < n && IsRun(Protocol(), Init(n, k), before)
    requires IsRun(Closing(), After(Protocol(), Init(n, k), before), sched)
    ensures var s := After(Protocol(), Init(n, k), before);
            var t := After(Closing(), s, sched);
            && |sched| <= Backlog(s) <= 6 * n
            && (Stuck(Closing(), t) <==> t == Init(n, k))
            && (Stuck(Closing(), t) <==> |sched| == Backlog(s))
  {
    var s := After(Protocol(), Init(n, k), before);
    InitInv(n, k);
    RunKeepsInv(n, k, Init(n, k), before);
    var t := After(Closing(), s, sched);
    ClosingRunIsRun(s, sched);
    RunKeepsInv(n, k, s, sched);
    ClosingRunLength(s, sched);
    SumBounds(LeaveSteps(s.pc), 0, 6);
    ClosedExactlyWhenInit(n, k, t);
  }

  lemma ClosingRunLength(s: State, sched: seq<nat>)
    requires IsRun(Closing(), s, sched)
    ensures Backlog(After(Closing(), s, sched)) == Backlog(s) - |sched|
  {
    forall u, i: nat | Closing().enabled(u, i) ensures Backlog(Closing().step(u, i)) == Backlog(u) - 1 {
      StepLowersBacklog(u, i);
    }
    RankAlongRun(Closing(), _ => true, (u: State) => Backlog(u), s, sched);
  }

  /** With nobody new admitted, a state is final exactly when it is the initial one, and then no work is left. */
  lemma ClosedExactlyWhenInit(n: nat, k: nat, t: State)
    requires k < n && Inv(n, k, t)
    ensures Stuck(Closing(), t) <==> t == Init(n, k)
    ensures t == Init(n, k) <==> Backlog(t) == 0
    ensures 0 <= Backlog(t)
  {
    SumBounds(LeaveSteps(t.pc), 0, 6);
    if exists j :: 0 <= j < n && t.pc[j] != Outside {
      var i := AdmittedCanStep(n, k, t);
      assert Closing().enabled(t, i);
      SumAtLeastEntry(LeaveSteps(t.pc), i);
      assert Init(n, k).pc[i] == Outside;
    } else {
      NobodyAdmittedIsInit(n, k, t);
      SumConstant(LeaveSteps(t.pc), 0);
      assert forall i: nat :: !Closing().enabled(t, i);
    }
  }

  lemma {:induction false} CanDrain(n: nat, k: nat, s: State) returns (sched: seq<nat>)
    requires k < n && Inv(n, k, s)
    ensures IsRun(Protocol(), s, sched) && After(Protocol(), s, sched) == Init(n, k)
    decreases Backlog(s)
  {
    SumBounds(LeaveSteps(s.pc), 0, 6);
    if exists j :: 0 <= j < n && s.pc[j] != Outside {
      var i := AdmittedCanStep(n, k, s);
      StepLowersBacklog(s, i);
      StepKeepsInv(n, k, s, i);
      SumBounds(LeaveSteps(Step(s, i).pc), 0, 6);
      var rest := CanDrain(n, k, Step(s, i));
      sched := [i] + rest;
      assert sched[1..] == rest;
    } else {
      NobodyAdmittedIsInit(n, k, s);
      sched := [];
    }
  }

  lemma MealFromInit(n: nat, k: nat, i: nat)
    requires 2 <= n && 1 <= k && i < n
    ensures IsRun(Protocol(), Init(n, k), [i] + [i] + [i])
    ensures var t := After(Protocol(), Init(n, k), [i] + [i] + [i]); |t.pc| == n && t.pc[i] == Eating
  {
    var s := Init(n, k);
    assert After(Protocol(), s, []) == s && IsRun(Protocol(), s, []);
    RunExtend(Protocol(), s, [], i);
    assert [] + [i] == [i];
    RunExtend(Protocol(), s, [i], i);
    RunExtend(Protocol(), s, [i] + [i], i);
  }

  /** From every reachable state every philosopher can still be brought to eat. */
  lemma EveryoneCanStillEat(n: nat, k: nat, before: seq<nat>, i: nat)
    requires 1 <= k < n && i < n && IsRun(Protocol(), Init(n, k), before)
    ensures exists more ::
              && IsRun(Protocol(), Init(n, k), before + more)
              && i < |After(Protocol(), Init(n, k), before + more).pc|
              && After(Protocol(), Init(n, k), before + more).pc[i] == Eating
  {
    var init := Init(n, k);
    InitInv(n, k);
    RunKeepsInv(n, k, init, before);
    var drain := CanDrain(n, k, After(Protocol(), init, before));
    var meal := [i] + [i] + [i];
    MealFromInit(n, k, i);
    RunConcat(Protocol(), init, before, drain);
    RunConcat(Protocol(), init, before + drain, meal);
    assert before + drain + meal == before + (drain + meal);
  }

  // ---------- No livelock ----------

  /** The protocol without the step that takes a right fork. */
  function Hungry(): Machine<State> {
    Machine((s, i) => Enabled(s, i) && s.pc[i] != WantRight, (s, i) => Step(s, i))
  }

  /** The steps a philosopher can take before it next needs its right fork. */
  function StepsToRight(p: Pc): int {
    match p
    case WantRight => 0
    case WantLeft => 1
    case Outside => 2
    case Leaving => 3
    case DropLeft => 4
    case DropRight => 5
    case Eating => 6
  }

  function RightSteps(pc: seq<Pc>): seq<int> { seq(|pc|, i requires 0 <= i < |pc| => StepsToRight(pc[i])) }

  lemma StepLowersSlack(s: State, i: nat)
    requires Enabled(s, i) && s.pc[i] != WantRight
    ensures Sum(RightSteps(Step(s, i).pc)) == Sum(RightSteps(s.pc)) - 1
  {
    var t := Step(s, i);
    assert RightSteps(t.pc) == RightSteps(s.pc)[i := StepsToRight(t.pc[i])];
    SumUpdate(RightSteps(s.pc), i, StepsToRight(t.pc[i]));
  }

  /** `sched[j]` takes its right fork when its turn comes. */
  ghost predicate TakesRightAt(s: State, sched: seq<nat>, j: nat) {
    && j < |sched|
    && var t := After(Protocol(), s, sched[..j]);
       sched[j] < |t.pc| && t.pc[sched[j]] == WantRight
  }

  lemma {:induction false} RunWithoutMealIsHungry(s: State, sched: seq<nat>)
    requires IsRun(Protocol(), s, sched)
    requires forall j: nat :: !TakesRightAt(s, sched, j)
    ensures IsRun(Hungry(), s, sched)
    decreases |sched|
  {
    if sched == [] {
    } else {
      assert !TakesRightAt(s, sched, 0);
      var t := Step(s, sched[0]);
      forall j: nat ensures !TakesRightAt(t, sched[1..], j) {
        if j < |sched| - 1 {
          assert !TakesRightAt(s, sched, j + 1);
          assert sched[..j + 1][0] == sched[0] && sched[..j + 1][1..] == sched[1..][..j];
        }
      }
      RunWithoutMealIsHungry(t, sched[1..]);
    }
  }

  /** No livelock: among any 6n + 1 consecutive steps some philosopher takes its right fork and goes on to eat. */
  lemma EverySixNStepsSomebodyEats(s: State, sched: seq<nat>)
    requires IsRun(Protocol(), s, sched) && |sched| > 6 * |s.pc|
    ensures exists j: nat :: TakesRightAt(s, sched, j)
  {
    if forall j: nat :: !TakesRightAt(s, sched, j) {
      RunWithoutMealIsHungry(s, sched);
      forall u, i: nat | Hungry().enabled(u, i)
        ensures Sum(RightSteps(Hungry().step(u, i).pc)) == Sum(RightSteps(u.pc)) - 1
      {
        StepLowersSlack(u, i);
      }
      RankAlongRun(Hungry(), _ => true, (u: State) => Sum(RightSteps(u.pc)), s, sched);
      SumBounds(RightSteps(s.pc), 0, 6);
      SumBounds(RightSteps(After(Hungry(), s, sched).pc), 0, 6);
      assert false;
    }
  }

  /** The semaphore and the forks of the program, and where each thread is in `thread_start`. */
  class Table {
    const n: nat
    const ring: ForkRing
    const pc: array<Pc>
    var sem: nat
    ghost var trace: seq<nat>  // the philosophers that have moved, in order

    ghost predicate Wired()
      reads ring.leftFork, ring.rightFork
    {
      ring.Wired() && ring.n == pc.Length == n
    }

    function Model(): State
      reads this, ring.fork, pc
    {
      State(pc[..], ring.fork[..], sem)
    }

    /** The memory is that of a run of the protocol from its initial state. */
    ghost predicate Valid()
      reads this, ring.leftFork, ring.rightFork, ring.fork, pc
    {
      && 1 <= n && Wired()
      && IsRun(Protocol(), Init(n, n - 1), trace)
      && Model() == After(Protocol(), Init(n, n - 1), trace)
    }

    /** `main`: initialise the semaphore and the forks, lay the ring, start the threads. */
    constructor (nforks: nat)
      requires 1 <= nforks
      ensures Valid() && trace == [] && n == nforks && Model() == Init(nforks, nforks - 1)
      ensures sem == n - 1 && pc[..] == seq(n, _ => Outside) && ring.fork[..] == seq(n, _ => Free)
      ensures fresh(ring.fork) && fresh(ring.leftFork) && fresh(ring.rightFork) && fresh(pc)
    {
      n := nforks;
      sem := nforks - 1;
      ring := new ForkRing(nforks);
      pc := new Pc[nforks](_ => Outside);
      trace := [];
      new;
      assert pc[..] == Init(n, n - 1).pc && ring.fork[..] == Init(n, n - 1).fork;
    }

    /** `sem_wait`: returns only if the semaphore was positive; `ok` is false while it blocks. */
    method SemWait(i: nat) returns (ok: bool)
      requires Wired() && i < n && pc[i] == Outside
      modifies this`sem, pc
      ensures ok == old(sem > 0)
      ensures sem == (if ok then old(sem) - 1 else old(sem))
      ensures pc[..] == if ok then old(pc[..])[i := WantLeft] else old(pc[..])
      ensures Wired() && ok == old(Enabled(Model(), i)) && Model() == Step(old(Model()), i)
    {
      ok := sem > 0;
      if ok {
        sem := sem - 1;
        pc[i] := WantLeft;
      }
    }

    /** `ok` is false while the lock call blocks. */
    method TakeLeftFork(i: nat) returns (ok: bool)
      requires Wired() && i < n && pc[i] == WantLeft
      modifies ring.fork, pc
      ensures ok == old(ring.fork[i].Free?)
      ensures pc[..] == if ok then old(pc[..])[i := WantRight] else old(pc[..])
      ensures ring.fork[..] == if ok then old(ring.fork[..])[i := HeldBy(i)] else old(ring.fork[..])
      ensures Wired() && ok == old(Enabled(Model(), i)) && Model() == Step(old(Model()), i)
    {
      ok := ring.TakeLeft(i);
      if ok {
        pc[i] := WantRight;
      }
    }

    method TakeRightFork(i: nat) returns (ok: bool)
      requires Wired() && i < n && pc[i] == WantRight
      modifies ring.fork, pc
      ensures ok == old(ring.fork[Right(n, i)].Free?)
      ensures pc[..] == if ok then old(pc[..])[i := Eating] else old(pc[..])
      ensures ring.fork[..] == if ok then old(ring.fork[..])[Right(n, i) := HeldBy(i)] else old(ring.fork[..])
      ensures Wired() && ok == old(Enabled(Model(), i)) && Model() == Step(old(Model()), i)
    {
      ok := ring.TakeRight(i);
      if ok {
        pc[i] := Eating;
      }
    }

    method Eat(i: nat)
      requires Wired() && i < n && pc[i] == Eating
      modifies pc
      ensures pc[..] == old(pc[..])[i := DropRight]
      ensures Wired() && Model() == Step(old(Model()), i)
    {
      pc[i] := DropRight;
    }

    method PutRightFork(i: nat)
      requires Wired() && i < n && pc[i] == DropRight
      modifies ring.fork, pc
      ensures pc[..] == old(pc[..])[i := DropLeft]
      ensures ring.fork[..] == old(ring.fork[..])[Right(n, i) := Free]
      ensures Wired() && Model() == Step(old(Model()), i)
    {
      ring.PutRight(i);
      pc[i] := DropLeft;
    }

    method PutLeftFork(i: nat)
      requires Wired() && i < n && pc[i] == DropLeft
      modifies ring.fork, pc
      ensures pc[..] == old(pc[..])[i := Leaving]
      ensures ring.fork[..] == old(ring.fork[..])[i := Free]
      ensures Wired() && Model() == Step(old(Model()), i)
    {
      ring.PutLeft(i);
      pc[i] := Leaving;
    }

    method SemPost(i: nat)
      requires Wired() && i < n && pc[i] == Leaving
      modifies this`sem, pc
      ensures sem == old(sem) + 1 && pc[..] == old(pc[..])[i := Outside]
      ensures Wired() && Model() == Step(old(Model()), i)
    {
      sem := sem + 1;
      pc[i] := Outside;
    }

    /** One atomic step of the endless loop of `thread_start`. */
    method Advance(i: nat) returns (ok: bool)
      requires Valid() && i < n
      modifies this`sem, this`trace, ring.fork, pc
      ensures Valid() && trace == (if ok then old(trace) + [i] else old(trace))
      ensures ok == old(Enabled(Model(), i)) && Model() == Step(old(Model()), i)
    {
      ok := true;
      match pc[i] {
        case Outside => ok := SemWait(i);
        case WantLeft => ok := TakeLeftFork(i);
        case WantRight => ok := TakeRightFork(i);
        case Eating => Eat(i);
        case DropRight => PutRightFork(i);
        case DropLeft => PutLeftFork(i);
        case Leaving => SemPost(i);
      }
      if ok {
        RunExtend(Protocol(), Init(n, n - 1), trace, i);
        trace := trace + [i];
      }
    }

    /** Whatever has happened so far, somebody admitted can move, as long as anybody is admitted. */
    lemma AdmittedCanMove()
      requires Valid() && exists j :: 0 <= j < n && pc[j] != Outside
      ensures exists j: nat :: j < n && pc[j] != Outside && Enabled(Model(), j)
    {
      InitInv(n, n - 1);
      RunKeepsInv(n, n - 1, Init(n, n - 1), trace);
      assert Model().pc == pc[..];
      var j :| 0 <= j < n && pc[j] != Outside;
      assert Model().pc[j] != Outside;
      var i := AdmittedCanStep(n, n - 1, Model());
    }

    lemma EmptyTableIsInit()
      requires Valid() && forall j :: 0 <= j < n ==> pc[j] == Outside
      ensures Model() == Init(n, n - 1)
    {
      InitInv(n, n - 1);
      RunKeepsInv(n, n - 1, Init(n, n - 1), trace);
      assert Model().pc == pc[..];
      NobodyAdmittedIsInit(n, n - 1, Model());
    }

    /** The scheduler lets somebody who is admitted move. */
    method AdvanceAdmitted()
      requires Valid() && exists j :: 0 <= j < n && pc[j] != Outside
      modifies this`sem, this`trace, ring.fork, pc
      ensures Valid() && |trace| == |old(trace)| + 1 && 0 <= Backlog(Model()) == Backlog(old(Model())) - 1
    {
      AdmittedCanMove();
      var i: nat :| i < n && pc[i] != Outside && Enabled(Model(), i);
      StepLowersBacklog(Model(), i);
      var ok := Advance(i);
      SumBounds(LeaveSteps(Model().pc), 0, 6);
    }

    /** A scheduler that lets only admitted philosophers move, in any order, empties the table. */
    method Drain()
      requires Valid()
      modifies this`sem, this`trace, ring.fork, pc
      ensures Valid() && Model() == Init(n, n - 1)
      ensures |trace| <= |old(trace)| + 6 * n
    {
      SumBounds(LeaveSteps(Model().pc), 0, 6);
      while exists j: nat :: j < n && pc[j] != Outside
        invariant Valid() && Backlog(Model()) >= 0
        invariant |trace| + Backlog(Model()) == |old(trace)| + Backlog(old(Model()))
        decreases Backlog(Model())
      {
        AdvanceAdmitted();
      }
      EmptyTableIsInit();
    }

    /** So with two or more philosophers a scheduler can always let philosopher `i` eat, after at most 6n + 3 steps. */
    method LetEat(i: nat)
      requires Valid() && 2 <= n && i < n
      modifies this`sem, this`trace, ring.fork, pc
      ensures Valid() && pc[i] == Eating
      ensures |trace| <= |old(trace)| + 6 * n + 3
    {
      Drain();
      var waited := Advance(i);
      var left := Advance(i);
      var right := Advance(i);
      assert Model().pc[i] == pc[i];
    }
  }
}
