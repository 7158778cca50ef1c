/** When the transfer programs can finish: the wait-for cycles of `deadlock.c`, and why `ordered_lock.c` has none. */
module Deadlocks {
  import opened Runs
  import opened Transfers
  import opened Balances

  /** The account whose mutex worker `w` takes next. */
  function Wanted(c: Config, s: State, w: nat): nat
    requires Unfinished(c, s, w)
  {
    if s.worker[w].pc == LockFst then FstOf(c, s, w) else SndOf(c, s, w)
  }

  /** Worker `w` is at a lock call and somebody holds that mutex. */
  predicate Blocked(c: Config, s: State, w: nat) {
    && Unfinished(c, s, w)
    && (s.worker[w].pc == LockFst || s.worker[w].pc == LockSnd)
    && Wanted(c, s, w) < |s.mutex|
    && s.mutex[Wanted(c, s, w)].HeldBy?
  }

  function Blocker(c: Config, s: State, w: nat): nat
    requires Blocked(c, s, w)
  {
    s.mutex[Wanted(c, s, w)].thread
  }

  lemma BlockedMeansUnableToMove(c: Config, s: State, w: nat)
    requires Inv(c, s) && w < |s.worker|
    ensures Blocked(c, s, w) <==> Unfinished(c, s, w) && !Enabled(c, s, w)
  {
    assert WorkerSane(c, s, w);
  }

  /** A blocker is another unfinished worker, and inside `exec_transaction`. */
  lemma BlockerHolds(c: Config, s: State, w: nat)
    requires WellFormed(c) && Inv(c, s) && Blocked(c, s, w)
    ensures var v := Blocker(c, s, w);
            && v != w && Unfinished(c, s, v) && v < |s.worker| && s.worker[v].pc != LockFst
            && Holds(c, s, v, Wanted(c, s, w))
  {
  }

  /** Everybody in `d` waits for somebody in `d`. */
  ghost predicate DeadSet(c: Config, s: State, d: set<nat>) {
    d != {} && forall w: nat {:trigger Blocked(c, s, w)} :: w in d ==> Blocked(c, s, w) && Blocker(c, s, w) in d
  }

  // ---------- Dead sets and cycles ----------

  function Next(k: nat, i: nat): nat { if i + 1 >= k then 0 else i + 1 }

  ghost predicate Distinct(p: seq<nat>) {
    forall i, j :: 0 <= i < j < |p| ==> p[i] != p[j]
  }

  /** A circle of different workers, each waiting for a mutex that the next one holds. */
  ghost predicate WaitCycle(c: Config, s: State, cyc: seq<nat>) {
    && |cyc| >= 2 && Distinct(cyc)
    && forall i: nat :: i < |cyc| ==> Blocked(c, s, cyc[i]) && Blocker(c, s, cyc[i]) == cyc[Next(|cyc|, i)]
  }

  function Members(cyc: seq<nat>): set<nat> { set w | w in cyc }

  lemma CycleIsDeadSet(c: Config, s: State, cyc: seq<nat>)
    requires WaitCycle(c, s, cyc)
    ensures DeadSet(c, s, Members(cyc))
  {
    var d := Members(cyc);
    assert cyc[0] in d;
    forall w: nat | w in d ensures Blocked(c, s, w) && Blocker(c, s, w) in d {
      var i: nat :| i < |cyc| && cyc[i] == w;
    }
  }

  /** Pigeonhole: different numbers below `n` are at most `n`. */
  lemma {:induction false} DistinctAreFew(p: seq<nat>, n: nat)
    requires Distinct(p) && forall i :: 0 <= i < |p| ==> p[i] < n
    ensures |p| <= n
  {
    if p == [] {
    } else {
      assert p[0] < n;
      if i: nat :| i < |p| && p[i] == n - 1 {
        var q := p[..i] + p[i + 1..];
        assert forall j :: 0 <= j < |q| ==> q[j] == p[if j < i then j else j + 1];
        DistinctAreFew(q, n - 1);
      } else {
        DistinctAreFew(p, n - 1);
      }
    }
  }

  /** A walk along blockers inside a dead set. */
  ghost predicate Walk(c: Config, s: State, d: set<nat>, p: seq<nat>) {
    && p != [] && Distinct(p)
    && (forall i :: 0 <= i < |p| ==> p[i] in d && Blocked(c, s, p[i]))
    && (forall i :: 0 <= i < |p| - 1 ==> Blocker(c, s, p[i]) == p[i + 1])
  }

  lemma WalkTailIsCycle(c: Config, s: State, d: set<nat>, p: seq<nat>, j: nat)
    requires Walk(c, s, d, p) && j < |p| - 1 && Blocker(c, s, p[|p| - 1]) == p[j]
    ensures WaitCycle(c, s, p[j..])
  {
  }

  /** The next blocker is another member of the dead set; if it is a new one, the walk goes on. */
  lemma WalkGoesOn(c: Config, s: State, d: set<nat>, p: seq<nat>, next: nat)
    requires DeadSet(c, s, d) && Walk(c, s, d, p) && next == Blocker(c, s, p[|p| - 1]) && next !in p
    ensures Walk(c, s, d, p + [next])
  {
    assert p[|p| - 1] in d && next in d;
    var q := p + [next];
    forall i | 0 <= i < |q| - 1 ensures Blocked(c, s, q[i]) && Blocker(c, s, q[i]) == q[i + 1] {
      assert q[i] == p[i];
    }
  }

  lemma WalkersAreWorkers(c: Config, s: State, d: set<nat>, p: seq<nat>)
    requires Inv(c, s) && Walk(c, s, d, p)
    ensures forall i :: 0 <= i < |p| ==> p[i] < |s.worker|
  {
    forall i | 0 <= i < |p| ensures p[i] < |s.worker| {
      assert Blocked(c, s, p[i]);
    }
  }

  /** Following blockers inside a dead set comes back to a worker already met. */
  lemma {:induction false} WalkCloses(c: Config, s: State, d: set<nat>, p: seq<nat>) returns (cyc: seq<nat>)
    requires WellFormed(c) && Inv(c, s) && DeadSet(c, s, d) && Walk(c, s, d, p)
    ensures WaitCycle(c, s, cyc)
    decreases |s.worker| - |p|
  {
    var next := Blocker(c, s, p[|p| - 1]);
    BlockerHolds(c, s, p[|p| - 1]);
    if j: nat :| j < |p| && p[j] == next {
      cyc := p[j..];
      WalkTailIsCycle(c, s, d, p, j);
    } else {
      WalkGoesOn(c, s, d, p, next);
      WalkersAreWorkers(c, s, d, p + [next]);
      DistinctAreFew(p + [next], |s.worker|);
      cyc := WalkCloses(c, s, d, p + [next]);
    }
  }

  lemma DeadSetHasCycle(c: Config, s: State, d: set<nat>) returns (cyc: seq<nat>)
    requires WellFormed(c) && Inv(c, s) && DeadSet(c, s, d)
    ensures WaitCycle(c, s, cyc)
  {
    var w: nat :| w in d;
    cyc := WalkCloses(c, s, d, [w]);
  }

  // ---------- Stuck states ----------

  /** Every unfinished worker waits for a mutex that somebody holds. */
  ghost predicate AllBlocked(c: Config, s: State) {
    forall w: nat {:trigger Unfinished(c, s, w)} {:trigger Blocked(c, s, w)} :: Unfinished(c, s, w) ==> Blocked(c, s, w)
  }

  /** In a stuck state with work left, the unfinished workers are a dead set, so there is a wait-for cycle. */
  lemma StuckHasCycle(c: Config, sched: seq<nat>)
    requires WellFormed(c) && IsRun(Bank(c), Init(c), sched)
    ensures var s := After(Bank(c), Init(c), sched);
            && (Stuck(Bank(c), s) <==> AllBlocked(c, s))
            && (Stuck(Bank(c), s) && !AllDone(c, s) ==> exists cyc :: WaitCycle(c, s, cyc))
  {
    var s := After(Bank(c), Init(c), sched);
    InitInv(c);
    RunKeepsInv(c, Init(c), sched);
    if Stuck(Bank(c), s) {
      forall w: nat | Unfinished(c, s, w) ensures Blocked(c, s, w) {
        BlockedMeansUnableToMove(c, s, w);
        assert !Bank(c).enabled(s, w);
      }
      if !AllDone(c, s) {
        var cyc := UnfinishedBlockedHasCycle(c, s);
      }
    } else {
      var w: nat :| Bank(c).enabled(s, w);
      BlockedMeansUnableToMove(c, s, w);
      assert Unfinished(c, s, w);
    }
  }

  lemma UnfinishedBlockedHasCycle(c: Config, s: State) returns (cyc: seq<nat>)
    requires WellFormed(c) && Inv(c, s) && !AllDone(c, s)
    requires AllBlocked(c, s)
    ensures WaitCycle(c, s, cyc)
  {
    var w: nat :| w < |s.worker| && Unfinished(c, s, w);
    var d := UnfinishedAreDead(c, s, w);
    cyc := DeadSetHasCycle(c, s, d);
  }

  lemma UnfinishedAreDead(c: Config, s: State, w: nat) returns (d: set<nat>)
    requires WellFormed(c) && Inv(c, s) && AllBlocked(c, s) && Unfinished(c, s, w)
    ensures DeadSet(c, s, d)
  {
    d := set v: nat | v < |s.worker| && Unfinished(c, s, v);
    assert w in d;
    forall v: nat | v in d ensures Blocked(c, s, v) && Blocker(c, s, v) in d {
      assert Blocked(c, s, v);
      BlockerHolds(c, s, v);
    }
  }

  // ---------- A dead set is for ever ----------

  lemma StepKeepsDeadSet(c: Config, s: State, d: set<nat>, u: nat)
    requires WellFormed(c) && Inv(c, s) && DeadSet(c, s, d) && Enabled(c, s, u)
    ensures DeadSet(c, Step(c, s, u), d)
  {
    var t := Step(c, s, u);
    BlockedMeansUnableToMove(c, s, u);
    assert u !in d;
    assert Holds(c, s, u, FstOf(c, s, u)) <==> s.worker[u].pc != LockFst;
    assert FstOf(c, s, u) != SndOf(c, s, u);
    assert Holds(c, s, u, SndOf(c, s, u)) <==> HoldsSnd(s.worker[u].pc);
    forall w: nat | w in d ensures Blocked(c, t, w) && Blocker(c, t, w) in d {
      assert Blocked(c, s, w) && Blocker(c, s, w) != u;
      assert t.mutex[Wanted(c, s, w)] == s.mutex[Wanted(c, s, w)];
    }
  }

  lemma DeadSetIsForever(c: Config, s: State, d: set<nat>, sched: seq<nat>)
    requires WellFormed(c) && Inv(c, s) && DeadSet(c, s, d) && IsRun(Bank(c), s, sched)
    ensures DeadSet(c, After(Bank(c), s, sched), d) && !AllDone(c, After(Bank(c), s, sched))
  {
    var inv := t => Inv(c, t) && DeadSet(c, t, d);
    forall t, u: nat | inv(t) && Bank(c).enabled(t, u) ensures inv(Bank(c).step(t, u)) {
      StepKeepsInv(c, t, u);
      StepKeepsDeadSet(c, t, d, u);
    }
    InvariantAlongRun(Bank(c), inv, s, sched);
    var w: nat :| w in d;
    assert Blocked(c, After(Bank(c), s, sched), w);
  }

  // ---------- Without a dead set the work can be finished ----------

  ghost predicate Doomed(c: Config, s: State) { exists d :: DeadSet(c, s, d) }

  /** The workers inside `exec_transaction`. */
  function Inside(c: Config, s: State): set<nat> {
    set v: nat | v < |s.worker| && Unfinished(c, s, v) && s.worker[v].pc != LockFst
  }

  ghost predicate AllFree(s: State) {
    forall a :: 0 <= a < |s.mutex| ==> s.mutex[a].Free?
  }

  /** A worker that is inside already, or enters an empty bank, does not wait right after its step, unless it has
      left the transaction altogether. */
  lemma MoverHoldsOrWaits(c: Config, s: State, w: nat)
    requires WellFormed(c) && Inv(c, s) && Enabled(c, s, w)
    requires s.worker[w].pc != LockFst || AllFree(s)
    ensures Blocked(c, Step(c, s, w), w) ==> Step(c, s, w).worker[w].pc == LockFst
  {
  }

  lemma MoverBlocksNoneOfDeadSet(c: Config, s: State, w: nat, d: set<nat>, x: nat)
    requires WellFormed(c) && Inv(c, s) && Enabled(c, s, w)
    requires s.worker[w].pc != LockFst || AllFree(s)
    requires DeadSet(c, Step(c, s, w), d) && x in d
    ensures Blocker(c, Step(c, s, w), x) in d - {w}
  {
    StepKeepsInv(c, s, w);
    MoverHoldsOrWaits(c, s, w);
    BlockerHolds(c, Step(c, s, w), x);
  }

  /** Whoever still waits for somebody else after a step of `w` was waiting for the same one before. */
  lemma OldWait(c: Config, s: State, w: nat, x: nat)
    requires WellFormed(c) && Inv(c, s) && Enabled(c, s, w) && x != w
    requires Blocked(c, Step(c, s, w), x) && Blocker(c, Step(c, s, w), x) != w
    ensures Blocked(c, s, x) && Blocker(c, s, x) == Blocker(c, Step(c, s, w), x)
  {
  }

  /** Moving a worker that is inside already, or entering an empty bank, creates no dead set. */
  lemma StepCreatesNoDeadSet(c: Config, s: State, w: nat)
    requires WellFormed(c) && Inv(c, s) && Enabled(c, s, w)
    requires s.worker[w].pc != LockFst || AllFree(s)
    ensures Doomed(c, Step(c, s, w)) ==> Doomed(c, s)
  {
    var t := Step(c, s, w);
    if d :| DeadSet(c, t, d) {
      var e := d - {w};
      var x: nat :| x in d;
      MoverBlocksNoneOfDeadSet(c, s, w, d, x);
      assert Blocker(c, t, x) in e;
      forall y: nat | y in e ensures Blocked(c, s, y) && Blocker(c, s, y) in e {
        MoverBlocksNoneOfDeadSet(c, s, w, d, y);
        OldWait(c, s, w, y);
      }
      assert DeadSet(c, s, e);
    }
  }

  /** Somebody inside who can move, unless all of them are a dead set. */
  lemma InsideMoverOrDoomed(c: Config, s: State)
    requires WellFormed(c) && Inv(c, s) && Inside(c, s) != {}
    ensures Doomed(c, s) || exists v :: v in Inside(c, s) && Enabled(c, s, v)
  {
    if forall v :: v in Inside(c, s) ==> !Enabled(c, s, v) {
      forall v: nat | v in Inside(c, s) ensures Blocked(c, s, v) && Blocker(c, s, v) in Inside(c, s) {
        BlockedMeansUnableToMove(c, s, v);
        BlockerHolds(c, s, v);
      }
      assert DeadSet(c, s, Inside(c, s));
    }
  }

  lemma NobodyInsideMeansAllFree(c: Config, s: State)
    requires Inv(c, s) && Inside(c, s) == {}
    ensures AllFree(s)
  {
    forall a: nat | a < |s.mutex| ensures s.mutex[a].Free? {
      assert forall v: nat :: Holds(c, s, v, a) ==> v in Inside(c, s);
    }
  }

  /** Some worker can move without dooming the others. */
  lemma SafeMover(c: Config, s: State) returns (w: nat)
    requires WellFormed(c) && Inv(c, s) && !Doomed(c, s) && !AllDone(c, s)
    ensures Enabled(c, s, w)
    ensures s.worker[w].pc != LockFst || AllFree(s)
  {
    if Inside(c, s) != {} {
      InsideMoverOrDoomed(c, s);
      w :| w in Inside(c, s) && Enabled(c, s, w);
    } else {
      NobodyInsideMeansAllFree(c, s);
      w :| w < |s.worker| && Unfinished(c, s, w);
      BlockedMeansUnableToMove(c, s, w);
    }
  }

  lemma {:induction false} FinishingRun(c: Config, s: State) returns (sched: seq<nat>)
    requires WellFormed(c) && Inv(c, s) && !Doomed(c, s)
    ensures IsRun(Bank(c), s, sched) && AllDone(c, After(Bank(c), s, sched))
    decreases StepsLeft(c, s)
  {
    if AllDone(c, s) {
      sched := [];
    } else {
      var w := SafeMover(c, s);
      StepKeepsInv(c, s, w);
      StepCreatesNoDeadSet(c, s, w);
      StepUsesOneStep(c, s, w);
      NoStepsLeftMeansAllDone(c, s);
      var rest := FinishingRun(c, Step(c, s, w));
      sched := [w] + rest;
      assert sched[1..] == rest;
    }
  }

  ghost predicate CanFinish(c: Config, s: State) {
    exists sched :: IsRun(Bank(c), s, sched) && AllDone(c, After(Bank(c), s, sched))
  }

  /** A reachable state can still be brought to an end exactly when it has no wait-for cycle. */
  lemma CanFinishExactlyWithoutCycle(c: Config, before: seq<nat>)
    requires WellFormed(c) && IsRun(Bank(c), Init(c), before)
    ensures var s := After(Bank(c), Init(c), before);
            CanFinish(c, s) <==> forall cyc :: !WaitCycle(c, s, cyc)
  {
    var s := After(Bank(c), Init(c), before);
    InitInv(c);
    RunKeepsInv(c, Init(c), before);
    if CanFinish(c, s) {
      var sched :| IsRun(Bank(c), s, sched) && AllDone(c, After(Bank(c), s, sched));
      forall cyc ensures !WaitCycle(c, s, cyc) {
        if WaitCycle(c, s, cyc) {
          CycleIsDeadSet(c, s, cyc);
          DeadSetIsForever(c, s, Members(cyc), sched);
          assert false;
        }
      }
    } else {
      if !Doomed(c, s) {
        var sched := FinishingRun(c, s);
        assert false;
      }
      var d :| DeadSet(c, s, d);
      var cyc := DeadSetHasCycle(c, s, d);
    }
  }

  // ---------- Address order ----------

  /** With address order everybody in a dead set waits for a lower account than its blocker does. */
  lemma BlockerWantsHigher(c: Config, s: State, d: set<nat>, w: nat)
    requires WellFormed(c) && Inv(c, s) && c.policy == AddressOrder && DeadSet(c, s, d) && w in d
    ensures Blocked(c, s, w) && Blocked(c, s, Blocker(c, s, w)) && Blocker(c, s, w) in d
    ensures Wanted(c, s, w) < Wanted(c, s, Blocker(c, s, w)) < c.accounts
  {
  }

  lemma {:induction false} AddressOrderHasNoDeadSet(c: Config, s: State, d: set<nat>, w: nat)
    requires WellFormed(c) && Inv(c, s) && c.policy == AddressOrder && DeadSet(c, s, d)
    requires w in d && Blocked(c, s, w)
    ensures false
    decreases c.accounts - Wanted(c, s, w)
  {
    BlockerWantsHigher(c, s, d, w);
    AddressOrderHasNoDeadSet(c, s, d, Blocker(c, s, w));
  }

  /** Address order never deadlocks: in every reachable state with an unfinished worker some worker can move, and
      no wait-for cycle ever forms. */
  lemma AddressOrderNeverStuck(c: Config, sched: seq<nat>)
    requires WellFormed(c) && c.policy == AddressOrder && IsRun(Bank(c), Init(c), sched)
    ensures var s := After(Bank(c), Init(c), sched);
            && (Stuck(Bank(c), s) <==> AllDone(c, s))
            && (forall cyc :: !WaitCycle(c, s, cyc))
  {
    var s := After(Bank(c), Init(c), sched);
    InitInv(c);
    RunKeepsInv(c, Init(c), sched);
    StuckHasCycle(c, sched);
    forall cyc ensures !WaitCycle(c, s, cyc) {
      if WaitCycle(c, s, cyc) {
        CycleIsDeadSet(c, s, cyc);
        assert cyc[0] in Members(cyc);
        AddressOrderHasNoDeadSet(c, s, Members(cyc), cyc[0]);
      }
    }
  }

  /** So with address order a run stops exactly after eight steps for each transfer, with everything settled. */
  lemma AddressOrderAlwaysSettles(c: Config, sched: seq<nat>)
    requires WellFormed(c) && c.policy == AddressOrder && IsRun(Bank(c), Init(c), sched)
    ensures var s := After(Bank(c), Init(c), sched);
            && |sched| <= TotalSteps(c)
            && (Stuck(Bank(c), s) <==> |sched| == TotalSteps(c))
            && (Stuck(Bank(c), s) ==>
                  && Shaped(c, s)
                  && (forall a :: 0 <= a < c.accounts ==> s.mutex[a].Free?)
                  && (forall a: nat :: a < c.accounts ==> s.balance[a] == c.initial + NetTotal(c, a)))
  {
    AddressOrderNeverStuck(c, sched);
    FinishedBank(c, sched);
  }
}
