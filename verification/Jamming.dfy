/** Which scripts can jam the transfer programs: exactly those that contain a ring of transfers. */
module Jamming {
  import opened Mutexes
  import opened Runs
  import opened Transfers
  import opened Balances
  import opened Deadlocks

  /** A run that stops with work left. */
  ghost predicate Jams(c: Config, sched: seq<nat>) {
    && IsRun(Bank(c), Init(c), sched)
    && Stuck(Bank(c), After(Bank(c), Init(c), sched))
    && !AllDone(c, After(Bank(c), Init(c), sched))
  }

  /** Worker `ws[i]` has a transfer number `ks[i]`. */
  ghost predicate InScripts(c: Config, ws: seq<nat>, ks: seq<nat>) {
    && |ws| == |ks|
    && forall i :: 0 <= i < |ws| ==> ws[i] < |c.scripts| && ks[i] < |c.scripts[ws[i]]|
  }

  /** The account whose mutex the `i`th of these transfers takes first. */
  function FirstAt(c: Config, ws: seq<nat>, ks: seq<nat>, i: nat): nat
    requires InScripts(c, ws, ks) && i < |ws|
  {
    Fst(c.policy, c.scripts[ws[i]][ks[i]])
  }

  /** The account whose mutex the `i`th of these transfers takes second. */
  function SecondAt(c: Config, ws: seq<nat>, ks: seq<nat>, i: nat): nat
    requires InScripts(c, ws, ks) && i < |ws|
  {
    Snd(c.policy, c.scripts[ws[i]][ks[i]])
  }

  /** A ring of transfers of different workers: their first accounts are all different, and each takes second the
      account that the next one takes first. In caller order these are `from` and `to`. */
  ghost predicate Ring(c: Config, ws: seq<nat>, ks: seq<nat>) {
    && |ws| >= 2 && Distinct(ws) && InScripts(c, ws, ks)
    && (forall i, j :: 0 <= i < j < |ws| ==> FirstAt(c, ws, ks, i) != FirstAt(c, ws, ks, j))
    && (forall i: nat :: i < |ws| ==> SecondAt(c, ws, ks, i) == FirstAt(c, ws, ks, Next(|ws|, i)))
  }

  // ---------- A jam is a ring ----------

  /** A blocker of somebody is itself inside, so when it is blocked it is waiting for its second mutex. */
  lemma BlockedBlockerAtSecond(c: Config, s: State, x: nat)
    requires WellFormed(c) && Inv(c, s) && Blocked(c, s, x) && Blocked(c, s, Blocker(c, s, x))
    ensures var v := Blocker(c, s, x);
            v < |s.worker| && s.worker[v].pc == LockSnd && FstOf(c, s, v) == Wanted(c, s, x) < c.accounts
    ensures SndOf(c, s, Blocker(c, s, x)) < c.accounts && SndOf(c, s, Blocker(c, s, x)) != Wanted(c, s, x)
  {
  }

  /** Everybody in a wait-for cycle holds its first mutex and waits for its second one. */
  lemma CycleMembersAtSecond(c: Config, s: State, cyc: seq<nat>, j: nat)
    requires WellFormed(c) && Inv(c, s) && WaitCycle(c, s, cyc) && j < |cyc|
    ensures Unfinished(c, s, cyc[j]) && s.worker[cyc[j]].pc == LockSnd
    ensures FstOf(c, s, cyc[j]) < |s.mutex| && s.mutex[FstOf(c, s, cyc[j])] == HeldBy(cyc[j])
  {
    var i := if j == 0 then |cyc| - 1 else j - 1;
    assert Next(|cyc|, i) == j;
    BlockedBlockerAtSecond(c, s, cyc[i]);
  }

  /** The transfers of the workers in a wait-for cycle are a ring. */
  lemma CycleIsRing(c: Config, s: State, cyc: seq<nat>) returns (ks: seq<nat>)
    requires WellFormed(c) && Inv(c, s) && WaitCycle(c, s, cyc)
    ensures Ring(c, cyc, ks)
  {
    forall i: nat | i < |cyc|
      ensures Unfinished(c, s, cyc[i]) && s.worker[cyc[i]].pc == LockSnd
      ensures FstOf(c, s, cyc[i]) < |s.mutex| && s.mutex[FstOf(c, s, cyc[i])] == HeldBy(cyc[i])
    {
      CycleMembersAtSecond(c, s, cyc, i);
    }
    ks := seq(|cyc|, i requires 0 <= i < |cyc| => s.worker[cyc[i]].iter);
    forall i: nat | i < |cyc|
      ensures SecondAt(c, cyc, ks, i) == FirstAt(c, cyc, ks, Next(|cyc|, i))
    {
      var next := cyc[Next(|cyc|, i)];
      assert Blocker(c, s, cyc[i]) == next;
      BlockedBlockerAtSecond(c, s, cyc[i]);
    }
  }

  // ---------- A ring can jam ----------

  /** Every other worker is outside `exec_transaction`. */
  ghost predicate Alone(c: Config, s: State, w: nat) {
    forall v: nat :: v < |s.worker| && v != w ==> s.worker[v].pc == LockFst
  }

  lemma AloneCanMove(c: Config, s: State, w: nat)
    requires WellFormed(c) && Inv(c, s) && Alone(c, s, w) && w < |s.worker| && Unfinished(c, s, w)
    ensures Enabled(c, s, w) && Alone(c, Step(c, s, w), w)
  {
  }

  /** A worker that is alone can be run up to the start of its transfer `k`; nobody else notices. */
  lemma {:induction false} RunAlone(c: Config, s: State, w: nat, k: nat) returns (sched: seq<nat>)
    requires WellFormed(c) && Inv(c, s) && Alone(c, s, w) && w < |s.worker|
    requires k <= |c.scripts[w]|
    requires s.worker[w].iter < k || s.worker[w] == Worker(k, LockFst)
    ensures IsRun(Bank(c), s, sched)
    ensures var t := After(Bank(c), s, sched); Inv(c, t) && t.worker == s.worker[w := Worker(k, LockFst)]
    decreases 8 * (k - s.worker[w].iter) - Taken(s.worker[w].pc)
  {
    if s.worker[w] == Worker(k, LockFst) {
      sched := [];
    } else {
      AloneCanMove(c, s, w);
      StepKeepsInv(c, s, w);
      var t := Step(c, s, w);
      var rest := RunAlone(c, t, w, k);
      sched := [w] + rest;
      assert sched[1..] == rest;
      assert t.worker[w := Worker(k, LockFst)] == s.worker[w := Worker(k, LockFst)];
    }
  }

  /** Of the ring, the first `m` workers hold their first mutex and the others are about to take it; all workers
      outside the ring are outside `exec_transaction`. */
  ghost predicate Entered(c: Config, s: State, ws: seq<nat>, ks: seq<nat>, m: nat)
    requires InScripts(c, ws, ks)
  {
    && Inv(c, s)
    && (forall i :: 0 <= i < |ws| ==>
          s.worker[ws[i]] == Worker(ks[i], if i < m then LockSnd else LockFst))
    && (forall x: nat :: x < |s.worker| && x !in ws ==> s.worker[x].pc == LockFst)
  }

  /** The first `m` workers of the ring stand at their transfers and the others at the start of their scripts. */
  ghost predicate LinedUp(c: Config, s: State, ws: seq<nat>, ks: seq<nat>, m: nat)
    requires InScripts(c, ws, ks) && m <= |ws|
  {
    && Inv(c, s)
    && (forall x: nat :: x < |s.worker| ==> s.worker[x].pc == LockFst)
    && (forall i :: 0 <= i < |ws| ==> s.worker[ws[i]].iter == if i < m then ks[i] else 0)
  }

  /** One after the other the workers of the ring are run up to their transfers. */
  lemma {:induction false} LineUp(c: Config, ws: seq<nat>, ks: seq<nat>, m: nat) returns (sched: seq<nat>)
    requires WellFormed(c) && Ring(c, ws, ks) && m <= |ws|
    ensures IsRun(Bank(c), Init(c), sched) && LinedUp(c, After(Bank(c), Init(c), sched), ws, ks, m)
  {
    if m == 0 {
      InitInv(c);
      sched := [];
    } else {
      var before := LineUp(c, ws, ks, m - 1);
      var more := NextLinesUp(c, After(Bank(c), Init(c), before), ws, ks, m - 1);
      RunConcat(Bank(c), Init(c), before, more);
      sched := before + more;
    }
  }

  lemma NextLinesUp(c: Config, s: State, ws: seq<nat>, ks: seq<nat>, m: nat) returns (more: seq<nat>)
    requires WellFormed(c) && Ring(c, ws, ks) && m < |ws| && LinedUp(c, s, ws, ks, m)
    ensures IsRun(Bank(c), s, more) && LinedUp(c, After(Bank(c), s, more), ws, ks, m + 1)
  {
    more := RunAlone(c, s, ws[m], ks[m]);
  }

  /** While the ring enters, a held mutex is the first one of a worker that has entered. */
  lemma HeldByEntered(c: Config, s: State, ws: seq<nat>, ks: seq<nat>, m: nat, a: nat) returns (i: nat)
    requires WellFormed(c) && Ring(c, ws, ks) && m <= |ws| && Entered(c, s, ws, ks, m)
    requires a < |s.mutex| && s.mutex[a].HeldBy?
    ensures i < m && FirstAt(c, ws, ks, i) == a
  {
    var v := s.mutex[a].thread;
    assert Holds(c, s, v, a);
    i :| i < |ws| && ws[i] == v;
  }

  /** So the first mutex of the next worker to enter is free. */
  lemma NextFirstIsFree(c: Config, s: State, ws: seq<nat>, ks: seq<nat>, m: nat)
    requires WellFormed(c) && Ring(c, ws, ks) && m < |ws| && Entered(c, s, ws, ks, m)
    ensures Enabled(c, s, ws[m])
  {
    var a := FirstAt(c, ws, ks, m);
    assert WorkerSane(c, s, ws[m]);
    if s.mutex[a].HeldBy? {
      var i := HeldByEntered(c, s, ws, ks, m, a);
    }
  }

  lemma NextEnters(c: Config, s: State, ws: seq<nat>, ks: seq<nat>, m: nat)
    requires WellFormed(c) && Ring(c, ws, ks) && m < |ws| && Entered(c, s, ws, ks, m)
    ensures Enabled(c, s, ws[m]) && Entered(c, Step(c, s, ws[m]), ws, ks, m + 1)
  {
    NextFirstIsFree(c, s, ws, ks, m);
    StepKeepsInv(c, s, ws[m]);
  }

  /** Then each of them takes its first mutex. */
  lemma {:induction false} TakeFirsts(c: Config, s: State, ws: seq<nat>, ks: seq<nat>, m: nat)
    returns (sched: seq<nat>)
    requires WellFormed(c) && Ring(c, ws, ks) && m <= |ws| && Entered(c, s, ws, ks, 0)
    ensures IsRun(Bank(c), s, sched) && Entered(c, After(Bank(c), s, sched), ws, ks, m)
  {
    if m == 0 {
      sched := [];
    } else {
      var before := TakeFirsts(c, s, ws, ks, m - 1);
      var t := After(Bank(c), s, before);
      NextEnters(c, t, ws, ks, m - 1);
      RunExtend(Bank(c), s, before, ws[m - 1]);
      sched := before + [ws[m - 1]];
    }
  }

  /** Now everybody in the ring waits for the next one. */
  lemma EnteredRingIsDead(c: Config, s: State, ws: seq<nat>, ks: seq<nat>)
    requires WellFormed(c) && Ring(c, ws, ks) && Entered(c, s, ws, ks, |ws|)
    ensures DeadSet(c, s, Members(ws))
  {
    assert ws[0] in Members(ws);
    forall w: nat | w in Members(ws) ensures Blocked(c, s, w) && Blocker(c, s, w) in Members(ws) {
      var i: nat :| i < |ws| && ws[i] == w;
      var next := Next(|ws|, i);
      assert WorkerSane(c, s, w);
      assert SndOf(c, s, w) == FirstAt(c, ws, ks, next) == FstOf(c, s, ws[next]);
      assert Holds(c, s, ws[next], FstOf(c, s, ws[next]));
    }
  }

  /** Every run can be continued until nobody can move. */
  lemma {:induction false} RunOn(c: Config, s: State) returns (sched: seq<nat>)
    requires WellFormed(c) && Inv(c, s)
    ensures IsRun(Bank(c), s, sched) && Stuck(Bank(c), After(Bank(c), s, sched))
    decreases StepsLeft(c, s)
  {
    if w: nat :| Bank(c).enabled(s, w) {
      StepKeepsInv(c, s, w);
      StepUsesOneStep(c, s, w);
      NoStepsLeftMeansAllDone(c, s);
      var rest := RunOn(c, Step(c, s, w));
      sched := [w] + rest;
      assert sched[1..] == rest;
    } else {
      sched := [];
    }
  }

  lemma JammingRun(c: Config, ws: seq<nat>, ks: seq<nat>) returns (sched: seq<nat>)
    requires WellFormed(c) && Ring(c, ws, ks)
    ensures Jams(c, sched)
  {
    var a := LineUp(c, ws, ks, |ws|);
    var s := After(Bank(c), Init(c), a);
    var b := TakeFirsts(c, s, ws, ks, |ws|);
    var t := After(Bank(c), s, b);
    EnteredRingIsDead(c, t, ws, ks);
    var d := RunOn(c, t);
    DeadSetIsForever(c, t, Members(ws), d);
    RunConcat(Bank(c), Init(c), a, b);
    RunConcat(Bank(c), Init(c), a + b, d);
    sched := a + b + d;
  }

  // ---------- The exact condition ----------

  /** For any number of accounts and workers, and in either lock order, some run jams exactly when the scripts contain
      a ring of transfers. */
  lemma JamsExactly(c: Config)
    requires WellFormed(c)
    ensures (exists sched :: Jams(c, sched)) <==> (exists ws, ks :: Ring(c, ws, ks))
  {
    if sched :| Jams(c, sched) {
      InitInv(c);
      RunKeepsInv(c, Init(c), sched);
      StuckHasCycle(c, sched);
      var cyc :| WaitCycle(c, After(Bank(c), Init(c), sched), cyc);
      var ks := CycleIsRing(c, After(Bank(c), Init(c), sched), cyc);
    }
    if ws, ks :| Ring(c, ws, ks) {
      var sched := JammingRun(c, ws, ks);
    }
  }

  /** A ring is no longer than there are accounts or workers, so whether there is one can be checked. */
  lemma RingIsShort(c: Config, ws: seq<nat>, ks: seq<nat>)
    requires WellFormed(c) && Ring(c, ws, ks)
    ensures |ws| <= c.accounts && |ws| <= |c.scripts|
  {
    var firsts := seq(|ws|, i requires 0 <= i < |ws| => FirstAt(c, ws, ks, i));
    DistinctAreFew(firsts, c.accounts);
    DistinctAreFew(ws, |c.scripts|);
  }

  /** In address order each account of a ring would be above the one before it. */
  lemma {:induction false} FirstsRise(c: Config, ws: seq<nat>, ks: seq<nat>, i: nat)
    requires WellFormed(c) && c.policy == AddressOrder && Ring(c, ws, ks) && i < |ws|
    ensures FirstAt(c, ws, ks, i) >= FirstAt(c, ws, ks, 0) + i
  {
    if i == 0 {
    } else {
      FirstsRise(c, ws, ks, i - 1);
      assert Next(|ws|, i - 1) == i;
    }
  }

  /** So in address order no scripts contain a ring. */
  lemma AddressOrderHasNoRing(c: Config, ws: seq<nat>, ks: seq<nat>)
    requires WellFormed(c) && c.policy == AddressOrder
    ensures !Ring(c, ws, ks)
  {
    if Ring(c, ws, ks) {
      assert SecondAt(c, ws, ks, |ws| - 1) == FirstAt(c, ws, ks, Next(|ws|, |ws| - 1));
      FirstsRise(c, ws, ks, |ws| - 1);
    }
  }

  // ---------- Two accounts ----------

  /** Two different workers have, somewhere in their scripts, transfers in opposite directions. */
  ghost predicate OppositeTransfers(c: Config, v: nat, i: nat, w: nat, j: nat) {
    && v < |c.scripts| && w < |c.scripts| && v != w && i < |c.scripts[v]| && j < |c.scripts[w]|
    && c.scripts[v][i].from == c.scripts[w][j].to && c.scripts[v][i].to == c.scripts[w][j].from
  }

  /** Two workers, each holding the mutex the other one waits for. */
  ghost predicate Crossed(c: Config, s: State, v: nat, w: nat) {
    && v != w && Blocked(c, s, v) && Blocked(c, s, w)
    && Blocker(c, s, v) == w && Blocker(c, s, w) == v
    && s.worker[v].pc == LockSnd && s.worker[w].pc == LockSnd
  }

  lemma PairCycleIsCrossed(c: Config, s: State, cyc: seq<nat>)
    requires WellFormed(c) && Inv(c, s) && WaitCycle(c, s, cyc) && |cyc| == 2
    ensures Crossed(c, s, cyc[0], cyc[1])
  {
    CycleMembersAtSecond(c, s, cyc, 0);
    CycleMembersAtSecond(c, s, cyc, 1);
    assert Next(2, 0) == 1 && Next(2, 1) == 0;
  }

  lemma CrossedMeansOpposite(c: Config, s: State, v: nat, w: nat)
    requires WellFormed(c) && Inv(c, s) && Crossed(c, s, v, w) && c.policy == CallerOrder
    ensures OppositeTransfers(c, v, s.worker[v].iter, w, s.worker[w].iter)
  {
    BlockedBlockerAtSecond(c, s, v);
    BlockedBlockerAtSecond(c, s, w);
  }

  /** With two accounts a jammed bank is two workers each holding the mutex the other one wants, and, in caller
      order, working on opposite transfers. */
  lemma TwoAccountJamIsCrossed(c: Config, sched: seq<nat>) returns (v: nat, w: nat)
    requires WellFormed(c) && c.accounts == 2 && Jams(c, sched)
    ensures Crossed(c, After(Bank(c), Init(c), sched), v, w)
    ensures c.policy == CallerOrder ==>
              var s := After(Bank(c), Init(c), sched);
              OppositeTransfers(c, v, s.worker[v].iter, w, s.worker[w].iter)
  {
    var s := After(Bank(c), Init(c), sched);
    InitInv(c);
    RunKeepsInv(c, Init(c), sched);
    StuckHasCycle(c, sched);
    var cyc :| WaitCycle(c, s, cyc);
    var ks := CycleIsRing(c, s, cyc);
    RingIsShort(c, cyc, ks);
    v, w := cyc[0], cyc[1];
    PairCycleIsCrossed(c, s, cyc);
    if c.policy == CallerOrder {
      CrossedMeansOpposite(c, s, v, w);
    }
  }

  lemma OppositeTransfersAreRing(c: Config, v: nat, i: nat, w: nat, j: nat)
    requires WellFormed(c) && c.policy == CallerOrder && OppositeTransfers(c, v, i, w, j)
    ensures Ring(c, [v, w], [i, j])
  {
    var ws, ks := [v, w], [i, j];
    assert Next(2, 0) == 1 && Next(2, 1) == 0;
    assert FirstAt(c, ws, ks, 0) == SecondAt(c, ws, ks, 1) && FirstAt(c, ws, ks, 1) == SecondAt(c, ws, ks, 0);
  }

  /** So `deadlock.c` on two accounts can jam exactly when two of its workers have transfers in opposite directions,
      wherever in their scripts these stand. */
  lemma TwoAccountsJamExactly(c: Config)
    requires WellFormed(c) && c.accounts == 2 && c.policy == CallerOrder
    ensures (exists sched :: Jams(c, sched)) <==> (exists v, i, w, j :: OppositeTransfers(c, v, i, w, j))
  {
    if sched :| Jams(c, sched) {
      var v, w := TwoAccountJamIsCrossed(c, sched);
    }
    if v: nat, i: nat, w: nat, j: nat :| OppositeTransfers(c, v, i, w, j) {
      OppositeTransfersAreRing(c, v, i, w, j);
      var sched := JammingRun(c, [v, w], [i, j]);
    }
  }
}
