/** Where the money is in every reachable state of the two transfer programs, whatever the lock order. */
module Balances {
  import opened Runs
  import opened Sums
  import opened Transfers

  // ---------- Progress ----------

  /** The steps of a transfer already taken. */
  function Taken(pc: Pc): nat {
    match pc
    case LockFst => 0
    case LockSnd => 1
    case LoadFrom => 2
    case StoreFrom(_) => 3
    case LoadTo => 4
    case StoreTo(_) => 5
    case UnlockSnd => 6
    case UnlockFst => 7
  }

  function StepsLeftOf(script: seq<Transfer>, wk: Worker): int { 8 * (|script| - wk.iter) - Taken(wk.pc) }

  function StepsLeftList(c: Config, s: State): seq<int>
    requires |s.worker| == |c.scripts|
  {
    seq(|s.worker|, w requires 0 <= w < |s.worker| => StepsLeftOf(c.scripts[w], s.worker[w]))
  }

  function StepsLeft(c: Config, s: State): int {
    if |s.worker| == |c.scripts| then Sum(StepsLeftList(c, s)) else 0
  }

  /** Eight steps for every transfer of every script. */
  function TotalSteps(c: Config): int {
    Sum(seq(|c.scripts|, w requires 0 <= w < |c.scripts| => 8 * |c.scripts[w]|))
  }

  lemma StepUsesOneStep(c: Config, s: State, w: nat)
    requires Enabled(c, s, w)
    ensures StepsLeft(c, Step(c, s, w)) == StepsLeft(c, s) - 1
  {
    var t := Step(c, s, w);
    assert StepsLeftList(c, t) == StepsLeftList(c, s)[w := StepsLeftOf(c.scripts[w], t.worker[w])];
    SumUpdate(StepsLeftList(c, s), w, StepsLeftOf(c.scripts[w], t.worker[w]));
  }

  ghost predicate AllDone(c: Config, s: State) {
    forall w: nat :: w < |s.worker| ==> !Unfinished(c, s, w)
  }

  lemma NoStepsLeftMeansAllDone(c: Config, s: State)
    requires Inv(c, s)
    ensures 0 <= StepsLeft(c, s)
    ensures StepsLeft(c, s) == 0 <==> AllDone(c, s)
  {
    var list := StepsLeftList(c, s);
    forall w: nat | w < |s.worker| ensures 0 <= list[w] && (list[w] == 0 <==> !Unfinished(c, s, w)) {
      assert WorkerSane(c, s, w);
    }
    SumBounds(list, 0, Max(list));
    if w: nat :| w < |s.worker| && Unfinished(c, s, w) {
      SumAtLeastEntry(list, w);
    } else {
      SumConstant(list, 0);
    }
  }

  lemma RunUsesOneStepEach(c: Config, s: State, sched: seq<nat>)
    requires IsRun(Bank(c), s, sched)
    ensures StepsLeft(c, After(Bank(c), s, sched)) == StepsLeft(c, s) - |sched|
  {
    forall u, w: nat | Bank(c).enabled(u, w) ensures StepsLeft(c, Bank(c).step(u, w)) == StepsLeft(c, u) - 1 {
      StepUsesOneStep(c, u, w);
    }
    RankAlongRun(Bank(c), _ => true, u => StepsLeft(c, u), s, sched);
  }

  // ---------- Each account ----------

  /** What a transfer does to account `a`: the debit when `debited`, the credit when `credited`. */
  function Effect(t: Transfer, a: nat, debited: bool, credited: bool): int {
    var amount: int := t.amount;
    (if debited && t.from == a then -amount else 0) + (if credited && t.to == a then amount else 0)
  }

  /** What the first `k` transfers of a script do to account `a`. */
  function Net(script: seq<Transfer>, k: nat, a: nat): int
    requires k <= |script|
  {
    if k == 0 then 0 else Net(script, k - 1, a) + Effect(script[k - 1], a, true, true)
  }

  /** What a worker has done to account `a` so far, a half-finished transfer included. */
  function NetOf(script: seq<Transfer>, wk: Worker, a: nat): int {
    if wk.iter > |script| then 0
    else if wk.iter == |script| then Net(script, |script|, a)
    else Net(script, wk.iter, a) + Effect(script[wk.iter], a, Taken(wk.pc) >= 4, Taken(wk.pc) >= 6)
  }

  function NetList(c: Config, s: State, a: nat): seq<int>
    requires |s.worker| == |c.scripts|
  {
    seq(|s.worker|, w requires 0 <= w < |s.worker| => NetOf(c.scripts[w], s.worker[w], a))
  }

  ghost predicate BalancesExplained(c: Config, s: State)
    requires Shaped(c, s)
  {
    forall a: nat :: a < c.accounts ==> s.balance[a] == c.initial + Sum(NetList(c, s, a))
  }

  lemma StepKeepsBalancesExplained(c: Config, s: State, w: nat)
    requires WellFormed(c) && Inv(c, s) && Enabled(c, s, w) && BalancesExplained(c, s)
    ensures Shaped(c, Step(c, s, w)) && BalancesExplained(c, Step(c, s, w))
  {
    var t := Step(c, s, w);
    assert WorkerSane(c, s, w);
    forall a: nat | a < c.accounts ensures t.balance[a] == c.initial + Sum(NetList(c, t, a)) {
      var script := c.scripts[w];
      assert NetList(c, t, a) == NetList(c, s, a)[w := NetOf(script, t.worker[w], a)];
      SumUpdate(NetList(c, s, a), w, NetOf(script, t.worker[w], a));
      assert s.balance[a] == c.initial + Sum(NetList(c, s, a));
      StepChangesNet(c, s, w, a);
    }
  }

  lemma StepChangesNet(c: Config, s: State, w: nat, a: nat)
    requires WellFormed(c) && Inv(c, s) && Enabled(c, s, w) && a < c.accounts
    ensures Step(c, s, w).balance[a] - s.balance[a]
         == NetOf(c.scripts[w], Step(c, s, w).worker[w], a) - NetOf(c.scripts[w], s.worker[w], a)
  {
    assert WorkerSane(c, s, w);
    var script, k := c.scripts[w], s.worker[w].iter;
    if s.worker[w].pc == UnlockFst {
      assert Net(script, k + 1, a) == Net(script, k, a) + Effect(script[k], a, true, true);
      if k + 1 < |script| {
        assert Effect(script[k + 1], a, false, false) == 0;
      }
    }
  }

  /** In every reachable state each balance is the initial one plus what the workers' scripts, as far as they have
      got, do to that account: no update is ever lost. */
  lemma NoUpdateIsLost(c: Config, sched: seq<nat>)
    requires WellFormed(c) && IsRun(Bank(c), Init(c), sched)
    ensures var s := After(Bank(c), Init(c), sched); Shaped(c, s) && BalancesExplained(c, s)
  {
    InitInv(c);
    forall a: nat | a < c.accounts ensures Sum(NetList(c, Init(c), a)) == 0 {
      forall w: nat | w < |c.scripts| ensures NetOf(c.scripts[w], Worker(0, LockFst), a) == 0 {
        assert Net(c.scripts[w], 0, a) == 0;
      }
      SumConstant(NetList(c, Init(c), a), 0);
    }
    var inv := s => Inv(c, s) && BalancesExplained(c, s);
    forall s, w: nat | inv(s) && Bank(c).enabled(s, w) ensures inv(Bank(c).step(s, w)) {
      StepKeepsInv(c, s, w);
      StepKeepsBalancesExplained(c, s, w);
    }
    InvariantAlongRun(Bank(c), inv, Init(c), sched);
  }

  // ---------- All accounts together ----------

  /** The amount a worker has debited and not yet credited. */
  function InTransitOf(script: seq<Transfer>, wk: Worker): int {
    if wk.iter < |script| && (wk.pc == LoadTo || wk.pc.StoreTo?) then script[wk.iter].amount else 0
  }

  function InTransitList(c: Config, s: State): seq<int>
    requires |s.worker| == |c.scripts|
  {
    seq(|s.worker|, w requires 0 <= w < |s.worker| => InTransitOf(c.scripts[w], s.worker[w]))
  }

  lemma StepKeepsTotal(c: Config, s: State, w: nat)
    requires WellFormed(c) && Inv(c, s) && Enabled(c, s, w)
    ensures |Step(c, s, w).worker| == |c.scripts|
    ensures Sum(Step(c, s, w).balance) + Sum(InTransitList(c, Step(c, s, w)))
         == Sum(s.balance) + Sum(InTransitList(c, s))
  {
    var t, cur := Step(c, s, w), Current(c, s, w);
    assert WorkerSane(c, s, w);
    assert InTransitList(c, t) == InTransitList(c, s)[w := InTransitOf(c.scripts[w], t.worker[w])];
    SumUpdate(InTransitList(c, s), w, InTransitOf(c.scripts[w], t.worker[w]));
    if s.worker[w].pc.StoreFrom? {
      SumUpdate(s.balance, cur.from, s.balance[cur.from] - cur.amount);
    } else if s.worker[w].pc.StoreTo? {
      SumUpdate(s.balance, cur.to, s.balance[cur.to] + cur.amount);
    }
  }

  /** Conservation: in every reachable state the balances and the money in transit add up to what the bank
      started with. */
  lemma MoneyIsConserved(c: Config, sched: seq<nat>)
    requires WellFormed(c) && IsRun(Bank(c), Init(c), sched)
    ensures var s := After(Bank(c), Init(c), sched);
            |s.worker| == |c.scripts| && Sum(s.balance) + Sum(InTransitList(c, s)) == c.accounts * c.initial
  {
    InitInv(c);
    SumConstant(Init(c).balance, c.initial);
    SumConstant(InTransitList(c, Init(c)), 0);
    var inv := s => Inv(c, s) && Sum(s.balance) + Sum(InTransitList(c, s)) == c.accounts * c.initial;
    forall s, w: nat | inv(s) && Bank(c).enabled(s, w) ensures inv(Bank(c).step(s, w)) {
      StepKeepsInv(c, s, w);
      StepKeepsTotal(c, s, w);
    }
    InvariantAlongRun(Bank(c), inv, Init(c), sched);
  }

  // ---------- Bounds ----------

  /** The transfers a worker has begun. */
  function BegunOf(wk: Worker): int { wk.iter + (if wk.pc == LockFst then 0 else 1) }

  function BegunList(s: State): seq<int> {
    seq(|s.worker|, w requires 0 <= w < |s.worker| => BegunOf(s.worker[w]))
  }

  lemma {:induction false} NetIsBounded(script: seq<Transfer>, k: nat, a: nat)
    requires k <= |script| && forall j :: 0 <= j < |script| ==> script[j].from != script[j].to && script[j].amount <= 9
    ensures -9 * k <= Net(script, k, a) <= 9 * k
  {
    if k == 0 {
    } else {
      NetIsBounded(script, k - 1, a);
    }
  }

  lemma {:induction false} SumScales(s: seq<int>, k: int)
    ensures Sum(seq(|s|, i requires 0 <= i < |s| => k * s[i])) == k * Sum(s)
  {
    var scaled := seq(|s|, i requires 0 <= i < |s| => k * s[i]);
    if s == [] {
    } else {
      assert scaled[1..] == seq(|s[1..]|, i requires 0 <= i < |s[1..]| => k * s[1..][i]);
      SumScales(s[1..], k);
    }
  }

  /** No balance ever strays further from its initial value than 9 for each transfer begun. With the programs'
      two workers of 100 transfers each that is 1800, so no balance leaves the range of a 32-bit `int`. */
  lemma BalancesStayInRange(c: Config, sched: seq<nat>, a: nat)
    requires WellFormed(c) && IsRun(Bank(c), Init(c), sched) && a < c.accounts
    ensures var s := After(Bank(c), Init(c), sched);
            && |s.balance| == c.accounts
            && -9 * Sum(BegunList(s)) <= s.balance[a] - c.initial <= 9 * Sum(BegunList(s))
            && Sum(BegunList(s)) * 8 <= TotalSteps(c)
  {
    NoUpdateIsLost(c, sched);
    InitInv(c);
    RunKeepsInv(c, Init(c), sched);
    var s := After(Bank(c), Init(c), sched);
    var net, begun := NetList(c, s, a), BegunList(s);
    var up := seq(|begun|, i requires 0 <= i < |begun| => 9 * begun[i]);
    var down := seq(|begun|, i requires 0 <= i < |begun| => -9 * begun[i]);
    var eight := seq(|begun|, i requires 0 <= i < |begun| => 8 * begun[i]);
    var all := seq(|c.scripts|, w requires 0 <= w < |c.scripts| => 8 * |c.scripts[w]|);
    forall w: nat | w < |s.worker| ensures down[w] <= net[w] <= up[w] && eight[w] <= all[w] {
      assert WorkerSane(c, s, w);
      NetIsBounded(c.scripts[w], s.worker[w].iter, a);
    }
    SumMonotone(net, up);
    SumMonotone(down, net);
    SumMonotone(eight, all);
    SumScales(begun, 9);
    SumScales(begun, -9);
    SumScales(begun, 8);
  }

  /** The constants of the programs: two workers of 100 transfers each, accounts of 100. */
  lemma ProgramBalancesStayInRange(c: Config, sched: seq<nat>, a: nat)
    requires WellFormed(c) && c.initial == 100 && |c.scripts| == 2 && |c.scripts[0]| == |c.scripts[1]| == 100
    requires IsRun(Bank(c), Init(c), sched) && a < c.accounts
    ensures var s := After(Bank(c), Init(c), sched); |s.balance| == c.accounts && -1700 <= s.balance[a] <= 1900
  {
    BalancesStayInRange(c, sched, a);
    SumConstant(seq(|c.scripts|, w requires 0 <= w < |c.scripts| => 8 * |c.scripts[w]|), 800);
  }

  // ---------- The end ----------

  /** What all scripts together do to account `a`. */
  function NetTotal(c: Config, a: nat): int {
    Sum(seq(|c.scripts|, w requires 0 <= w < |c.scripts| => Net(c.scripts[w], |c.scripts[w]|, a)))
  }

  /** No run is longer than eight steps a transfer; a run of that length, and no shorter one, has finished every
      worker; then all mutexes are free and each balance is the initial one plus all credits less all debits of
      the scripts, whatever the schedule. */
  lemma FinishedBank(c: Config, sched: seq<nat>)
    requires WellFormed(c) && IsRun(Bank(c), Init(c), sched)
    ensures var s := After(Bank(c), Init(c), sched);
            && Shaped(c, s)
            && |sched| <= TotalSteps(c)
            && (AllDone(c, s) <==> |sched| == TotalSteps(c))
            && (AllDone(c, s) ==>
                  && (forall a :: 0 <= a < c.accounts ==> s.mutex[a].Free?)
                  && (forall a: nat :: a < c.accounts ==> s.balance[a] == c.initial + NetTotal(c, a))
                  && Sum(s.balance) == c.accounts * c.initial)
  {
    var s := After(Bank(c), Init(c), sched);
    RunLength(c, sched);
    NoUpdateIsLost(c, sched);
    MoneyIsConserved(c, sched);
    if AllDone(c, s) {
      AllDoneSettles(c, s);
    }
  }

  lemma InitHasAllSteps(c: Config)
    ensures StepsLeft(c, Init(c)) == TotalSteps(c)
  {
    assert StepsLeftList(c, Init(c)) == seq(|c.scripts|, w requires 0 <= w < |c.scripts| => 8 * |c.scripts[w]|);
  }

  lemma RunLength(c: Config, sched: seq<nat>)
    requires WellFormed(c) && IsRun(Bank(c), Init(c), sched)
    ensures var s := After(Bank(c), Init(c), sched);
            Inv(c, s) && |sched| <= TotalSteps(c) && (AllDone(c, s) <==> |sched| == TotalSteps(c))
  {
    InitInv(c);
    RunKeepsInv(c, Init(c), sched);
    RunUsesOneStepEach(c, Init(c), sched);
    InitHasAllSteps(c);
    NoStepsLeftMeansAllDone(c, After(Bank(c), Init(c), sched));
  }

  lemma AllDoneSettles(c: Config, s: State)
    requires Inv(c, s) && AllDone(c, s) && BalancesExplained(c, s)
    ensures forall a: nat :: a < c.accounts ==> s.mutex[a].Free?
    ensures forall a: nat :: a < c.accounts ==> s.balance[a] == c.initial + NetTotal(c, a)
    ensures Sum(InTransitList(c, s)) == 0
  {
    forall w: nat | w < |s.worker| ensures s.worker[w] == Worker(|c.scripts[w]|, LockFst) {
      assert WorkerSane(c, s, w) && !Unfinished(c, s, w);
    }
    SumConstant(InTransitList(c, s), 0);
    forall a: nat | a < c.accounts ensures s.mutex[a].Free? {
      assert forall w: nat :: !Holds(c, s, w, a);
    }
    forall a: nat | a < c.accounts ensures s.balance[a] == c.initial + NetTotal(c, a) {
      assert NetList(c, s, a)
          == seq(|c.scripts|, w requires 0 <= w < |c.scripts| => Net(c.scripts[w], |c.scripts[w]|, a));
      assert s.balance[a] == c.initial + Sum(NetList(c, s, a));
    }
  }
}
