/** `ordered_lock.c` and `deadlock.c`: workers move money between accounts, each account behind its own mutex.

    The two programs differ only in the order in which `exec_transaction` takes the two mutexes, so one model
    carries both as a `Policy`. The random choices of a worker are a fixed list of transfers, its script.
 */
module Transfers {
  import opened Mutexes
  import opened Runs

  datatype Transfer = Transfer(from: nat, to: nat, amount: nat)

  /** `CallerOrder` locks `from` first (deadlock.c); `AddressOrder` locks the lower account first (ordered_lock.c). */
  datatype Policy = CallerOrder | AddressOrder

  datatype Config = Config(policy: Policy, accounts: nat, initial: int, scripts: seq<seq<Transfer>>)

  /** What `thread_start` can choose: two different accounts, and an amount `rand() % 10`. */
  ghost predicate WellFormed(c: Config) {
    forall w, k :: 0 <= w < |c.scripts| && 0 <= k < |c.scripts[w]| ==>
      var t := c.scripts[w][k];
      t.from < c.accounts && t.to < c.accounts && t.from != t.to && t.amount <= 9
  }

  function Fst(p: Policy, t: Transfer): nat {
    if p == AddressOrder && t.from > t.to then t.to else t.from
  }

  function Snd(p: Policy, t: Transfer): nat {
    if p == AddressOrder && t.from > t.to then t.from else t.to
  }

  /** Where a worker is in `exec_transaction`; the two balance updates are a load and a store each. */
  datatype Pc = LockFst | LockSnd | LoadFrom | StoreFrom(r: int) | LoadTo | StoreTo(r: int) | UnlockSnd | UnlockFst

  /** `iter` transfers are complete. */
  datatype Worker = Worker(iter: nat, pc: Pc)

  datatype State = State(balance: seq<int>, mutex: seq<Owner>, worker: seq<Worker>)

  function Init(c: Config): State {
    State(seq(c.accounts, _ => c.initial), seq(c.accounts, _ => Free), seq(|c.scripts|, _ => Worker(0, LockFst)))
  }

  predicate Shaped(c: Config, s: State) {
    |s.balance| == |s.mutex| == c.accounts && |s.worker| == |c.scripts|
  }

  predicate Unfinished(c: Config, s: State, w: nat) {
    w < |s.worker| && w < |c.scripts| && s.worker[w].iter < |c.scripts[w]|
  }

  /** The transfer worker `w` is working on. */
  function Current(c: Config, s: State, w: nat): Transfer
    requires Unfinished(c, s, w)
  {
    c.scripts[w][s.worker[w].iter]
  }

  function FstOf(c: Config, s: State, w: nat): nat
    requires Unfinished(c, s, w)
  {
    Fst(c.policy, Current(c, s, w))
  }

  function SndOf(c: Config, s: State, w: nat): nat
    requires Unfinished(c, s, w)
  {
    Snd(c.policy, Current(c, s, w))
  }

  predicate InBounds(c: Config, t: Transfer) { t.from < c.accounts && t.to < c.accounts }

  predicate Enabled(c: Config, s: State, w: nat) {
    && Shaped(c, s) && Unfinished(c, s, w) && InBounds(c, Current(c, s, w))
    && (s.worker[w].pc == LockFst ==> s.mutex[FstOf(c, s, w)].Free?)
    && (s.worker[w].pc == LockSnd ==> s.mutex[SndOf(c, s, w)].Free?)
  }

  /** The next atomic step of worker `w`. */
  function Step(c: Config, s: State, w: nat): State {
    if !Enabled(c, s, w) then s else
    var t := Current(c, s, w);
    var fst, snd := FstOf(c, s, w), SndOf(c, s, w);
    var wk := s.worker[w];
    match wk.pc
    case LockFst => State(s.balance, s.mutex[fst := HeldBy(w)], s.worker[w := wk.(pc := LockSnd)])
    case LockSnd => State(s.balance, s.mutex[snd := HeldBy(w)], s.worker[w := wk.(pc := LoadFrom)])
    case LoadFrom => State(s.balance, s.mutex, s.worker[w := wk.(pc := StoreFrom(s.balance[t.from]))])
    case StoreFrom(r) => State(s.balance[t.from := r - t.amount], s.mutex, s.worker[w := wk.(pc := LoadTo)])
    case LoadTo => State(s.balance, s.mutex, s.worker[w := wk.(pc := StoreTo(s.balance[t.to]))])
    case StoreTo(r) => State(s.balance[t.to := r + t.amount], s.mutex, s.worker[w := wk.(pc := UnlockSnd)])
    case UnlockSnd => State(s.balance, s.mutex[snd := Free], s.worker[w := wk.(pc := UnlockFst)])
    case UnlockFst => State(s.balance, s.mutex[fst := Free], s.worker[w := Worker(wk.iter + 1, LockFst)])
  }

  function Bank(c: Config): Machine<State> {
    Machine((s, w) => Enabled(c, s, w), (s, w) => Step(c, s, w))
  }

  // ---------- Locks and registers ----------

  predicate HoldsSnd(pc: Pc) { pc != LockFst && pc != LockSnd && pc != UnlockFst }

  /** Worker `w` holds account `a` according to its program counter. */
  predicate Holds(c: Config, s: State, w: nat, a: nat) {
    && Unfinished(c, s, w)
    && ((a == FstOf(c, s, w) && s.worker[w].pc != LockFst) || (a == SndOf(c, s, w) && HoldsSnd(s.worker[w].pc)))
  }

  ghost predicate LocksConsistent(c: Config, s: State) {
    && (forall w: nat, a: nat :: a < |s.mutex| && Holds(c, s, w, a) ==> s.mutex[a] == HeldBy(w))
    && (forall a: nat :: a < |s.mutex| && s.mutex[a].HeldBy? ==> Holds(c, s, s.mutex[a].thread, a))
  }

  /** A finished worker is outside `exec_transaction`; a loaded register still agrees with the balance. */
  ghost predicate WorkerSane(c: Config, s: State, w: nat)
    requires Shaped(c, s) && w < |s.worker|
  {
    && s.worker[w].iter <= |c.scripts[w]|
    && (s.worker[w].iter == |c.scripts[w]| ==> s.worker[w].pc == LockFst)
    && (s.worker[w].iter < |c.scripts[w]| ==>
          var t := Current(c, s, w);
          && InBounds(c, t)
          && (s.worker[w].pc.StoreFrom? ==> s.worker[w].pc.r == s.balance[t.from])
          && (s.worker[w].pc.StoreTo? ==> s.worker[w].pc.r == s.balance[t.to]))
  }

  ghost predicate Inv(c: Config, s: State) {
    && Shaped(c, s) && LocksConsistent(c, s)
    && (forall w: nat :: w < |s.worker| ==> WorkerSane(c, s, w))
  }

  lemma StepKeepsLocks(c: Config, s: State, w: nat)
    requires WellFormed(c) && Inv(c, s) && Enabled(c, s, w)
    ensures LocksConsistent(c, Step(c, s, w))
  {
    var t := Step(c, s, w);
    var fst, snd := FstOf(c, s, w), SndOf(c, s, w);
    assert fst != snd;
    assert Holds(c, s, w, fst) <==> s.worker[w].pc != LockFst;
    assert Holds(c, s, w, snd) <==> HoldsSnd(s.worker[w].pc);
    forall v: nat, a: nat | a < |t.mutex| && Holds(c, t, v, a) ensures t.mutex[a] == HeldBy(v) {
      if v != w {
        assert Holds(c, s, v, a);
      }
    }
    forall a: nat | a < |t.mutex| && t.mutex[a].HeldBy? ensures Holds(c, t, t.mutex[a].thread, a) {
      var v := t.mutex[a].thread;
      if v != w {
        assert t.mutex[a] == s.mutex[a];
        assert Holds(c, s, v, a);
      }
    }
  }

  lemma StepKeepsWorkers(c: Config, s: State, w: nat)
    requires WellFormed(c) && Inv(c, s) && Enabled(c, s, w)
    ensures Shaped(c, Step(c, s, w))
    ensures forall v: nat :: v < |s.worker| ==> WorkerSane(c, Step(c, s, w), v)
  {
    var t := Step(c, s, w);
    var cur := Current(c, s, w);
    forall v: nat | v < |s.worker| ensures WorkerSane(c, t, v) {
      assert WorkerSane(c, s, v);
      if v != w && Unfinished(c, s, v) && t.balance != s.balance {
        var a := if s.worker[w].pc.StoreFrom? then cur.from else cur.to;
        assert Holds(c, s, w, a);
        assert s.mutex[a] == HeldBy(w);
        if s.worker[v].pc.StoreFrom? || s.worker[v].pc.StoreTo? {
          assert Holds(c, s, v, Current(c, s, v).from);
          assert Holds(c, s, v, Current(c, s, v).to);
        }
      }
    }
  }

  lemma StepKeepsInv(c: Config, s: State, w: nat)
    requires WellFormed(c) && Inv(c, s) && Enabled(c, s, w)
    ensures Inv(c, Step(c, s, w))
  {
    StepKeepsLocks(c, s, w);
    StepKeepsWorkers(c, s, w);
  }

  lemma InitInv(c: Config)
    requires WellFormed(c)
    ensures Inv(c, Init(c))
  {
  }

  lemma BankKeepsInv(c: Config)
    requires WellFormed(c)
    ensures Keeps(Bank(c), s => Inv(c, s))
  {
    forall s, w: nat | Inv(c, s) && Bank(c).enabled(s, w) ensures Inv(c, Bank(c).step(s, w)) {
      StepKeepsInv(c, s, w);
    }
  }

  lemma RunKeepsInv(c: Config, s: State, sched: seq<nat>)
    requires WellFormed(c) && Inv(c, s) && IsRun(Bank(c), s, sched)
    ensures Inv(c, After(Bank(c), s, sched))
  {
    BankKeepsInv(c);
    InvariantAlongRun(Bank(c), s => Inv(c, s), s, sched);
  }
}
