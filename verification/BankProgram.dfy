/** The transfer programs as they run: deposits with their mutexes, and a worker's position in `exec_transaction`. */
module BankProgram {
  import opened Mutexes
  import opened Runs
  import opened Sums
  import opened Transfers
  import opened Balances
  import opened Deadlocks
  import opened Jamming

  /** A `pthread_mutex_t *` variable; mutexes are numbered in address order. */
  class MutexPointer {
    var target: nat

    constructor (target: nat)
      ensures this.target == target
    {
      this.target := target;
    }
  }

  /** `swap_mtx`; right also when both arguments are the same variable. */
  method SwapMtx(a: MutexPointer, b: MutexPointer)
    modifies a, b
    ensures a.target == old(b.target) && b.target == old(a.target)
  {
    var tmp := a.target;
    a.target := b.target;
    b.target := tmp;
  }

  /** The start of `exec_transaction`: which mutex is taken first, and which second. Ordered by address, the pair
      is the same for both directions of a transfer and ascending. */
  method ChooseOrder(policy: Policy, t: Transfer) returns (first: nat, second: nat)
    ensures first == Fst(policy, t) && second == Snd(policy, t)
    ensures {first, second} == {t.from, t.to}
    ensures policy == AddressOrder ==> first <= second
    ensures policy == CallerOrder ==> first == t.from
  {
    var fst := new MutexPointer(t.from);
    var snd := new MutexPointer(t.to);
    if policy == AddressOrder && t.from > t.to {
      SwapMtx(fst, snd);
    }
    first, second := fst.target, snd.target;
  }

  class Deposits {
    const c: Config
    const balance: array<int>
    const mutex: array<Owner>
    const worker: array<Worker>
    ghost var trace: seq<nat>  // the workers that have moved, in order

    function Model(): State
      reads balance, mutex, worker
    {
      State(balance[..], mutex[..], worker[..])
    }

    /** The memory is that of a run of the program. */
    ghost predicate Valid()
      reads this, balance, mutex, worker
    {
      && WellFormed(c)
      && balance.Length == mutex.Length == c.accounts && worker.Length == |c.scripts|
      && IsRun(Bank(c), Init(c), trace)
      && Model() == After(Bank(c), Init(c), trace)
    }

    /** `main`: initialise the deposits and start the workers. */
    constructor (c: Config)
      requires WellFormed(c)
      ensures Valid() && this.c == c && trace == []
      ensures balance[..] == seq(c.accounts, _ => c.initial) && mutex[..] == seq(c.accounts, _ => Free)
      ensures worker[..] == seq(|c.scripts|, _ => Worker(0, LockFst))
      ensures fresh(balance) && fresh(mutex) && fresh(worker)
    {
      this.c := c;
      balance := new int[c.accounts];
      mutex := new Owner[c.accounts];
      worker := new Worker[|c.scripts|];
      trace := [];
      new;
      for i := 0 to c.accounts
        invariant forall j :: 0 <= j < i ==> balance[j] == c.initial && mutex[j] == Free
        invariant trace == []
      {
        balance[i] := c.initial;
        mutex[i] := Free;
      }
      for i := 0 to |c.scripts|
        invariant forall j :: 0 <= j < c.accounts ==> balance[j] == c.initial && mutex[j] == Free
        invariant forall j :: 0 <= j < i ==> worker[j] == Worker(0, LockFst)
        invariant trace == []
      {
        worker[i] := Worker(0, LockFst);
      }
      assert Model().balance == Init(c).balance;
      assert Model().mutex == Init(c).mutex;
      assert Model().worker == Init(c).worker;
    }

    /** `sum_balances` over the first `ndeps` deposits. */
    method SumBalances(ndeps: nat) returns (sum: int)
      requires ndeps <= balance.Length
      ensures sum == Sum(balance[..ndeps])
    {
      sum := 0;
      for i := 0 to ndeps
        invariant sum == Sum(balance[..i])
      {
        SumAppend(balance[..i], balance[i]);
        assert balance[..i + 1] == balance[..i] + [balance[i]];
        sum := sum + balance[i];
      }
    }

    /** The worker is at this point of one of its transfers. */
    ghost predicate At(w: nat)
      reads balance, mutex, worker
    {
      && Shaped(c, Model()) && Unfinished(c, Model(), w) && InBounds(c, Current(c, Model(), w))
    }

    /** The first `pthread_mutex_lock`: `ok` is false while it blocks. */
    method LockFirst(w: nat) returns (ok: bool)
      requires At(w) && worker[w].pc == LockFst
      modifies mutex, worker
      ensures var fst := Fst(c.policy, old(c.scripts[w][worker[w].iter]));
              && ok == old(mutex[fst].Free?)
              && mutex[..] == (if ok then old(mutex[..])[fst := HeldBy(w)] else old(mutex[..]))
              && worker[..] == (if ok then old(worker[..])[w := Worker(old(worker[w].iter), LockSnd)]
                                else old(worker[..]))
      ensures ok == old(Enabled(c, Model(), w)) && Model() == Step(c, old(Model()), w)
    {
      var fst, _ := ChooseOrder(c.policy, c.scripts[w][worker[w].iter]);
      ok := mutex[fst].Free?;
      if ok {
        mutex[fst] := HeldBy(w);
        worker[w] := worker[w].(pc := LockSnd);
      }
    }

    /** The second `pthread_mutex_lock`: `ok` is false while it blocks. */
    method LockSecond(w: nat) returns (ok: bool)
      requires At(w) && worker[w].pc == LockSnd
      modifies mutex, worker
      ensures var snd := Snd(c.policy, old(c.scripts[w][worker[w].iter]));
              && ok == old(mutex[snd].Free?)
              && mutex[..] == (if ok then old(mutex[..])[snd := HeldBy(w)] else old(mutex[..]))
              && worker[..] == (if ok then old(worker[..])[w := Worker(old(worker[w].iter), LoadFrom)]
                                else old(worker[..]))
      ensures ok == old(Enabled(c, Model(), w)) && Model() == Step(c, old(Model()), w)
    {
      var _, snd := ChooseOrder(c.policy, c.scripts[w][worker[w].iter]);
      ok := mutex[snd].Free?;
      if ok {
        mutex[snd] := HeldBy(w);
        worker[w] := worker[w].(pc := LoadFrom);
      }
    }

    /** `from->balance -= amount`: a load, then a store. */
    method Debit(w: nat)
      requires At(w) && (worker[w].pc == LoadFrom || worker[w].pc.StoreFrom?)
      modifies balance, worker
      ensures var t := old(c.scripts[w][worker[w].iter]);
              if old(worker[w].pc) == LoadFrom then
                && balance[..] == old(balance[..])
                && worker[..] == old(worker[..])[w := Worker(old(worker[w].iter), StoreFrom(balance[t.from]))]
              else
                && balance[..] == old(balance[..])[t.from := old(worker[w].pc.r) - t.amount]
                && worker[..] == old(worker[..])[w := Worker(old(worker[w].iter), LoadTo)]
      ensures Model() == Step(c, old(Model()), w)
    {
      var t := c.scripts[w][worker[w].iter];
      if worker[w].pc == LoadFrom {
        worker[w] := worker[w].(pc := StoreFrom(balance[t.from]));
      } else {
        balance[t.from] := worker[w].pc.r - t.amount;
        worker[w] := worker[w].(pc := LoadTo);
      }
    }

    /** `to->balance += amount`: a load, then a store. */
    method Credit(w: nat)
      requires At(w) && (worker[w].pc == LoadTo || worker[w].pc.StoreTo?)
      modifies balance, worker
      ensures var t := old(c.scripts[w][worker[w].iter]);
              if old(worker[w].pc) == LoadTo then
                && balance[..] == old(balance[..])
                && worker[..] == old(worker[..])[w := Worker(old(worker[w].iter), StoreTo(balance[t.to]))]
              else
                && balance[..] == old(balance[..])[t.to := old(worker[w].pc.r) + t.amount]
                && worker[..] == old(worker[..])[w := Worker(old(worker[w].iter), UnlockSnd)]
      ensures Model() == Step(c, old(Model()), w)
    {
      var t := c.scripts[w][worker[w].iter];
      if worker[w].pc == LoadTo {
        worker[w] := worker[w].(pc := StoreTo(balance[t.to]));
      } else {
        balance[t.to] := worker[w].pc.r + t.amount;
        worker[w] := worker[w].(pc := UnlockSnd);
      }
    }

    /** The two `pthread_mutex_unlock` calls, second mutex first; then the next iteration. */
    method Unlock(w: nat)
      requires At(w) && (worker[w].pc == UnlockSnd || worker[w].pc == UnlockFst)
      modifies mutex, worker
      ensures var t := old(c.scripts[w][worker[w].iter]);
              if old(worker[w].pc) == UnlockSnd then
                && mutex[..] == old(mutex[..])[Snd(c.policy, t) := Free]
                && worker[..] == old(worker[..])[w := Worker(old(worker[w].iter), UnlockFst)]
              else
                && mutex[..] == old(mutex[..])[Fst(c.policy, t) := Free]
                && worker[..] == old(worker[..])[w := Worker(old(worker[w].iter) + 1, LockFst)]
      ensures Model() == Step(c, old(Model()), w)
    {
      var fst, snd := ChooseOrder(c.policy, c.scripts[w][worker[w].iter]);
      if worker[w].pc == UnlockSnd {
        mutex[snd] := Free;
        worker[w] := worker[w].(pc := UnlockFst);
      } else {
        mutex[fst] := Free;
        worker[w] := Worker(worker[w].iter + 1, LockFst);
      }
    }

    /** One atomic step of worker `w`. */
    method Advance(w: nat) returns (ok: bool)
      requires Valid() && Unfinished(c, Model(), w)
      modifies this`trace, balance, mutex, worker
      ensures Valid() && ok == old(Enabled(c, Model(), w)) && Model() == Step(c, old(Model()), w)
      ensures trace == (if ok then old(trace) + [w] else old(trace))
    {
      ok := true;
      match worker[w].pc {
        case LockFst => ok := LockFirst(w);
        case LockSnd => ok := LockSecond(w);
        case LoadFrom | StoreFrom(_) => Debit(w);
        case LoadTo | StoreTo(_) => Credit(w);
        case UnlockSnd | UnlockFst => Unlock(w);
      }
      if ok {
        RunExtend(Bank(c), Init(c), trace, w);
        trace := trace + [w];
      }
    }

    lemma NobodyCanMove()
      requires Valid() && forall v: nat :: v < worker.Length ==> !Enabled(c, Model(), v)
      ensures Stuck(Bank(c), Model())
    {
      forall v: nat ensures !Bank(c).enabled(Model(), v) {
        if v >= worker.Length {
          assert !Unfinished(c, Model(), v);
        }
      }
    }

    /** `pthread_join`: until worker `w` is done, the scheduler lets any workers move. The join does not return if a
        moment comes when none of them can. */
    method Join(w: nat) returns (returned: bool)
      requires Valid() && w < worker.Length
      modifies this`trace, balance, mutex, worker
      ensures Valid() && (returned <==> !Unfinished(c, Model(), w))
      ensures !returned ==> Stuck(Bank(c), Model())
      ensures forall v: nat :: old(!Unfinished(c, Model(), v)) ==> !Unfinished(c, Model(), v)
    {
      while Unfinished(c, Model(), w)
        invariant Valid()
        invariant forall v: nat :: old(!Unfinished(c, Model(), v)) ==> !Unfinished(c, Model(), v)
        decreases TotalSteps(c) - |trace|
      {
        FinishedBank(c, trace);
        if v: nat :| v < worker.Length && Enabled(c, Model(), v) {
          var ok := Advance(v);
        } else {
          NobodyCanMove();
          return false;
        }
      }
      returned := true;
    }

    /** The rest of `main`: join every worker. Whatever the scheduler does, either all joins return, and then every
        mutex is free, each balance settled and the total unchanged, or the program hangs in a wait-for cycle. It
        always returns if the scripts contain no ring of transfers, and so always in address order. */
    method JoinAll() returns (returned: bool)
      requires Valid()
      modifies this`trace, balance, mutex, worker
      ensures Valid() && (returned <==> AllDone(c, Model()))
      ensures returned ==> forall a :: 0 <= a < c.accounts ==> mutex[a] == Free
      ensures returned ==> forall a: nat :: a < c.accounts ==> balance[a] == c.initial + NetTotal(c, a)
      ensures returned ==> Sum(balance[..]) == c.accounts * c.initial
      ensures !returned ==> Stuck(Bank(c), Model()) && exists cyc :: WaitCycle(c, Model(), cyc)
      ensures (forall ws, ks :: !Ring(c, ws, ks)) ==> returned
      ensures c.policy == AddressOrder ==> returned
    {
      returned := true;
      var i := 0;
      while i < worker.Length && returned
        invariant i <= worker.Length && Valid()
        invariant returned ==> forall v: nat :: v < i ==> !Unfinished(c, Model(), v)
        invariant !returned ==> Stuck(Bank(c), Model()) && !AllDone(c, Model())
        decreases worker.Length - i, returned
      {
        returned := Join(i);
        i := i + 1;
      }
      FinishedBank(c, trace);
      JoinsHangOnlyInJam();
      assert Model().balance == balance[..] && Model().mutex == mutex[..];
    }

    lemma JoinsHangOnlyInJam()
      requires Valid()
      ensures Stuck(Bank(c), Model()) && !AllDone(c, Model()) ==>
                && (exists cyc :: WaitCycle(c, Model(), cyc))
                && (exists ws, ks :: Ring(c, ws, ks))
                && c.policy == CallerOrder
    {
      if Stuck(Bank(c), Model()) && !AllDone(c, Model()) {
        StuckHasCycle(c, trace);
        assert Jams(c, trace);
        JamsExactly(c);
        var ws, ks :| Ring(c, ws, ks);
        if c.policy == AddressOrder {
          AddressOrderHasNoRing(c, ws, ks);
        }
      }
    }
  }
}
