/** `mutex.c`: the same sale with the counter behind a mutex.

    Each thread repeats: lock; if the counter is positive, load it and store it less one; if it is 0 now, unlock
    and stop; otherwise unlock. The decrement is again a separate load and store.
 */
module Tickets {
  import opened Mutexes
  import opened Runs
  import opened Sums

  /** What a thread is about to do; `Unlocking(quit)` leaves the loop when `quit` holds. */
  datatype Thread = Locking | Testing | Loading | Storing(r: int) | Checking | Unlocking(quit: bool) | Done

  datatype State = State(n: int, mutex: Owner, threads: seq<Thread>)

  function Init(n: int, nthreads: nat): State {
    State(n, Free, seq(nthreads, _ => Locking))
  }

  predicate Enabled(s: State, i: nat) {
    && i < |s.threads|
    && s.threads[i] != Done
    && (s.threads[i] == Locking ==> s.mutex.Free?)
  }

  /** The next atomic step of thread `i`. */
  function Step(s: State, i: nat): State {
    if !Enabled(s, i) then s else
    match s.threads[i]
    case Locking => State(s.n, HeldBy(i), s.threads[i := Testing])
    case Testing => s.(threads := s.threads[i := if s.n > 0 then Loading else Checking])
    case Loading => s.(threads := s.threads[i := Storing(s.n)])
    case Storing(r) => State(r - 1, s.mutex, s.threads[i := Checking])
    case Checking => s.(threads := s.threads[i := Unlocking(s.n == 0)])
    case Unlocking(quit) => State(s.n, Free, s.threads[i := if quit then Done else Locking])
    case Done => s
  }

  function Program(): Machine<State> {
    Machine((s, i) => Enabled(s, i), (s, i) => Step(s, i))
  }

  // ---------- Mutual exclusion ----------

  predicate Inside(t: Thread) { t != Locking && t != Done }

  /** Only the owner of the mutex is inside, its register is never stale, and it decides to quit exactly at 0. */
  ghost predicate Exclusive(s: State) {
    && (forall i: nat :: i < |s.threads| && Inside(s.threads[i]) ==> s.mutex == HeldBy(i))
    && (s.mutex.HeldBy? ==> s.mutex.thread < |s.threads| && Inside(s.threads[s.mutex.thread]))
    && (forall i: nat :: i < |s.threads| ==>
          match s.threads[i]
          case Loading => s.n > 0
          case Storing(r) => r == s.n > 0
          case Unlocking(quit) => quit == (s.n == 0)
          case Done => s.n == 0
          case Locking | Testing | Checking => true)
  }

  lemma StepKeepsExclusion(s: State, i: nat)
    requires Exclusive(s) && Enabled(s, i)
    ensures Exclusive(Step(s, i)) && |Step(s, i).threads| == |s.threads|
    ensures s.n >= 0 ==> Step(s, i).n >= 0
    ensures s.n < 0 ==> Step(s, i).n == s.n
  {
  }

  // ---------- Exact accounting ----------

  function Live(t: Thread): int { if t == Done then 0 else 1 }

  function Lives(threads: seq<Thread>): seq<int> {
    seq(|threads|, i requires 0 <= i < |threads| => Live(threads[i]))
  }

  function Alive(s: State): int { Sum(Lives(s.threads)) }

  /** The steps still to come when the mutex is free: 6 for each ticket sold, and 4 for each thread that only
      finds the counter at 0. The thread that sells the last ticket stops without another round. */
  function StepsWhenFree(n: int, alive: int): int {
    if n > 0 then 6 * n + 4 * (alive - 1) else 4 * alive
  }

  function StepsLeft(s: State): int {
    var n, alive := s.n, Alive(s);
    if s.mutex.Free? || s.mutex.thread >= |s.threads| then StepsWhenFree(n, alive)
    else
      match s.threads[s.mutex.thread]
      case Testing => if n > 0 then 5 + 6 * (n - 1) + 4 * (alive - 1) else 3 + 4 * (alive - 1)
      case Loading => 4 + 6 * (n - 1) + 4 * (alive - 1)
      case Storing(_) => 3 + 6 * (n - 1) + 4 * (alive - 1)
      case Checking => 2 + 6 * n + 4 * (alive - 1)
      case Unlocking(_) => 1 + 6 * n + 4 * (alive - 1)
      case Locking | Done => 0
  }

  /** The critical sections still to be entered. */
  function SectionsLeft(s: State): int {
    var n, alive := s.n, Alive(s);
    if s.mutex.Free? || s.mutex.thread >= |s.threads| then (if n > 0 then n + alive - 1 else alive)
    else
      match s.threads[s.mutex.thread]
      case Testing | Loading | Storing(_) => if n > 0 then n + alive - 2 else alive - 1
      case Checking | Unlocking(_) => n + alive - 1
      case Locking | Done => 0
  }

  ghost predicate Inv(s: State) { Exclusive(s) && s.n >= 0 && |s.threads| >= 1 }

  lemma AliveAfter(s: State, i: nat)
    requires Enabled(s, i)
    ensures Alive(Step(s, i)) == Alive(s) - (if s.threads[i] == Unlocking(true) then 1 else 0)
  {
    var t := Step(s, i);
    assert Lives(t.threads) == Lives(s.threads)[i := Live(t.threads[i])];
    SumUpdate(Lives(s.threads), i, Live(t.threads[i]));
  }

  /** Every step uses up exactly one of the steps left; entering uses up one section; storing sells one ticket. */
  lemma StepAccounts(s: State, i: nat)
    requires Inv(s) && Enabled(s, i)
    ensures StepsLeft(Step(s, i)) == StepsLeft(s) - 1
    ensures SectionsLeft(Step(s, i)) == SectionsLeft(s) - (if s.threads[i] == Locking then 1 else 0)
    ensures Step(s, i).n == s.n - (if s.threads[i].Storing? then 1 else 0)
  {
    AliveAfter(s, i);
    if s.threads[i] != Locking {
      assert s.mutex == HeldBy(i);
    }
  }

  lemma StuckMeansAllDone(s: State)
    requires Exclusive(s)
    ensures Stuck(Program(), s) <==> forall i :: 0 <= i < |s.threads| ==> s.threads[i] == Done
  {
    if i: nat :| i < |s.threads| && s.threads[i] != Done {
      var mover := if s.mutex.HeldBy? then s.mutex.thread else i;
      assert Program().enabled(s, mover);
    } else {
      assert forall i: nat :: !Program().enabled(s, i);
    }
  }

  lemma NothingLeftMeansAllDone(s: State)
    requires Inv(s)
    ensures StepsLeft(s) >= 0
    ensures StepsLeft(s) == 0 <==> forall i :: 0 <= i < |s.threads| ==> s.threads[i] == Done
    ensures StepsLeft(s) == 0 ==> s.n == 0 && s.mutex.Free? && SectionsLeft(s) == 0
  {
    SumBounds(Lives(s.threads), 0, 1);
    if j: nat :| j < |s.threads| && s.threads[j] != Done {
      SumAtLeastEntry(Lives(s.threads), j);
      assert Alive(s) >= 1;
      if s.mutex.HeldBy? {
        assert Inside(s.threads[s.mutex.thread]);
      }
    } else {
      SumConstant(Lives(s.threads), 0);
      assert s.threads[0] == Done;
    }
  }

  /** How many times a run enters the critical section, and how many tickets it sells. */
  function Sections(s: State, sched: seq<nat>): nat
    decreases |sched|
  {
    if sched == [] then 0
    else
      var i := sched[0];
      (if Enabled(s, i) && s.threads[i] == Locking then 1 else 0) + Sections(Step(s, i), sched[1..])
  }

  function Stores(s: State, sched: seq<nat>): nat
    decreases |sched|
  {
    if sched == [] then 0
    else
      var i := sched[0];
      (if Enabled(s, i) && s.threads[i].Storing? then 1 else 0) + Stores(Step(s, i), sched[1..])
  }

  lemma {:induction false} RunAccounts(s: State, sched: seq<nat>)
    requires Inv(s) && IsRun(Program(), s, sched)
    ensures var t := After(Program(), s, sched);
            && Inv(t)
            && |t.threads| == |s.threads|
            && StepsLeft(t) == StepsLeft(s) - |sched|
            && SectionsLeft(t) == SectionsLeft(s) - Sections(s, sched)
            && t.n == s.n - Stores(s, sched)
    decreases |sched|
  {
    if sched == [] {
    } else {
      StepKeepsExclusion(s, sched[0]);
      StepAccounts(s, sched[0]);
      RunAccounts(Step(s, sched[0]), sched[1..]);
    }
  }

  function TotalSteps(n: nat, nthreads: nat): int {
    if n > 0 then 6 * n + 4 * (nthreads - 1) else 4 * nthreads
  }

  /** Started on `n >= 0` tickets, every run, whatever the schedule, stops after exactly `TotalSteps(n, T)` steps
      and not before: it then has ended every thread, sold exactly `n` tickets in exactly max(n, 1) + T - 1
      critical sections, and left the counter at 0 and the mutex free. */
  lemma SaleIsExact(n: nat, nthreads: nat, sched: seq<nat>)
    requires 1 <= nthreads && IsRun(Program(), Init(n, nthreads), sched)
    ensures var init := Init(n, nthreads);
            var s := After(Program(), init, sched);
            && |sched| <= TotalSteps(n, nthreads)
            && s.n == n - Stores(init, sched) >= 0
            && (Stuck(Program(), s) <==> |sched| == TotalSteps(n, nthreads))
            && (Stuck(Program(), s) ==>
                  && s == State(0, Free, seq(nthreads, _ => Done))
                  && Stores(init, sched) == n
                  && Sections(init, sched) == (if n > 1 then n else 1) + nthreads - 1)
  {
    var init := Init(n, nthreads);
    var s := After(Program(), init, sched);
    SumConstant(Lives(init.threads), 1);
    RunAccounts(init, sched);
    StuckMeansAllDone(s);
    NothingLeftMeansAllDone(s);
  }

  /** Started on a negative number, the counter never changes, no thread ever ends, and some thread can always
      move: the program runs for ever. */
  lemma NegativeSaleNeverEnds(n: int, nthreads: nat, sched: seq<nat>)
    requires n < 0 && 1 <= nthreads && IsRun(Program(), Init(n, nthreads), sched)
    ensures var s := After(Program(), Init(n, nthreads), sched);
            && s.n == n
            && (forall i :: 0 <= i < |s.threads| ==> s.threads[i] != Done)
            && !Stuck(Program(), s)
  {
    var inv := (s: State) => Exclusive(s) && s.n == n && |s.threads| == nthreads;
    forall s, i: nat | inv(s) && Program().enabled(s, i) ensures inv(Program().step(s, i)) {
      StepKeepsExclusion(s, i);
    }
    InvariantAlongRun(Program(), inv, Init(n, nthreads), sched);
    var s := After(Program(), Init(n, nthreads), sched);
    StuckMeansAllDone(s);
    assert s.threads[0] != Done;
  }

  /** In every reachable state, a thread that has not ended cannot move exactly when it is at its lock call and another
      thread holds the mutex, which is the one inside. */
  lemma CannotMoveExactly(n: int, nthreads: nat, sched: seq<nat>, i: nat)
    requires i < nthreads && IsRun(Program(), Init(n, nthreads), sched)
    ensures var s := After(Program(), Init(n, nthreads), sched);
            && i < |s.threads|
            && (s.threads[i] != Done && !Enabled(s, i) <==> s.threads[i] == Locking && s.mutex.HeldBy?)
            && (s.mutex.HeldBy? <==> exists j :: 0 <= j < |s.threads| && Inside(s.threads[j]))
  {
    var inv := (s: State) => Exclusive(s) && |s.threads| == nthreads;
    forall s, j: nat | inv(s) && Program().enabled(s, j) ensures inv(Program().step(s, j)) {
      StepKeepsExclusion(s, j);
    }
    InvariantAlongRun(Program(), inv, Init(n, nthreads), sched);
  }

  // ---------- The program ----------

  /** The shared `struct tickets`, and where each thread is in `thread_start`. */
  class Sale {
    const start: int
    const nthreads: nat
    var ntickets: int
    var mutex: Owner
    const thread: array<Thread>
    ghost var trace: seq<nat>  // the threads that have moved, in order

    function Model(): State
      reads this, thread
    {
      State(ntickets, mutex, thread[..])
    }

    /** The memory is that of a run of the program. */
    ghost predicate Valid()
      reads this, thread
    {
      && thread.Length == nthreads
      && IsRun(Program(), Init(start, nthreads), trace)
      && Model() == After(Program(), Init(start, nthreads), trace)
    }

    constructor (n: int, nthreads: nat)
      ensures Valid() && start == ntickets == n && this.nthreads == nthreads && trace == [] && fresh(thread)
      ensures mutex == Free && thread[..] == seq(nthreads, _ => Locking)
    {
      start, ntickets, mutex, this.nthreads := n, n, Free, nthreads;
      thread := new Thread[nthreads];
      trace := [];
      new;
      for i := 0 to nthreads
        invariant forall j :: 0 <= j < i ==> thread[j] == Locking
        invariant ntickets == n && mutex == Free && trace == []
      {
        thread[i] := Locking;
      }
      assert thread[..] == Init(n, nthreads).threads;
    }

    /** `pthread_mutex_lock`: `ok` is false while it blocks. */
    method Lock(i: nat) returns (ok: bool)
      requires i < thread.Length && thread[i] == Locking
      modifies this`mutex, thread
      ensures ok == old(mutex.Free?)
      ensures if ok then mutex == HeldBy(i) && thread[..] == old(thread[..])[i := Testing]
              else mutex == old(mutex) && thread[..] == old(thread[..])
      ensures ok == old(Enabled(Model(), i)) && Model() == Step(old(Model()), i)
    {
      ok := mutex.Free?;
      if ok {
        mutex := HeldBy(i);
        thread[i] := Testing;
      }
    }

    method Test(i: nat)
      requires i < thread.Length && thread[i] == Testing
      modifies thread
      ensures thread[..] == old(thread[..])[i := if ntickets > 0 then Loading else Checking]
      ensures Model() == Step(old(Model()), i)
    {
      thread[i] := if ntickets > 0 then Loading else Checking;
    }

    method Load(i: nat)
      requires i < thread.Length && thread[i] == Loading
      modifies thread
      ensures thread[..] == old(thread[..])[i := Storing(ntickets)]
      ensures Model() == Step(old(Model()), i)
    {
      thread[i] := Storing(ntickets);
    }

    method Store(i: nat)
      requires i < thread.Length && thread[i].Storing?
      modifies this`ntickets, thread
      ensures ntickets == old(thread[i].r) - 1 && thread[..] == old(thread[..])[i := Checking]
      ensures Model() == Step(old(Model()), i)
    {
      ntickets := thread[i].r - 1;
      thread[i] := Checking;
    }

    method Check(i: nat)
      requires i < thread.Length && thread[i] == Checking
      modifies thread
      ensures thread[..] == old(thread[..])[i := Unlocking(ntickets == 0)]
      ensures Model() == Step(old(Model()), i)
    {
      thread[i] := Unlocking(ntickets == 0);
    }

    /** `pthread_mutex_unlock`, then `break` or the next round. */
    method Unlock(i: nat)
      requires i < thread.Length && thread[i].Unlocking?
      modifies this`mutex, thread
      ensures mutex == Free && thread[..] == old(thread[..])[i := if old(thread[i].quit) then Done else Locking]
      ensures Model() == Step(old(Model()), i)
    {
      mutex := Free;
      thread[i] := if thread[i].quit then Done else Locking;
    }

    /** One atomic step of the loop of `thread_start`. */
    method Advance(i: nat) returns (ok: bool)
      requires Valid() && i < nthreads && thread[i] != Done
      modifies this`ntickets, this`mutex, this`trace, thread
      ensures Valid() && ok == old(Enabled(Model(), i)) && Model() == Step(old(Model()), i)
      ensures trace == (if ok then old(trace) + [i] else old(trace))
    {
      ok := true;
      match thread[i] {
        case Locking => ok := Lock(i);
        case Testing => Test(i);
        case Loading => Load(i);
        case Storing(_) => Store(i);
        case Checking => Check(i);
        case Unlocking(_) => Unlock(i);
      }
      if ok {
        RunExtend(Program(), Init(start, nthreads), trace, i);
        trace := trace + [i];
      }
    }

    /** Some thread can move, before the sale is over and, started below 0, at any time. */
    lemma SomebodyCanMove()
      requires Valid() && exists i :: 0 <= i < nthreads && thread[i] != Done
      ensures exists i: nat :: i < nthreads && Enabled(Model(), i)
      ensures 0 <= start ==> |trace| < TotalSteps(start, nthreads)
    {
      assert Model().threads == thread[..];
      var j :| 0 <= j < nthreads && thread[j] != Done;
      assert Model().threads[j] != Done;
      if 0 <= start {
        SaleIsExact(start, nthreads, trace);
      } else {
        NegativeSaleNeverEnds(start, nthreads, trace);
      }
      assert !Stuck(Program(), Model());
      var i: nat :| Program().enabled(Model(), i);
      assert Enabled(Model(), i);
    }

    /** `pthread_join`: until thread `i` is done, the scheduler lets any threads move. It has `patience` for that many
        steps; the join has returned if the thread is done by then. */
    method Join(i: nat, patience: nat) returns (left: nat)
      requires Valid() && i < nthreads
      modifies this`ntickets, this`mutex, this`trace, thread
      ensures Valid() && |trace| + left == |old(trace)| + patience && left <= patience
      ensures left > 0 ==> thread[i] == Done
      ensures forall j :: 0 <= j < nthreads && old(thread[j]) == Done ==> thread[j] == Done
    {
      left := patience;
      while thread[i] != Done && left > 0
        invariant Valid() && |trace| + left == |old(trace)| + patience && left <= patience
        invariant forall j :: 0 <= j < nthreads && old(thread[j]) == Done ==> thread[j] == Done
        decreases left
      {
        SomebodyCanMove();
        var j: nat :| j < nthreads && Enabled(Model(), j);
        var ok := Advance(j);
        left := left - 1;
      }
    }

    /** The rest of `main`: join every thread. Started on `n >= 0` tickets this returns under every scheduler, with
        the counter at 0, exactly when the scheduler has patience for `TotalSteps` steps in all. Started below 0 it
        returns under none, however long that goes on. */
    method JoinAll(patience: nat) returns (returned: bool)
      requires Valid() && 1 <= nthreads
      modifies this`ntickets, this`mutex, this`trace, thread
      ensures Valid() && (returned <==> forall j :: 0 <= j < nthreads ==> thread[j] == Done)
      ensures 0 <= start ==> (returned <==> |old(trace)| + patience >= TotalSteps(start, nthreads))
      ensures returned ==> ntickets == 0 && mutex == Free && Stores(Init(start, nthreads), trace) == start
      ensures start < 0 ==> !returned && ntickets == start && |trace| == |old(trace)| + patience
    {
      var left := patience;
      for i := 0 to nthreads
        invariant Valid() && |trace| + left == |old(trace)| + patience
        invariant left > 0 ==> forall j :: 0 <= j < i ==> thread[j] == Done
      {
        left := Join(i, left);
      }
      returned := forall j :: 0 <= j < nthreads ==> thread[j] == Done;
      AllDoneExactly();
    }

    /** When all threads have ended, and what the memory is then. */
    lemma AllDoneExactly()
      requires Valid() && 1 <= nthreads
      ensures 0 <= start ==> |trace| <= TotalSteps(start, nthreads)
      ensures 0 <= start && |trace| == TotalSteps(start, nthreads)
         <==> forall j :: 0 <= j < nthreads ==> thread[j] == Done
      ensures start < 0 ==> ntickets == start && forall j :: 0 <= j < nthreads ==> thread[j] != Done
      ensures (forall j :: 0 <= j < nthreads ==> thread[j] == Done) ==>
                ntickets == 0 && mutex == Free && Stores(Init(start, nthreads), trace) == start
    {
      assert Model().threads == thread[..];
      if start < 0 {
        NegativeSaleNeverEnds(start, nthreads, trace);
        assert Model().threads[0] != Done;
      } else {
        SaleIsExact(start, nthreads, trace);
        if forall j :: 0 <= j < nthreads ==> thread[j] == Done {
          assert forall i: nat :: !Program().enabled(Model(), i);
        }
        if |trace| == TotalSteps(start, nthreads) {
          assert Model().threads == seq(nthreads, _ => Done);
        }
      }
    }
  }
}
