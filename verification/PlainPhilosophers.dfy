/** `dining_philosophers.c`: the protocol without the semaphore.

    Each philosopher repeats: lock left fork, lock right fork, eat, unlock right, unlock left.
 */
module PlainPhilosophers {
  import opened ForkRings
  import opened Mutexes
  import opened Runs

  /** What a philosopher is about to do. */
  datatype Pc = WantLeft | WantRight | Eating | DropRight | DropLeft

  datatype State = State(pc: seq<Pc>, fork: seq<Owner>)

  predicate HoldsLeft(p: Pc) { p != WantLeft }

  predicate HoldsRight(p: Pc) { p == Eating || p == DropRight }

  function Init(n: nat): State {
    State(seq(n, _ => WantLeft), seq(n, _ => Free))
  }

  predicate Enabled(s: State, i: nat) {
    && i < |s.pc| == |s.fork|
    && match s.pc[i]
       case WantLeft => s.fork[i].Free?
       case WantRight => s.fork[Right(|s.pc|, i)].Free?
       case Eating | DropRight | DropLeft => true
  }

  /** The next atomic step of philosopher `i`. */
  function Step(s: State, i: nat): State {
    if !Enabled(s, i) then s else
    var r := Right(|s.pc|, i);
    match s.pc[i]
    case WantLeft => State(s.pc[i := WantRight], s.fork[i := HeldBy(i)])
    case WantRight => State(s.pc[i := Eating], s.fork[r := HeldBy(i)])
    case Eating => State(s.pc[i := DropRight], s.fork)
    case DropRight => State(s.pc[i := DropLeft], s.fork[r := Free])
    case DropLeft => State(s.pc[i := WantLeft], s.fork[i := Free])
  }

  function Protocol(): Machine<State> {
    Machine((s, i) => Enabled(s, i), (s, i) => Step(s, i))
  }

  /** Philosopher `i` holds fork `f` according to its program counter. */
  predicate Holds(pc: seq<Pc>, i: nat, f: nat) {
    && i < |pc|
    && ((i == f && HoldsLeft(pc[i])) || (Right(|pc|, i) == f && HoldsRight(pc[i])))
  }

  /** A fork is held by a philosopher exactly when that philosopher's program counter says so. A lone philosopher,
      whose two forks are one and the same, never gets past its right fork. */
  ghost predicate ForksConsistent(n: nat, s: State) {
    && |s.pc| == |s.fork| == n
    && (n == 1 ==> s.pc[0] == WantLeft || s.pc[0] == WantRight)
    && (forall i: nat, f: nat :: f < n && Holds(s.pc, i, f) ==> s.fork[f] == HeldBy(i))
    && (forall f: nat :: f < n && s.fork[f].HeldBy? ==> Holds(s.pc, s.fork[f].thread, f))
  }

  lemma StepKeepsForks(n: nat, s: State, i: nat)
    requires ForksConsistent(n, s) && Enabled(s, i)
    ensures ForksConsistent(n, Step(s, i))
  {
    if n == 1 {
      assert Right(n, i) == i;
      assert Holds(s.pc, i, i) <==> s.pc[i] == WantRight;
    } else {
      HoldersOwn(n, s, i);
      OwnersHold(n, s, i);
    }
  }

  lemma HoldersOwn(n: nat, s: State, i: nat)
    requires 2 <= n && ForksConsistent(n, s) && Enabled(s, i)
    ensures var t := Step(s, i); forall j: nat, f: nat :: f < n && Holds(t.pc, j, f) ==> t.fork[f] == HeldBy(j)
  {
    var t := Step(s, i);
    forall j: nat, f: nat | f < n && Holds(t.pc, j, f) ensures t.fork[f] == HeldBy(j) {
      if j != i { assert Holds(s.pc, j, f); }
      assert Holds(s.pc, i, i) <==> HoldsLeft(s.pc[i]);
      assert Holds(s.pc, i, Right(n, i)) <==> HoldsRight(s.pc[i]);
    }
  }

  lemma OwnersHold(n: nat, s: State, i: nat)
    requires 2 <= n && ForksConsistent(n, s) && Enabled(s, i)
    ensures var t := Step(s, i);
            forall f: nat :: f < n && t.fork[f].HeldBy? ==> Holds(t.pc, t.fork[f].thread, f)
  {
    var t := Step(s, i);
    forall f: nat | f < n && t.fork[f].HeldBy? ensures Holds(t.pc, t.fork[f].thread, f) {
      assert f != i && f != Right(n, i) ==> t.fork[f] == s.fork[f];
    }
  }

  /** In every reachable state each fork has at most the one owner its neighbours' program counters name. */
  lemma ForksAlwaysConsistent(n: nat, sched: seq<nat>)
    requires IsRun(Protocol(), Init(n), sched)
    ensures ForksConsistent(n, After(Protocol(), Init(n), sched))
  {
    var inv := s => ForksConsistent(n, s);
    forall s, i: nat | inv(s) && Protocol().enabled(s, i) ensures inv(Protocol().step(s, i)) {
      StepKeepsForks(n, s, i);
    }
    InvariantAlongRun(Protocol(), inv, Init(n), sched);
  }

  /** Every philosopher holds its left fork and waits for its right one. */
  ghost predicate AllHoldLeft(s: State) {
    |s.fork| == |s.pc| && forall i :: 0 <= i < |s.pc| ==> s.pc[i] == WantRight && s.fork[i] == HeldBy(i)
  }

  /** Nobody past the left fork can move. */
  ghost predicate InsidersBlocked(s: State) {
    forall i: nat {:trigger Enabled(s, i)} :: i < |s.pc| && s.pc[i] != WantLeft ==> !Enabled(s, i)
  }

  /** Whoever waits for its right fork has a right neighbour that does. */
  ghost predicate WaitingSpreads(s: State) {
    forall q: nat {:trigger Right(|s.pc|, q)} ::
      q < |s.pc| && s.pc[q] == WantRight ==> s.pc[Right(|s.pc|, q)] == WantRight
  }

  /** The philosopher `k` places to the right of `p`. */
  function Place(n: nat, p: nat, k: nat): nat
    requires p < n && k < n
  {
    if p + k < n then p + k else p + k - n
  }

  lemma PlacesGoRound(n: nat, p: nat, i: nat) returns (k: nat)
    requires p < n && i < n
    ensures k < n && Place(n, p, k) == i
  {
    k := if p <= i then i - p else i - p + n;
  }

  /** Round the ring: if nobody past the left fork can move, one philosopher waiting for its right fork
      forces all of them to be waiting for their right fork. */
  lemma RingClosure(n: nat, s: State, p: nat)
    requires ForksConsistent(n, s)
    requires p < n && s.pc[p] == WantRight
    requires InsidersBlocked(s)
    ensures AllHoldLeft(s)
  {
    forall q: nat | q < n && s.pc[q] == WantRight ensures s.pc[Right(n, q)] == WantRight {
      NeighbourWaitsToo(n, s, q);
    }
    forall i | 0 <= i < n ensures s.pc[i] == WantRight && s.fork[i] == HeldBy(i) {
      var k := PlacesGoRound(n, p, i);
      WaitsAtPlace(n, s, p, k);
      WaiterHoldsLeft(n, s, i);
    }
  }

  lemma WaiterHoldsLeft(n: nat, s: State, i: nat)
    requires ForksConsistent(n, s) && i < n && s.pc[i] == WantRight
    ensures s.fork[i] == HeldBy(i)
  {
  }

  lemma {:induction false} WaitsAtPlace(n: nat, s: State, p: nat, k: nat)
    requires |s.pc| == n && WaitingSpreads(s)
    requires p < n && s.pc[p] == WantRight && k < n
    ensures s.pc[Place(n, p, k)] == WantRight
  {
    if k == 0 {
    } else {
      WaitsAtPlace(n, s, p, k - 1);
      assert Right(n, Place(n, p, k - 1)) == Place(n, p, k);
    }
  }

  lemma NeighbourWaitsToo(n: nat, s: State, q: nat)
    requires ForksConsistent(n, s)
    requires q < n && s.pc[q] == WantRight
    requires InsidersBlocked(s)
    ensures s.pc[Right(n, q)] == WantRight
  {
    var r := Right(n, q);
    assert !Enabled(s, q);
    assert Holds(s.pc, s.fork[r].thread, r);
    assert !Enabled(s, r);
  }

  /** A left fork is only ever withheld by a left neighbour that holds both of its forks, and so can move. */
  lemma HolderOfLeftForkMoves(n: nat, s: State, i: nat)
    requires ForksConsistent(n, s)
    requires i < n && s.pc[i] == WantLeft && !Enabled(s, i)
    ensures s.fork[i].HeldBy? && s.fork[i].thread < n
    ensures HoldsRight(s.pc[s.fork[i].thread]) && Enabled(s, s.fork[i].thread)
  {
  }

  /** The only deadlock: every philosopher holds just its left fork. */
  lemma StuckExactlyWhenAllHoldLeft(n: nat, sched: seq<nat>)
    requires IsRun(Protocol(), Init(n), sched)
    ensures var s := After(Protocol(), Init(n), sched); Stuck(Protocol(), s) <==> AllHoldLeft(s)
  {
    var s := After(Protocol(), Init(n), sched);
    ForksAlwaysConsistent(n, sched);
    if Stuck(Protocol(), s) {
      forall i: nat ensures !Enabled(s, i) {
        assert !Protocol().enabled(s, i);
      }
      if n > 0 {
        assert !Enabled(s, 0);
        if s.pc[0] == WantLeft {
          HolderOfLeftForkMoves(n, s, 0);
          assert false;
        }
        RingClosure(n, s, 0);
      }
    }
    if AllHoldLeft(s) {
      forall i: nat ensures !Protocol().enabled(s, i) {
        if i < n { assert Holds(s.pc, Right(n, i), Right(n, i)); }
      }
    }
  }

  /** In every reachable state a philosopher cannot move exactly when the fork it wants is held; and that is when the
      left neighbour is at a point where it has both forks, or the right neighbour at one where it has its left. */
  lemma CannotMoveExactly(n: nat, sched: seq<nat>, i: nat)
    requires i < n && IsRun(Protocol(), Init(n), sched)
    ensures var s := After(Protocol(), Init(n), sched);
            && |s.pc| == |s.fork| == n
            && (!Enabled(s, i) <==>
                  || (s.pc[i] == WantLeft && s.fork[i].HeldBy?)
                  || (s.pc[i] == WantRight && s.fork[Right(n, i)].HeldBy?))
            && (!Enabled(s, i) <==>
                  || (s.pc[i] == WantLeft && HoldsRight(s.pc[Left(n, i)]))
                  || (s.pc[i] == WantRight && HoldsLeft(s.pc[Right(n, i)])))
  {
    var s := After(Protocol(), Init(n), sched);
    ForksAlwaysConsistent(n, sched);
    assert Holds(s.pc, Left(n, i), i) <==> HoldsRight(s.pc[Left(n, i)]) || (n == 1 && HoldsLeft(s.pc[i]));
    assert Holds(s.pc, Right(n, i), Right(n, i)) <==> HoldsLeft(s.pc[Right(n, i)]) || (n == 1 && HoldsRight(s.pc[i]));
  }

  /** The deadlock is reachable: everybody takes the left fork, one after the other. */
  lemma DeadlockReachable(n: nat)
    ensures exists sched :: IsRun(Protocol(), Init(n), sched) && AllHoldLeft(After(Protocol(), Init(n), sched))
  {
    EveryoneTakesLeft(n, n);
    var sched := seq(n, i requires 0 <= i => i);
    assert IsRun(Protocol(), Init(n), sched) && AllHoldLeft(After(Protocol(), Init(n), sched));
  }

  /** The first `k` philosophers hold their left fork and nobody holds anything else. */
  function LeftTakenBy(n: nat, k: nat): State {
    State(seq(n, i => if i < k then WantRight else WantLeft),
          seq(n, i requires 0 <= i => if i < k then HeldBy(i) else Free))
  }

  lemma {:induction false} EveryoneTakesLeft(n: nat, k: nat)
    requires k <= n
    ensures var sched := seq(k, i requires 0 <= i => i);
            IsRun(Protocol(), Init(n), sched) && After(Protocol(), Init(n), sched) == LeftTakenBy(n, k)
  {
    var sched := seq(k, i requires 0 <= i => i);
    if k == 0 {
      assert Init(n) == LeftTakenBy(n, 0);
    } else {
      var before := seq(k - 1, i requires 0 <= i => i);
      EveryoneTakesLeft(n, k - 1);
      assert sched == before + [k - 1];
      RunExtend(Protocol(), Init(n), before, k - 1);
      assert Step(LeftTakenBy(n, k - 1), k - 1) == LeftTakenBy(n, k);
    }
  }

  /** The forks of the program, and where each thread is in `thread_start`. */
  class Table {
    const n: nat
    const ring: ForkRing
    const pc: array<Pc>
    ghost var trace: seq<nat>  // the philosophers that have moved, in order

    ghost predicate Wired()
      reads ring.leftFork, ring.rightFork
    {
      ring.Wired() && ring.n == pc.Length == n
    }

    ghost function Model(): State
      reads ring.fork, pc
    {
      State(pc[..], ring.fork[..])
    }

    /** The memory is that of a run of the protocol from its initial state. */
    ghost predicate Valid()
      reads this, ring.leftFork, ring.rightFork, ring.fork, pc
    {
      Wired() && IsRun(Protocol(), Init(n), trace) && Model() == After(Protocol(), Init(n), trace)
    }

    /** `main`: initialise the forks, lay the ring, start the threads. */
    constructor (nphilosopher: nat)
      ensures Valid() && trace == [] && n == nphilosopher && Model() == Init(nphilosopher)
      ensures pc[..] == seq(n, _ => WantLeft) && ring.fork[..] == seq(n, _ => Free)
      ensures fresh(ring.fork) && fresh(ring.leftFork) && fresh(ring.rightFork) && fresh(pc)
    {
      n := nphilosopher;
      ring := new ForkRing(nphilosopher);
      pc := new Pc[nphilosopher](_ => WantLeft);
      trace := [];
      new;
      assert pc[..] == Init(n).pc && ring.fork[..] == Init(n).fork;
    }

    /** `ok` is false while the lock call blocks. */
    method TakeLeftFork(i: nat) returns (ok: bool)
      requires Wired() && i < n && pc[i] == WantLeft
      modifies ring.fork, pc
      ensures ok == old(ring.fork[i].Free?)
      ensures pc[..] == if ok then old(pc[..])[i := WantRight] else old(pc[..])
      ensures ring.fork[..] == if ok then old(ring.fork[..])[i := HeldBy(i)] else old(ring.fork[..])
      ensures Wired() && ok == old(Enabled(Model(), i)) && Model() == Step(old(Model()), i)
    {
      ok := ring.TakeLeft(i);
      if ok {
        pc[i] := WantRight;
      }
    }

    method TakeRightFork(i: nat) returns (ok: bool)
      requires Wired() && i < n && pc[i] == WantRight
      modifies ring.fork, pc
      ensures ok == old(ring.fork[Right(n, i)].Free?)
      ensures pc[..] == if ok then old(pc[..])[i := Eating] else old(pc[..])
      ensures ring.fork[..] == if ok then old(ring.fork[..])[Right(n, i) := HeldBy(i)] else old(ring.fork[..])
      ensures Wired() && ok == old(Enabled(Model(), i)) && Model() == Step(old(Model()), i)
    {
      ok := ring.TakeRight(i);
      if ok {
        pc[i] := Eating;
      }
    }

    method Eat(i: nat)
      requires Wired() && i < n && pc[i] == Eating
      modifies pc
      ensures pc[..] == old(pc[..])[i := DropRight]
      ensures Wired() && Model() == Step(old(Model()), i)
    {
      pc[i] := DropRight;
    }

    method PutRightFork(i: nat)
      requires Wired() && i < n && pc[i] == DropRight
      modifies ring.fork, pc
      ensures pc[..] == old(pc[..])[i := DropLeft]
      ensures ring.fork[..] == old(ring.fork[..])[Right(n, i) := Free]
      ensures Wired() && Model() == Step(old(Model()), i)
    {
      ring.PutRight(i);
      pc[i] := DropLeft;
    }

    method PutLeftFork(i: nat)
      requires Wired() && i < n && pc[i] == DropLeft
      modifies ring.fork, pc
      ensures pc[..] == old(pc[..])[i := WantLeft]
      ensures ring.fork[..] == old(ring.fork[..])[i := Free]
      ensures Wired() && Model() == Step(old(Model()), i)
    {
      ring.PutLeft(i);
      pc[i] := WantLeft;
    }

    /** One atomic step of the endless loop of `thread_start`. */
    method Advance(i: nat) returns (ok: bool)
      requires Valid() && i < n
      modifies this`trace, ring.fork, pc
      ensures Valid() && trace == (if ok then old(trace) + [i] else old(trace))
      ensures ok == old(Enabled(Model(), i)) && Model() == Step(old(Model()), i)
    {
      ok := true;
      match pc[i] {
        case WantLeft => ok := TakeLeftFork(i);
        case WantRight => ok := TakeRightFork(i);
        case Eating => Eat(i);
        case DropRight => PutRightFork(i);
        case DropLeft => PutLeftFork(i);
      }
      if ok {
        RunExtend(Protocol(), Init(n), trace, i);
        trace := trace + [i];
      }
    }

    /** Whatever has happened so far, the table is deadlocked exactly when every thread is at its second lock call. */
    lemma DeadlockedExactly()
      requires Valid()
      ensures Stuck(Protocol(), Model()) <==> forall i :: 0 <= i < n ==> pc[i] == WantRight
    {
      var s := Model();
      StuckExactlyWhenAllHoldLeft(n, trace);
      ForksAlwaysConsistent(n, trace);
      assert forall i :: 0 <= i < n ==> s.pc[i] == pc[i];
      if forall i :: 0 <= i < n ==> s.pc[i] == WantRight {
        forall i: nat | i < n ensures s.fork[i] == HeldBy(i) {
          WaiterHoldsLeft(n, s, i);
        }
        assert AllHoldLeft(s);
      }
    }

    /** So a look at the threads alone tells whether the program hangs. */
    method IsDeadlocked() returns (dead: bool)
      requires Valid()
      ensures dead <==> Stuck(Protocol(), Model())
    {
      dead := forall i :: 0 <= i < n ==> pc[i] == WantRight;
      DeadlockedExactly();
    }
  }
}
