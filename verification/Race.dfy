/** `race.c`: several threads decrement one counter without a lock.

    Each thread repeats: test the counter; if it is positive, load it, then store the loaded value minus one.
    Test, load and store are separate steps of a sequentially consistent memory, so a thread can store a value
    that is long out of date and raise the counter again.
 */
module Race {
  import opened Runs
  import opened Sums

  /** Where a thread is; `Storing(r)` has loaded `r` into its register. */
  datatype Thread = Testing | Loading | Storing(r: int) | Done

  datatype State = State(n: int, threads: seq<Thread>)

  function Init(n: int, nthreads: nat): State {
    State(n, seq(nthreads, _ => Testing))
  }

  predicate Enabled(s: State, i: nat) {
    i < |s.threads| && s.threads[i] != Done
  }

  /** The next atomic step of thread `i`. */
  function Step(s: State, i: nat): State {
    if !Enabled(s, i) then s else
    match s.threads[i]
    case Testing => s.(threads := s.threads[i := if s.n > 0 then Loading else Done])
    case Loading => s.(threads := s.threads[i := Storing(s.n)])
    case Storing(r) => State(r - 1, s.threads[i := Testing])
    case Done => s
  }

  function Program(): Machine<State> {
    Machine((s, i) => Enabled(s, i), (s, i) => Step(s, i))
  }

  // ---------- Termination ----------

  /** What a thread contributes to level `v` while the counter is `n`.

      At a level `v > 0` count the steps a thread can still take before it leaves the level for good: while the
      counter is `v` a tester has three (test, load, store), a loader two, and whoever has loaded `v` one, whatever
      the counter is. Level 0 collects every value that is not positive; there a test ends the thread. */
  function Weight(v: nat, n: int, t: Thread): int {
    if v > 0 then
      match t
      case Testing => if n == v then 3 else 0
      case Loading => if n == v then 2 else 0
      case Storing(r) => if r == v then 1 else 0
      case Done => 0
    else
      match t
      case Testing => if n <= 0 then 1 else 0
      case Loading => if n <= 0 then 3 else 0
      case Storing(r) => if r <= 0 then 2 else 0
      case Done => 0
  }

  function Weights(v: nat, s: State): seq<int> {
    seq(|s.threads|, i requires 0 <= i < |s.threads| => Weight(v, s.n, s.threads[i]))
  }

  function Level(v: nat, s: State): int { Sum(Weights(v, s)) }

  /** The level at which a step of thread `i` makes progress. */
  function LevelOf(x: int): nat { if x > 0 then x else 0 }

  /** No value above `top` is in the counter or in a register. */
  ghost predicate Below(top: nat, s: State) {
    && s.n <= top
    && (forall i :: 0 <= i < |s.threads| && s.threads[i].Storing? ==> s.threads[i].r <= top)
  }

  lemma StepStaysBelow(top: nat, s: State, i: nat)
    requires Below(top, s) && Enabled(s, i)
    ensures Below(top, Step(s, i)) && |Step(s, i).threads| == |s.threads|
  {
  }

  /** Entry by entry, a level does not rise, and it drops strictly if one entry does. */
  lemma LevelCompare(v: nat, s: State, t: State, i: nat)
    requires |s.threads| == |t.threads| && i < |s.threads|
    requires forall j :: 0 <= j < |s.threads| ==> Weight(v, t.n, t.threads[j]) <= Weight(v, s.n, s.threads[j])
    ensures Level(v, t) <= Level(v, s)
    ensures Weight(v, t.n, t.threads[i]) < Weight(v, s.n, s.threads[i]) ==> Level(v, t) < Level(v, s)
  {
    assert Weights(v, t)[i] == Weight(v, t.n, t.threads[i]);
    assert Weights(v, s)[i] == Weight(v, s.n, s.threads[i]);
    SumMonotone(Weights(v, t), Weights(v, s));
  }

  /** A step lowers some level and leaves every higher one no higher. */
  ghost predicate Lowers(s: State, t: State, v: nat) {
    Level(v, t) < Level(v, s) && forall w: nat :: w > v ==> Level(w, t) <= Level(w, s)
  }

  lemma StepLowersSomeLevel(top: nat, s: State, i: nat) returns (v: nat)
    requires Below(top, s) && Enabled(s, i)
    ensures v <= top && Lowers(s, Step(s, i), v)
  {
    var t := Step(s, i);
    var u := LevelOf(s.n);
    match s.threads[i]
    case Testing | Loading =>
      v := u;
      forall w: nat | w >= v ensures Level(w, t) <= Level(w, s) && (w == v ==> Level(w, t) < Level(w, s)) {
        LevelCompare(w, s, t, i);
      }
    case Storing(r) =>
      v := StoreLowersSomeLevel(top, s, i);
  }

  /** A store of a stale value may raise the counter, but it uses up one of the finitely many threads that hold
      that value; a store that lowers the counter takes every tester and loader off the higher level. */
  lemma StoreLowersSomeLevel(top: nat, s: State, i: nat) returns (v: nat)
    requires Below(top, s) && Enabled(s, i) && s.threads[i].Storing?
    ensures v <= top && Lowers(s, Step(s, i), v)
  {
    var t := Step(s, i);
    var u, l := LevelOf(s.n), LevelOf(s.threads[i].r);
    v := l;
    if j: nat :| j < |s.threads| && (s.threads[j].Testing? || s.threads[j].Loading?) && u > l {
      v := u;
      LevelCompare(u, s, t, j);
    } else {
      LevelCompare(l, s, t, i);
    }
    forall w: nat | w > v ensures Level(w, t) <= Level(w, s) {
      LevelCompare(w, s, t, i);
    }
  }

  /** All levels from `top` down to `v`, read as digits in base 3T + 1. */
  function Digits(v: nat, top: nat, s: State): int
    requires v <= top
    decreases top - v
  {
    if v == top then Level(v, s) else Digits(v + 1, top, s) * (3 * |s.threads| + 1) + Level(v, s)
  }

  function Measure(top: nat, s: State): int { Digits(0, top, s) }

  lemma LevelIsDigit(v: nat, s: State)
    ensures 0 <= Level(v, s) <= 3 * |s.threads|
  {
    SumBounds(Weights(v, s), 0, 3);
  }

  lemma {:induction false} HigherDigitsDoNotRise(v: nat, w: nat, top: nat, s: State, t: State)
    requires v <= top && w < v && |s.threads| == |t.threads| && Lowers(s, t, w)
    ensures Digits(v, top, t) <= Digits(v, top, s)
    decreases top - v
  {
    assert Level(v, t) <= Level(v, s);
    if v == top {
    } else {
      HigherDigitsDoNotRise(v + 1, w, top, s, t);
      MulMonotone(Digits(v + 1, top, t), Digits(v + 1, top, s), 3 * |s.threads| + 1);
    }
  }

  lemma MulMonotone(a: int, b: int, c: nat)
    requires a <= b
    ensures a * c <= b * c
  {
  }

  /** A drop at one level outweighs whatever happens at the lower ones. */
  lemma {:induction false} DigitsDrop(v: nat, w: nat, top: nat, s: State, t: State)
    requires v <= w <= top && |s.threads| == |t.threads| && Lowers(s, t, w)
    ensures Digits(v, top, t) < Digits(v, top, s)
    decreases top - v
  {
    var base := 3 * |s.threads| + 1;
    LevelIsDigit(v, s);
    LevelIsDigit(v, t);
    if v == w {
      if v < top {
        HigherDigitsDoNotRise(v + 1, w, top, s, t);
        MulMonotone(Digits(v + 1, top, t), Digits(v + 1, top, s), base);
      }
    } else {
      DigitsDrop(v + 1, w, top, s, t);
      MulMonotone(Digits(v + 1, top, t), Digits(v + 1, top, s) - 1, base);
      assert (Digits(v + 1, top, s) - 1) * base == Digits(v + 1, top, s) * base - base;
    }
  }

  /** Every step strictly lowers the measure. */
  lemma StepLowersMeasure(top: nat, s: State, i: nat)
    requires Below(top, s) && Enabled(s, i)
    ensures Measure(top, Step(s, i)) < Measure(top, s)
  {
    StepStaysBelow(top, s, i);
    var w := StepLowersSomeLevel(top, s, i);
    DigitsDrop(0, w, top, s, Step(s, i));
  }

  lemma {:induction false} DigitsNonNegative(v: nat, top: nat, s: State)
    requires v <= top
    ensures 0 <= Digits(v, top, s)
    decreases top - v
  {
    LevelIsDigit(v, s);
    if v == top {
    } else {
      DigitsNonNegative(v + 1, top, s);
      MulMonotone(0, Digits(v + 1, top, s), 3 * |s.threads| + 1);
    }
  }

  /** So every run can be continued until every thread has ended. */
  lemma {:induction false} RunOn(top: nat, s: State) returns (sched: seq<nat>)
    requires Below(top, s)
    ensures IsRun(Program(), s, sched) && Stuck(Program(), After(Program(), s, sched))
    decreases Measure(top, s)
  {
    if i: nat :| Program().enabled(s, i) {
      StepLowersMeasure(top, s, i);
      StepStaysBelow(top, s, i);
      DigitsNonNegative(0, top, Step(s, i));
      var rest := RunOn(top, Step(s, i));
      sched := [i] + rest;
      assert sched[1..] == rest;
    } else {
      sched := [];
    }
  }

  // ---------- What a run leaves behind ----------

  /** The number of stores a run makes. */
  function Stores(s: State, sched: seq<nat>): nat
    decreases |sched|
  {
    if sched == [] then 0
    else
      var i := sched[0];
      (if Enabled(s, i) && s.threads[i].Storing? then 1 else 0) + Stores(Step(s, i), sched[1..])
  }

  /** Neither the counter nor a register is below `low`. */
  ghost predicate Above(low: int, s: State) {
    && low <= s.n
    && (forall i :: 0 <= i < |s.threads| && s.threads[i].Storing? ==> low <= s.threads[i].r)
  }

  /** A positive counter always has a thread that will see it. */
  ghost predicate SomebodyWatches(s: State) {
    s.n > 0 ==> exists i :: 0 <= i < |s.threads| && s.threads[i] != Done
  }

  lemma StepKeepsWatch(s: State, i: nat)
    requires SomebodyWatches(s) && Enabled(s, i)
    ensures SomebodyWatches(Step(s, i))
  {
    var t := Step(s, i);
    if s.threads[i] != Testing || s.n > 0 {
      assert t.threads[i] != Done;
    }
  }

  lemma {:induction false} EachStoreTakesAtMostOne(low: int, s: State, sched: seq<nat>)
    requires Above(low, s) && SomebodyWatches(s) && IsRun(Program(), s, sched)
    ensures Above(low - Stores(s, sched), After(Program(), s, sched))
    ensures SomebodyWatches(After(Program(), s, sched))
    ensures |After(Program(), s, sched).threads| == |s.threads|
    decreases |sched|
  {
    if sched == [] {
    } else {
      var i := sched[0];
      StepKeepsWatch(s, i);
      var lower := if s.threads[i].Storing? then low - 1 else low;
      EachStoreTakesAtMostOne(lower, Step(s, i), sched[1..]);
    }
  }

  /** The counter never runs ahead of the stores: after `k` stores it is at least `n - k`. A run that cannot go on
      has ended every thread and leaves the counter at most 0, so it made at least `n` stores; it may have made
      more, and may have oversold. */
  lemma StoresAccountForTickets(n: int, nthreads: nat, sched: seq<nat>)
    requires 1 <= nthreads && IsRun(Program(), Init(n, nthreads), sched)
    ensures var s := After(Program(), Init(n, nthreads), sched);
            && s.n >= n - Stores(Init(n, nthreads), sched)
            && (Stuck(Program(), s) ==>
                  && (forall i :: 0 <= i < nthreads ==> i < |s.threads| && s.threads[i] == Done)
                  && s.n <= 0 && Stores(Init(n, nthreads), sched) >= n)
  {
    var init := Init(n, nthreads);
    assert init.threads[0] != Done;
    EachStoreTakesAtMostOne(n, init, sched);
    var s := After(Program(), init, sched);
    if Stuck(Program(), s) {
      forall i: nat | i < nthreads ensures s.threads[i] == Done {
        assert !Program().enabled(s, i);
      }
    }
  }

  /** With no tickets, or a negative number, no thread ever stores. */
  lemma NothingToSell(n: int, nthreads: nat, sched: seq<nat>)
    requires n <= 0 && IsRun(Program(), Init(n, nthreads), sched)
    ensures After(Program(), Init(n, nthreads), sched).n == n
  {
    var inv := (s: State) => s.n == n && forall i :: 0 <= i < |s.threads| ==> s.threads[i] in {Testing, Done};
    forall s, i: nat | inv(s) && Program().enabled(s, i) ensures inv(Program().step(s, i)) {
    }
    InvariantAlongRun(Program(), inv, Init(n, nthreads), sched);
  }

  // ---------- What a thread knows ----------

  /** Thread `i` moved last at position `j` of the schedule. */
  predicate LastMove(sched: seq<nat>, i: nat, j: nat) {
    j < |sched| && sched[j] == i && forall m :: j < m < |sched| ==> sched[m] != i
  }

  /** Where a thread stands is what it found at its last move: past the test if the counter was positive then, done
      if it was not, and with a register that is the counter as it was at the load, however old that is by now. */
  ghost predicate Found(before: State, i: nat, now: Thread) {
    && i < |before.threads|
    && match now
       case Testing => before.threads[i].Storing?
       case Loading => before.threads[i] == Testing && before.n > 0
       case Storing(r) => before.threads[i] == Loading && r == before.n
       case Done => before.threads[i] == Testing && before.n <= 0
  }

  lemma {:induction false} LastMoveDecides(s: State, sched: seq<nat>, i: nat) returns (j: nat)
    requires IsRun(Program(), s, sched) && i in sched
    ensures LastMove(sched, i, j)
    ensures i < |After(Program(), s, sched).threads|
    ensures Found(After(Program(), s, sched[..j]), i, After(Program(), s, sched).threads[i])
    decreases |sched|
  {
    var last := |sched| - 1;
    var before, x := sched[..last], sched[last];
    assert sched == before + [x];
    RunExtend(Program(), s, before, x);
    if x == i {
      j := last;
    } else {
      j := LastMoveDecides(s, before, i);
      assert before[..j] == sched[..j];
    }
  }

  /** The step at position `j` of the schedule is a store. */
  ghost predicate StoresAt(s: State, sched: seq<nat>, j: nat) {
    && j < |sched|
    && var t := After(Program(), s, sched[..j]);
       sched[j] < |t.threads| && t.threads[sched[j]].Storing?
  }

  /** The counter is the start value until the first store, and then what the last store has written: the register of
      its thread less one. */
  lemma {:induction false} LastStoreDecides(s: State, sched: seq<nat>)
    requires IsRun(Program(), s, sched)
    ensures (forall j: nat :: !StoresAt(s, sched, j)) ==> After(Program(), s, sched).n == s.n
    ensures forall j: nat :: StoresAt(s, sched, j) && (forall m: nat :: m > j ==> !StoresAt(s, sched, m)) ==>
              After(Program(), s, sched).n == After(Program(), s, sched[..j]).threads[sched[j]].r - 1
    decreases |sched|
  {
    if sched == [] {
    } else {
      var last := |sched| - 1;
      var before, x := sched[..last], sched[last];
      assert sched == before + [x];
      RunExtend(Program(), s, before, x);
      LastStoreDecides(s, before);
      forall j: nat | j < last ensures StoresAt(s, before, j) <==> StoresAt(s, sched, j) {
        assert before[..j] == sched[..j];
      }
      assert StoresAt(s, sched, last) <==> After(Program(), s, before).threads[x].Storing?;
      forall j: nat | StoresAt(s, sched, j) && (forall m: nat :: m > j ==> !StoresAt(s, sched, m))
        ensures After(Program(), s, sched).n == After(Program(), s, sched[..j]).threads[sched[j]].r - 1
      {
        if j < last {
          assert !StoresAt(s, sched, last);
          assert before[..j] == sched[..j];
        }
      }
    }
  }

  // ---------- The race ----------

  /** A run that ends with every thread done and the counter at something other than 0. */
  ghost predicate Missells(n: int, nthreads: nat, sched: seq<nat>) {
    && IsRun(Program(), Init(n, nthreads), sched)
    && var s := After(Program(), Init(n, nthreads), sched);
       Stuck(Program(), s) && s.n != 0
  }

  /** Started on at least one ticket, every finished run sells exactly the tickets there are if and only if a
      single thread runs. */
  lemma ExactSaleOnlyAlone(n: nat, nthreads: nat)
    requires 1 <= n && 1 <= nthreads
    ensures (forall sched :: !Missells(n, nthreads, sched)) <==> nthreads == 1
  {
    if nthreads == 1 {
      forall sched ensures !Missells(n, nthreads, sched) {
        if IsRun(Program(), Init(n, 1), sched) {
          AloneSellsExactly(n, sched);
        }
      }
    } else {
      var sched := OversellingRun(n, nthreads);
      assert Missells(n, nthreads, sched);
    }
  }

  lemma AloneSellsExactly(n: nat, sched: seq<nat>)
    requires IsRun(Program(), Init(n, 1), sched)
    ensures var s := After(Program(), Init(n, 1), sched); Stuck(Program(), s) ==> s.n == 0
  {
    var inv := (s: State) =>
      && |s.threads| == 1 && s.n >= 0
      && match s.threads[0]
         case Testing => true
         case Loading => s.n > 0
         case Storing(r) => r == s.n > 0
         case Done => s.n == 0;
    forall s, i: nat | inv(s) && Program().enabled(s, i) ensures inv(Program().step(s, i)) {
    }
    InvariantAlongRun(Program(), inv, Init(n, 1), sched);
    var s := After(Program(), Init(n, 1), sched);
    assert s.threads[0] != Done ==> Program().enabled(s, 0);
  }

  /** The first `k` threads are done and the others are testing a counter of `n`. */
  function FirstDone(n: int, nthreads: nat, k: nat): State {
    State(n, seq(nthreads, i => if i < k then Done else Testing))
  }

  /** One thread sells all but the last ticket; then two threads both see the last one and both sell it. */
  lemma OversellingRun(n: nat, nthreads: nat) returns (sched: seq<nat>)
    requires 1 <= n && 2 <= nthreads
    ensures IsRun(Program(), Init(n, nthreads), sched)
    ensures After(Program(), Init(n, nthreads), sched) == FirstDone(-1, nthreads, nthreads)
    ensures Stuck(Program(), After(Program(), Init(n, nthreads), sched))
  {
    var s := Init(n, nthreads);
    var a := SellDownToOne(n, nthreads);
    var b := a + [0] + [1] + [0] + [0] + [1] + [1];
    var one := Init(1, nthreads);
    RunExtend(Program(), s, a, 0);
    RunExtend(Program(), s, a + [0], 1);
    RunExtend(Program(), s, a + [0] + [1], 0);
    RunExtend(Program(), s, a + [0] + [1] + [0], 0);
    RunExtend(Program(), s, a + [0] + [1] + [0] + [0], 1);
    RunExtend(Program(), s, a + [0] + [1] + [0] + [0] + [1], 1);
    var t := After(Program(), s, b);
    assert t.n == -1;
    assert t.threads
        == one.threads[0 := Loading][1 := Loading][0 := Storing(1)][0 := Testing][1 := Storing(0)][1 := Testing];
    assert t == Init(-1, nthreads);
    EverybodyFindsNothing(-1, nthreads, nthreads);
    var c := seq(nthreads, i requires 0 <= i => i);
    RunConcat(Program(), s, b, c);
    sched := b + c;
    assert forall i: nat :: !Program().enabled(FirstDone(-1, nthreads, nthreads), i);
  }

  lemma {:induction false} SellDownToOne(n: nat, nthreads: nat) returns (sched: seq<nat>)
    requires 1 <= n && 1 <= nthreads
    ensures IsRun(Program(), Init(n, nthreads), sched)
    ensures After(Program(), Init(n, nthreads), sched) == Init(1, nthreads)
  {
    var s := Init(n, nthreads);
    if n == 1 {
      sched := [];
    } else {
      var rest := SellDownToOne(n - 1, nthreads);
      RunExtend(Program(), s, [], 0);
      RunExtend(Program(), s, [] + [0], 0);
      RunExtend(Program(), s, [] + [0] + [0], 0);
      var round := [] + [0] + [0] + [0];
      assert s.threads[0 := Loading][0 := Storing(n)][0 := Testing] == s.threads;
      assert After(Program(), s, []) == s && IsRun(Program(), s, []);
      assert After(Program(), s, round) == Init(n - 1, nthreads);
      RunConcat(Program(), s, round, rest);
      sched := round + rest;
    }
  }

  /** At a counter that is not positive every thread tests once and ends. */
  lemma {:induction false} EverybodyFindsNothing(n: int, nthreads: nat, k: nat)
    requires n <= 0 && k <= nthreads
    ensures var sched := seq(k, i requires 0 <= i => i);
            && IsRun(Program(), Init(n, nthreads), sched)
            && After(Program(), Init(n, nthreads), sched) == FirstDone(n, nthreads, k)
  {
    var s := Init(n, nthreads);
    if k == 0 {
      assert s == FirstDone(n, nthreads, 0);
    } else {
      EverybodyFindsNothing(n, nthreads, k - 1);
      var before := seq(k - 1, i requires 0 <= i => i);
      assert seq(k, i requires 0 <= i => i) == before + [k - 1];
      RunExtend(Program(), s, before, k - 1);
      assert Step(FirstDone(n, nthreads, k - 1), k - 1) == FirstDone(n, nthreads, k);
    }
  }

  // ---------- The program ----------

  lemma RunStaysBelow(n: int, nthreads: nat, sched: seq<nat>)
    requires IsRun(Program(), Init(n, nthreads), sched)
    ensures Below(LevelOf(n), After(Program(), Init(n, nthreads), sched))
  {
    var inv := s => Below(LevelOf(n), s);
    forall s, i: nat | inv(s) && Program().enabled(s, i) ensures inv(Program().step(s, i)) {
      StepStaysBelow(LevelOf(n), s, i);
    }
    InvariantAlongRun(Program(), inv, Init(n, nthreads), sched);
  }

  /** The shared counter, and where each thread is in `thread_start`. */
  class Sale {
    const start: int
    const nthreads: nat
    var ntickets: int
    const thread: array<Thread>
    ghost var trace: seq<nat>  // the threads that have moved, in order

    ghost function Model(): State
      reads this, thread
    {
      State(ntickets, thread[..])
    }

    /** The memory is that of a run of the program. */
    ghost predicate Valid()
      reads this, thread
    {
      && thread.Length == nthreads
      && IsRun(Program(), Init(start, nthreads), trace)
      && Model() == After(Program(), Init(start, nthreads), trace)
    }

    constructor (n: int, nthreads: nat)
      ensures Valid() && start == ntickets == n && this.nthreads == nthreads && trace == [] && fresh(thread)
      ensures thread[..] == seq(nthreads, _ => Testing)
    {
      start, ntickets, this.nthreads := n, n, nthreads;
      thread := new Thread[nthreads];
      trace := [];
      new;
      for i := 0 to nthreads
        invariant forall j :: 0 <= j < i ==> thread[j] == Testing
        invariant ntickets == n && trace == []
      {
        thread[i] := Testing;
      }
      assert thread[..] == Init(n, nthreads).threads;
    }

    /** The loop condition: one read of the counter. */
    method Test(i: nat)
      requires i < thread.Length && thread[i] == Testing
      modifies thread
      ensures thread[..] == old(thread[..])[i := if ntickets > 0 then Loading else Done]
      ensures Model() == Step(old(Model()), i)
    {
      thread[i] := if ntickets > 0 then Loading else Done;
    }

    /** The first half of the decrement: read the counter into a register. */
    method Load(i: nat)
      requires i < thread.Length && thread[i] == Loading
      modifies thread
      ensures thread[..] == old(thread[..])[i := Storing(ntickets)]
      ensures Model() == Step(old(Model()), i)
    {
      thread[i] := Storing(ntickets);
    }

    /** The second half of the decrement: write the register, less one, back. */
    method Store(i: nat)
      requires i < thread.Length && thread[i].Storing?
      modifies this`ntickets, thread
      ensures ntickets == old(thread[i].r) - 1 && thread[..] == old(thread[..])[i := Testing]
      ensures Model() == Step(old(Model()), i)
    {
      ntickets := thread[i].r - 1;
      thread[i] := Testing;
    }

    /** One atomic step of the loop of `thread_start`. */
    method Advance(i: nat)
      requires Valid() && i < nthreads && thread[i] != Done
      modifies this`ntickets, this`trace, thread
      ensures Valid() && Model() == Step(old(Model()), i) && trace == old(trace) + [i]
      ensures Measure(LevelOf(start), Model()) < Measure(LevelOf(start), old(Model()))
      ensures forall j :: 0 <= j < nthreads && old(thread[j]) == Done ==> thread[j] == Done
    {
      RunExtend(Program(), Init(start, nthreads), trace, i);
      RunStaysBelow(start, nthreads, trace);
      StepLowersMeasure(LevelOf(start), Model(), i);
      match thread[i] {
        case Testing => Test(i);
        case Loading => Load(i);
        case Storing(_) => Store(i);
      }
      trace := trace + [i];
    }

    /** `pthread_join`: until thread `i` is done, the scheduler lets any threads move. */
    method Join(i: nat)
      requires Valid() && i < nthreads
      modifies this`ntickets, this`trace, thread
      ensures Valid() && thread[i] == Done
      ensures forall j :: 0 <= j < nthreads && old(thread[j]) == Done ==> thread[j] == Done
    {
      RunStaysBelow(start, nthreads, trace);
      DigitsNonNegative(0, LevelOf(start), Model());
      while thread[i] != Done
        invariant Valid() && 0 <= Measure(LevelOf(start), Model())
        invariant forall j :: 0 <= j < nthreads && old(thread[j]) == Done ==> thread[j] == Done
        decreases Measure(LevelOf(start), Model())
      {
        var j :| 0 <= j < nthreads && thread[j] != Done;
        Advance(j);
        DigitsNonNegative(0, LevelOf(start), Model());
      }
    }

    /** The rest of `main`: join every thread. Whatever the scheduler does, this ends, and the counter is not
        positive when it does. */
    method JoinAll()
      requires Valid() && 1 <= nthreads
      modifies this`ntickets, this`trace, thread
      ensures Valid() && forall j :: 0 <= j < nthreads ==> thread[j] == Done
      ensures start > 0 ==> ntickets <= 0
      ensures start <= 0 ==> ntickets == start
      ensures Stores(Init(start, nthreads), trace) >= start - ntickets
    {
      for i := 0 to nthreads
        invariant Valid() && forall j :: 0 <= j < i ==> thread[j] == Done
      {
        Join(i);
      }
      StoresAccountForTickets(start, nthreads, trace);
      assert Model().threads == thread[..];
      assert forall i: nat :: !Program().enabled(Model(), i);
      if start <= 0 {
        NothingToSell(start, nthreads, trace);
      }
    }
  }
}
