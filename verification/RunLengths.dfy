/** How long `race.c` runs.

    A finished run of T threads takes three steps for each store and one last test in each thread, so its length is
    decided by the number of stores. Call a thread's height the highest counter value it can still store from. A store
    from height h lets every other thread climb to h - 1 again, but itself comes down from h; counting the threads that
    are still at each height bounds the number of stores by a binomial coefficient, which is reached.
 */
module RunLengths {
  import opened Binomials
  import opened Runs
  import opened Sums
  import opened Race

  // ---------- Three steps for each store ----------

  /** The steps a thread has taken since its last store. */
  function Progress(t: Thread): int {
    match t
    case Testing => 0
    case Loading => 1
    case Storing(_) => 2
    case Done => 1
  }

  function Rounds(s: State): seq<int> { seq(|s.threads|, i requires 0 <= i < |s.threads| => Progress(s.threads[i])) }

  lemma StepProgresses(s: State, i: nat)
    requires Enabled(s, i)
    ensures Sum(Rounds(Step(s, i))) == Sum(Rounds(s)) + 1 - (if s.threads[i].Storing? then 3 else 0)
  {
    var t := Step(s, i);
    assert Rounds(t) == Rounds(s)[i := Progress(t.threads[i])];
    SumUpdate(Rounds(s), i, Progress(t.threads[i]));
  }

  lemma {:induction false} ThreeStepsForEachStore(s: State, sched: seq<nat>)
    requires IsRun(Program(), s, sched)
    ensures |sched| == 3 * Stores(s, sched) + Sum(Rounds(After(Program(), s, sched))) - Sum(Rounds(s))
    decreases |sched|
  {
    if sched == [] {
    } else {
      StepProgresses(s, sched[0]);
      ThreeStepsForEachStore(Step(s, sched[0]), sched[1..]);
    }
  }

  // ---------- How many stores there can be ----------

  /** The highest value a thread can still store from, whatever it is, but at least 1 if it is going to store. */
  function Height(n: int, t: Thread): nat {
    match t
    case Testing => if n > 0 then n else 0
    case Loading => if n > 1 then n else 1
    case Storing(r) => if r > 1 then r else 1
    case Done => 0
  }

  function Tall(v: nat, s: State): seq<int> {
    seq(|s.threads|, i requires 0 <= i < |s.threads| => if Height(s.n, s.threads[i]) >= v then 1 else 0)
  }

  /** The number of threads of height `v` or more. */
  function AtHeight(v: nat, s: State): int { Sum(Tall(v, s)) }

  /** The stores that the heights 1 to `v` no longer allow. */
  function Spent(v: nat, s: State): nat {
    if v == 0 then 0 else Spent(v - 1, s) + Choose(v, |s.threads| - 1 - AtHeight(v, s))
  }

  lemma AtHeightBounds(v: nat, s: State)
    ensures 0 <= AtHeight(v, s) <= |s.threads|
  {
    SumBounds(Tall(v, s), 0, 1);
  }

  /** With at least `a` threads at each of the heights 1 to `v`, no more than this is spent there. */
  lemma {:induction false} SpentIsBounded(v: nat, s: State, a: nat)
    requires a <= |s.threads| && forall w: nat :: 1 <= w <= v ==> a <= AtHeight(w, s)
    ensures Spent(v, s) <= Choose(v, |s.threads| - a) - 1
  {
    if v == 0 {
      ChooseFromZero(|s.threads| - a);
    } else {
      SpentIsBounded(v - 1, s, a);
      ChooseMonotone(v, |s.threads| - 1 - AtHeight(v, s), |s.threads| - 1 - a);
      Pascal(v, |s.threads| - a);
    }
  }

  /** A step other than a store leaves every thread at its height. */
  lemma OnlyStoresSpend(v: nat, s: State, i: nat)
    requires Enabled(s, i) && !s.threads[i].Storing?
    ensures Spent(v, Step(s, i)) == Spent(v, s)
  {
    if v == 0 {
    } else {
      OnlyStoresSpend(v - 1, s, i);
      assert Tall(v, Step(s, i)) == Tall(v, s);
    }
  }

  /** A store from height `h` brings its thread below `h` and nobody to above it. */
  lemma StoreComesDown(s: State, i: nat, w: nat)
    requires Enabled(s, i) && s.threads[i].Storing?
    ensures var h := Height(s.n, s.threads[i]);
            && (w > h ==> AtHeight(w, Step(s, i)) <= AtHeight(w, s))
            && (w == h ==> AtHeight(w, Step(s, i)) <= AtHeight(w, s) - 1)
  {
    var t, h := Step(s, i), Height(s.n, s.threads[i]);
    if w >= h {
      assert Tall(w, t)[i] == 0 && Tall(w, s)[i] == (if w == h then 1 else 0);
      SumMonotone(Tall(w, t), Tall(w, s)[i := 0]);
      SumUpdate(Tall(w, s), i, 0);
    }
  }

  lemma HeightsFall(s: State, h: nat)
    ensures forall w: nat :: 1 <= w <= h ==> AtHeight(h, s) <= AtHeight(w, s)
  {
    forall w: nat | 1 <= w <= h ensures AtHeight(h, s) <= AtHeight(w, s) {
      SumMonotone(Tall(h, s), Tall(w, s));
    }
  }

  /** Whatever a store reopens below, it spends more: the room at its own height exceeds all the room below. */
  lemma StoreSpendsAtItsHeight(s: State, i: nat)
    requires Enabled(s, i) && s.threads[i].Storing?
    ensures var h := Height(s.n, s.threads[i]); Spent(h, Step(s, i)) >= Spent(h, s) + 1
  {
    var t, h := Step(s, i), Height(s.n, s.threads[i]);
    var a := AtHeight(h, s);
    AtHeightBounds(h, s);
    AtHeightBounds(h, t);
    StoreComesDown(s, i, h);
    HeightsFall(s, h);
    SpentIsBounded(h - 1, s, a);
    ChooseMonotone(h, |s.threads| - a, |s.threads| - 1 - AtHeight(h, t));
    Pascal(h, |s.threads| - a);
  }

  /** Every store spends at least one of the stores there can be. */
  lemma {:induction false} StoreSpends(top: nat, s: State, i: nat)
    requires Enabled(s, i) && s.threads[i].Storing? && top >= Height(s.n, s.threads[i])
    ensures Spent(top, Step(s, i)) >= Spent(top, s) + 1
    decreases top
  {
    if top == Height(s.n, s.threads[i]) {
      StoreSpendsAtItsHeight(s, i);
    } else {
      StoreSpends(top - 1, s, i);
      StoreComesDown(s, i, top);
      ChooseMonotone(top, |s.threads| - 1 - AtHeight(top, s), |s.threads| - 1 - AtHeight(top, Step(s, i)));
    }
  }

  lemma {:induction false} StoresAreSpent(top: nat, s: State, sched: seq<nat>)
    requires 1 <= top && Below(top, s) && IsRun(Program(), s, sched)
    ensures Stores(s, sched) + Spent(top, s) <= Spent(top, After(Program(), s, sched))
    ensures |After(Program(), s, sched).threads| == |s.threads|
    decreases |sched|
  {
    if sched == [] {
    } else {
      var i := sched[0];
      if s.threads[i].Storing? {
        StoreSpends(top, s, i);
      } else {
        OnlyStoresSpend(top, s, i);
      }
      StepStaysBelow(top, s, i);
      StoresAreSpent(top, Step(s, i), sched[1..]);
    }
  }

  /** T threads on `n` tickets make at most C(n + T, T) - 1 stores, and none if `n` is not positive. */
  lemma StoresAreBounded(n: int, nthreads: nat, sched: seq<nat>)
    requires IsRun(Program(), Init(n, nthreads), sched)
    ensures Stores(Init(n, nthreads), sched) < Choose(LevelOf(n), nthreads)
    ensures |After(Program(), Init(n, nthreads), sched).threads| == nthreads
  {
    var s := Init(n, nthreads);
    if n > 0 {
      StoresAreSpent(n, s, sched);
      var t := After(Program(), s, sched);
      forall w: nat ensures 0 <= AtHeight(w, t) {
        AtHeightBounds(w, t);
      }
      SpentIsBounded(n, t, 0);
    } else {
      NobodyStores(s, sched);
      ChooseFromZero(nthreads);
    }
  }

  lemma {:induction false} NobodyStores(s: State, sched: seq<nat>)
    requires s.n <= 0 && IsRun(Program(), s, sched)
    requires forall i :: 0 <= i < |s.threads| ==> s.threads[i] in {Testing, Done}
    ensures Stores(s, sched) == 0 && |After(Program(), s, sched).threads| == |s.threads|
    decreases |sched|
  {
    if sched == [] {
    } else {
      NobodyStores(Step(s, sched[0]), sched[1..]);
    }
  }

  // ---------- Every number of stores in between ----------

  /** `sched` leads from `s` to `t` with `k` stores. */
  ghost predicate Leads(s: State, sched: seq<nat>, t: State, k: int) {
    IsRun(Program(), s, sched) && After(Program(), s, sched) == t && Stores(s, sched) == k
  }

  lemma {:induction false} LeadsOn(s: State, a: seq<nat>, t: State, j: int, b: seq<nat>, u: State, k: int)
    requires Leads(s, a, t, j) && Leads(t, b, u, k)
    ensures Leads(s, a + b, u, j + k)
    decreases |a|
  {
    if a == [] {
      assert a + b == b;
    } else {
      assert (a + b)[1..] == a[1..] + b;
      var first := if s.threads[a[0]].Storing? then 1 else 0;
      LeadsOn(Step(s, a[0]), a[1..], t, j - first, b, u, k);
    }
  }

  lemma OneStep(s: State, i: nat)
    requires Enabled(s, i)
    ensures Leads(s, [i], Step(s, i), if s.threads[i].Storing? then 1 else 0)
  {
    var t := Step(s, i);
    assert [i][1..] == [] && IsRun(Program(), t, []) && Stores(t, []) == 0;
  }

  /** Thread `i` passes the test and loads. */
  lemma Reads(s: State, i: nat)
    requires i < |s.threads| && s.threads[i] == Testing && s.n > 0
    ensures Leads(s, [i] + [i], State(s.n, s.threads[i := Storing(s.n)]), 0)
  {
    OneStep(s, i);
    var t := Step(s, i);
    OneStep(t, i);
    assert t.threads[i := Storing(s.n)] == s.threads[i := Storing(s.n)];
    LeadsOn(s, [i], t, 0, [i], Step(t, i), 0);
  }

  /** Thread `i` goes once round the loop. */
  lemma Sells(s: State, i: nat)
    requires i < |s.threads| && s.threads[i] == Testing && s.n > 0
    ensures Leads(s, [i] + [i] + [i], State(s.n - 1, s.threads), 1)
  {
    Reads(s, i);
    var t := State(s.n, s.threads[i := Storing(s.n)]);
    OneStep(t, i);
    assert t.threads[i := Testing] == s.threads;
    LeadsOn(s, [i] + [i], t, 0, [i], Step(t, i), 1);
  }

  /** How to split `k` stores from `v` by `q` threads: the last thread loads first, the others then make `j` of them
      and come down to 0, its store lifts the counter to v - 1, and all of them make the `rest`. */
  lemma SplitStores(v: nat, q: nat, k: nat) returns (j: nat, rest: nat)
    requires 1 <= v && 2 <= q && Choose(v - 1, q) < k < Choose(v, q)
    ensures v <= j < Choose(v, q - 1) && v - 1 <= rest < Choose(v - 1, q) && j + 1 + rest == k
  {
    Pascal(v, q);
    ChooseAtLeast(v - 1, q);
    ChooseAtLeast(v, q - 1);
    rest := if k - 1 - v < Choose(v - 1, q) then k - 1 - v else Choose(v - 1, q) - 1;
    j := k - 1 - rest;
  }

  /** The first `q` threads, all at the test, can bring the counter from `v` down to 0 with any number of stores from
      `v` to Choose(v, q) - 1. The other threads do not move. */
  lemma {:induction false} SellWith(s: State, q: nat, v: nat, k: nat) returns (sched: seq<nat>)
    requires 1 <= q <= |s.threads| && s.n == v && forall i :: 0 <= i < q ==> s.threads[i] == Testing
    requires v <= k < Choose(v, q)
    ensures Leads(s, sched, State(0, s.threads), k)
    decreases v, q
  {
    if v == 0 {
      ChooseFromZero(q);
      sched := [];
    } else if k <= Choose(v - 1, q) {
      Sells(s, 0);
      var t := State(v - 1, s.threads);
      var more := SellWith(t, q, v - 1, k - 1);
      LeadsOn(s, [0] + [0] + [0], t, 1, more, State(0, s.threads), k - 1);
      sched := [0] + [0] + [0] + more;
    } else {
      ChooseOne(v);
      ChooseOne(v - 1);
      var j, rest := SplitStores(v, q, k);
      sched := SellBehind(s, q, v, j, rest);
    }
  }

  lemma {:induction false} SellBehind(s: State, q: nat, v: nat, j: nat, rest: nat) returns (sched: seq<nat>)
    requires 2 <= q <= |s.threads| && s.n == v >= 1 && forall i :: 0 <= i < q ==> s.threads[i] == Testing
    requires v <= j < Choose(v, q - 1) && v - 1 <= rest < Choose(v - 1, q)
    ensures Leads(s, sched, State(0, s.threads), j + 1 + rest)
    decreases v, q, 0
  {
    var x := q - 1;
    Reads(s, x);
    var t := State(v, s.threads[x := Storing(v)]);
    var a := SellWith(t, q - 1, v, j);
    LeadsOn(s, [x] + [x], t, 0, a, State(0, t.threads), j);
    OneStep(State(0, t.threads), x);
    assert t.threads[x := Testing] == s.threads;
    var u := State(v - 1, s.threads);
    LeadsOn(s, [x] + [x] + a, State(0, t.threads), j, [x], u, 1);
    var b := SellWith(u, q, v - 1, rest);
    sched := [x] + [x] + a + [x] + b;
    LeadsOn(s, [x] + [x] + a + [x], u, j + 1, b, State(0, s.threads), rest);
  }

  // ---------- The exact lengths ----------

  /** A run that ends with every thread done. */
  ghost predicate Finishes(n: int, nthreads: nat, sched: seq<nat>) {
    IsRun(Program(), Init(n, nthreads), sched) && Stuck(Program(), After(Program(), Init(n, nthreads), sched))
  }

  lemma FinishedLength(n: int, nthreads: nat, sched: seq<nat>)
    requires Finishes(n, nthreads, sched)
    ensures |sched| == 3 * Stores(Init(n, nthreads), sched) + nthreads
  {
    var s := Init(n, nthreads);
    var t := After(Program(), s, sched);
    StoresAreBounded(n, nthreads, sched);
    ThreeStepsForEachStore(s, sched);
    forall i: nat | i < nthreads ensures t.threads[i] == Done {
      assert !Program().enabled(t, i);
    }
    SumConstant(Rounds(s), 0);
    SumConstant(Rounds(t), 1);
  }

  /** Any number of stores between `n` and C(n + T, T) - 1 is made by some finished run. */
  lemma FinishWith(n: nat, nthreads: nat, k: nat) returns (sched: seq<nat>)
    requires 1 <= nthreads && n <= k < Choose(n, nthreads)
    ensures Finishes(n, nthreads, sched) && Stores(Init(n, nthreads), sched) == k
  {
    var s, t := Init(n, nthreads), Init(0, nthreads);
    var a := SellWith(s, nthreads, n, k);
    EverybodyFindsNothing(0, nthreads, nthreads);
    var b := seq(nthreads, i requires 0 <= i => i);
    NobodyStores(t, b);
    assert State(0, s.threads) == t;
    sched := a + b;
    LeadsOn(s, a, t, k, b, FirstDone(0, nthreads, nthreads), 0);
    assert forall i: nat :: !Program().enabled(FirstDone(0, nthreads, nthreads), i);
  }

  /** The finished runs of T threads on `n` tickets make exactly the numbers of stores from `n` to C(n + T, T) - 1. */
  lemma StoresExactly(n: nat, nthreads: nat, k: int)
    requires 1 <= nthreads
    ensures (exists sched :: Finishes(n, nthreads, sched) && Stores(Init(n, nthreads), sched) == k)
       <==> n <= k < Choose(n, nthreads)
  {
    if sched :| Finishes(n, nthreads, sched) && Stores(Init(n, nthreads), sched) == k {
      StoresAccountForTickets(n, nthreads, sched);
      StoresAreBounded(n, nthreads, sched);
    }
    if n <= k < Choose(n, nthreads) {
      var sched := FinishWith(n, nthreads, k);
    }
  }

  /** So they have exactly the lengths 3k + T for those k: 3n + T at least, and with one thread always. */
  lemma RunLengthsExactly(n: nat, nthreads: nat, len: nat)
    requires 1 <= nthreads
    ensures (exists sched :: Finishes(n, nthreads, sched) && |sched| == len)
       <==> (exists k :: n <= k < Choose(n, nthreads) && len == 3 * k + nthreads)
  {
    if sched :| Finishes(n, nthreads, sched) && |sched| == len {
      FinishedLength(n, nthreads, sched);
      StoresExactly(n, nthreads, Stores(Init(n, nthreads), sched));
    }
    if k: nat :| n <= k < Choose(n, nthreads) && len == 3 * k + nthreads {
      var sched := FinishWith(n, nthreads, k);
      FinishedLength(n, nthreads, sched);
    }
  }

  /** Every run is finite, however stale the values it stores: started on `n` tickets, T threads take at most
      3 C(n + T, T) + T - 3 steps, which some run takes; on no tickets, or a negative number, one step each. */
  lemma EveryRunIsFinite(n: int, nthreads: nat, sched: seq<nat>)
    requires IsRun(Program(), Init(n, nthreads), sched)
    ensures |sched| <= 3 * Choose(LevelOf(n), nthreads) + nthreads - 3
  {
    var s := Init(n, nthreads);
    RunStaysBelow(n, nthreads, sched);
    var more := RunOn(LevelOf(n), After(Program(), s, sched));
    RunConcat(Program(), s, sched, more);
    FinishedLength(n, nthreads, sched + more);
    StoresAreBounded(n, nthreads, sched + more);
  }
}
