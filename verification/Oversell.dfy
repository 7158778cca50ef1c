/** How far `race.c` can oversell.

    Call a thread's level the highest counter value it can still bring about or act on: the register it is about to
    store from, or the counter it is testing or loading; a thread that has passed the test has level at least 1,
    for it will decrement once more whatever the counter. A stale store from level h puts the counter at h - 1 and so
    can lift every other thread to h - 1, at the price of one thread at level h. Counting how many threads are at
    each level bounds how often this can happen, by a binomial coefficient.
 */
module Oversell {
  import opened Runs
  import opened Sums
  import opened Race
  import opened Binomials

  // ---------- Levels ----------

  function LevelIn(n: int, t: Thread): nat {
    match t
    case Testing => if n > 0 then n else 0
    case Loading => if n > 0 then n else 1
    case Storing(r) => if r > 0 then r else 0
    case Done => 0
  }

  function Reaches(v: nat, s: State): seq<int> {
    seq(|s.threads|, i requires 0 <= i < |s.threads| => if LevelIn(s.n, s.threads[i]) >= v then 1 else 0)
  }

  /** The number of threads at level `v` or above. */
  function AtLeast(v: nat, s: State): int { Sum(Reaches(v, s)) }

  /** What level `v` still allows, once as many threads as `a` are at it. */
  function Room(v: nat, nthreads: nat, a: int): nat { Choose(v, nthreads - 3 - a) }

  /** How far the counter may be below 0: what levels 1 to `v` have used up. */
  function Used(v: nat, s: State): nat {
    if v == 0 then (if AtLeast(1, s) <= |s.threads| - 2 then 1 else 0)
    else Used(v - 1, s) + Room(v, |s.threads|, AtLeast(v, s))
  }

  lemma AtLeastBounds(v: nat, s: State)
    ensures 0 <= AtLeast(v, s) <= |s.threads|
  {
    SumBounds(Reaches(v, s), 0, 1);
  }

  /** Fewer threads at every level means no less is used up. */
  lemma {:induction false} UsedMonotone(v: nat, s: State, t: State)
    requires |s.threads| == |t.threads|
    requires forall w: nat :: 1 <= w ==> AtLeast(w, t) <= AtLeast(w, s)
    ensures Used(v, s) <= Used(v, t)
  {
    if v == 0 {
    } else {
      UsedMonotone(v - 1, s, t);
      ChooseMonotone(v, |s.threads| - 3 - AtLeast(v, s), |s.threads| - 3 - AtLeast(v, t));
    }
  }

  lemma LevelsFall(s: State, t: State)
    requires |s.threads| == |t.threads|
    requires forall j :: 0 <= j < |s.threads| ==> LevelIn(t.n, t.threads[j]) <= LevelIn(s.n, s.threads[j])
    ensures forall w: nat :: AtLeast(w, t) <= AtLeast(w, s)
  {
    forall w: nat ensures AtLeast(w, t) <= AtLeast(w, s) {
      SumMonotone(Reaches(w, t), Reaches(w, s));
    }
  }

  // ---------- A load at or below 0 ----------

  /** A thread that loads a counter that is not positive gives up level 1, which pays for one more decrement. */
  lemma LateLoadPays(top: nat, s: State, i: nat, idle: nat)
    requires 1 <= top && i < |s.threads| && s.threads[i] == Loading && s.n <= 0
    requires idle < |s.threads| && s.threads[idle] in {Testing, Done}
    ensures Used(top, Step(s, i)) >= Used(top, s) + 1
  {
    var t := Step(s, i);
    assert Reaches(1, t) == Reaches(1, s)[i := 0];
    SumUpdate(Reaches(1, s), i, 0);
    assert AtLeast(1, s) <= |s.threads| - 1 by {
      SumBounds(Reaches(1, s)[idle := 1], 0, 1);
      SumUpdate(Reaches(1, s), idle, 1);
    }
    LevelsFall(s, t);
    OnlyLevelOneMatters(top, s, t);
  }

  lemma {:induction false} OnlyLevelOneMatters(v: nat, s: State, t: State)
    requires 1 <= v && |s.threads| == |t.threads|
    requires forall w: nat :: AtLeast(w, t) <= AtLeast(w, s)
    requires AtLeast(1, t) == AtLeast(1, s) - 1 && AtLeast(1, s) <= |s.threads| - 1
    ensures Used(v, t) >= Used(v, s) + 1
  {
    if v == 1 {
      var q := |s.threads| - 3 - AtLeast(1, s);
      Pascal(1, q + 1);
      assert Used(0, t) == 1;
      assert Used(1, t) == 1 + Choose(1, q + 1);
      assert Used(1, s) == Used(0, s) + Choose(1, q);
    } else {
      OnlyLevelOneMatters(v - 1, s, t);
      ChooseMonotone(v, |s.threads| - 3 - AtLeast(v, s), |s.threads| - 3 - AtLeast(v, t));
    }
  }

  // ---------- A stale store ----------

  /** The level a stale store gives up outweighs whatever room it reopens on the levels below. */
  lemma {:induction false} LowerLevelsFit(h: nat, s: State)
    requires forall v: nat :: 1 <= v ==> AtLeast(v + 1, s) <= AtLeast(v, s)
    ensures Used(h, s) <= Choose(h, |s.threads| - 2 - AtLeast(if h == 0 then 1 else h, s))
  {
    if h == 0 {
    } else {
      var q := |s.threads| - 2 - AtLeast(h, s);
      LowerLevelsFit(h - 1, s);
      if h > 1 {
        assert AtLeast((h - 1) + 1, s) <= AtLeast(h - 1, s);
        ChooseMonotone(h - 1, |s.threads| - 2 - AtLeast(h - 1, s), q);
      }
      Pascal(h, q);
    }
  }

  lemma AtLeastFallsWithLevel(s: State)
    ensures forall v: nat :: 1 <= v ==> AtLeast(v + 1, s) <= AtLeast(v, s)
  {
    forall v: nat | 1 <= v ensures AtLeast(v + 1, s) <= AtLeast(v, s) {
      SumMonotone(Reaches(v + 1, s), Reaches(v, s));
    }
  }

  /** A store that raises the counter: only the storing thread leaves level `h`, and nothing changes above it. */
  lemma RaisingStoreFits(top: nat, s: State, i: nat)
    requires i < |s.threads| && s.threads[i].Storing? && 2 <= s.threads[i].r <= top && s.n < s.threads[i].r - 1
    ensures Used(top, Step(s, i)) >= Used(top, s)
  {
    var t, h: nat := Step(s, i), s.threads[i].r;
    forall w: nat | w >= h ensures AtLeast(w, t) == AtLeast(w, s) - (if w == h then 1 else 0) {
      assert Reaches(w, s)[i] == (if w == h then 1 else 0);
      assert Reaches(w, t) == Reaches(w, s)[i := 0];
      SumUpdate(Reaches(w, s), i, 0);
    }
    AtLeastFallsWithLevel(s);
    LowerLevelsFit(h, s);
    UpperLevelsUnchanged(h, top, s, t);
  }

  lemma {:induction false} UpperLevelsUnchanged(h: nat, top: nat, s: State, t: State)
    requires 1 <= h <= top && |s.threads| == |t.threads|
    requires AtLeast(h, t) == AtLeast(h, s) - 1
    requires forall w: nat :: w > h ==> AtLeast(w, t) == AtLeast(w, s)
    requires Used(h, s) <= Choose(h, |s.threads| - 2 - AtLeast(h, s))
    ensures Used(top, t) >= Used(top, s)
  {
    if top == h {
    } else {
      UpperLevelsUnchanged(h, top - 1, s, t);
    }
  }

  // ---------- The bound ----------

  /** No value in the counter, and none about to be stored, is further below 0 than what has been used up. */
  ghost predicate Backed(top: nat, s: State) {
    && Below(top, s)
    && s.n + Used(top, s) >= 0
    && (forall i :: 0 <= i < |s.threads| && s.threads[i].Storing? ==> s.threads[i].r - 1 + Used(top, s) >= 0)
    && (s.n <= 0 ==> exists i :: 0 <= i < |s.threads| && s.threads[i] in {Testing, Done})
  }

  lemma StepUsesNoLess(top: nat, s: State, i: nat)
    requires 1 <= top && Backed(top, s) && Enabled(s, i)
    ensures Used(top, Step(s, i)) >= Used(top, s)
    ensures s.threads[i] == Loading && s.n <= 0 ==> Used(top, Step(s, i)) >= Used(top, s) + 1
  {
    var t := Step(s, i);
    if s.threads[i] == Loading && s.n <= 0 {
      var idle: nat :| idle < |s.threads| && s.threads[idle] in {Testing, Done};
      LateLoadPays(top, s, i, idle);
    } else if s.threads[i].Storing? && s.n < s.threads[i].r - 1 && s.threads[i].r >= 2 {
      RaisingStoreFits(top, s, i);
    } else {
      LevelsFall(s, t);
      UsedMonotone(top, s, t);
    }
  }

  lemma StepKeepsBacked(top: nat, s: State, i: nat)
    requires 1 <= top && Backed(top, s) && Enabled(s, i)
    ensures Backed(top, Step(s, i))
  {
    var t := Step(s, i);
    StepStaysBelow(top, s, i);
    StepUsesNoLess(top, s, i);
    if t.n <= 0 {
      if s.threads[i].Storing? {
        assert t.threads[i] == Testing;
      } else {
        var idle: nat :| idle < |s.threads| && s.threads[idle] in {Testing, Done};
        assert t.threads[idle] in {Testing, Done};
      }
    }
  }

  /** Started on `n` tickets, T threads never take the counter below minus the binomial coefficient of
      n + T - 2 over T - 2; one thread alone never takes it below 0. */
  lemma OversellingIsBounded(n: nat, nthreads: nat, sched: seq<nat>)
    requires 1 <= n && IsRun(Program(), Init(n, nthreads), sched)
    ensures After(Program(), Init(n, nthreads), sched).n + Choose(n, nthreads - 2) >= 0
  {
    var inv := s => Backed(n, s) && |s.threads| == nthreads;
    forall s, i: nat | inv(s) && Program().enabled(s, i) ensures inv(Program().step(s, i)) {
      StepKeepsBacked(n, s, i);
      StepStaysBelow(n, s, i);
    }
    InvariantAlongRun(Program(), inv, Init(n, nthreads), sched);
    var s := After(Program(), Init(n, nthreads), sched);
    AtLeastFallsWithLevel(s);
    LowerLevelsFit(n, s);
    AtLeastBounds(n, s);
    ChooseMonotone(n, nthreads - 2 - AtLeast(n, s), nthreads - 2);
  }

  // ---------- The bound is reached ----------

  /** A thread that can bring the counter to `v - 1` later, whatever happens in between; at level 1, one that will
      decrement once more. */
  ghost predicate Token(v: nat, t: Thread) { if v == 1 then t == Loading else t == Storing(v) }

  /** The threads of `group` but `c` are back at the test, and `c` is about to store `low`. */
  ghost predicate Spent(s: State, group: set<nat>, c: nat, low: int) {
    && c in group
    && (forall j :: j in group ==> j < |s.threads|)
    && s.threads[c] == Storing(low + 1)
    && (forall j :: j in group && j != c ==> s.threads[j] == Testing)
  }

  /** Some reached state has a thread that is about to store `x`. */
  ghost predicate Carried(reached: State -> bool, x: int) {
    exists u, i: nat :: reached(u) && i < |u.threads| && u.threads[i] == Storing(x + 1)
  }

  /** Every value from `low'` to `low` is. */
  ghost predicate AllCarried(reached: State -> bool, low': int, low: int) {
    forall x :: low' <= x <= low ==> Carried(reached, x)
  }

  /** Only the threads of `group` have moved. */
  ghost predicate OnlyMoves(s: State, t: State, group: set<nat>) {
    |t.threads| == |s.threads| && forall j: nat :: j < |s.threads| && j !in group ==> t.threads[j] == s.threads[j]
  }

  /** `reached` contains, with a state, every state one step on. */
  ghost predicate Closed(reached: State -> bool) { Keeps(Program(), reached) }

  lemma Move(reached: State -> bool, s: State, i: nat) returns (t: State)
    requires Closed(reached) && reached(s) && Enabled(s, i)
    ensures t == Step(s, i) && reached(t)
  {
    assert Program().enabled(s, i);
    t := Program().step(s, i);
  }

  lemma OnlyMovesCompose(s: State, t: State, u: State, g: set<nat>, h: set<nat>, group: set<nat>)
    requires OnlyMoves(s, t, g) && OnlyMoves(t, u, h) && g <= group && h <= group
    ensures OnlyMoves(s, u, group)
  {
  }

  /** At a positive counter `v` every tester can be made a token of level `v`. */
  lemma {:induction false} TakeTokens(reached: State -> bool, s: State, ids: set<nat>, v: nat) returns (t: State)
    requires Closed(reached) && reached(s)
    requires 1 <= v && s.n == v && forall j :: j in ids ==> j < |s.threads| && s.threads[j] == Testing
    ensures reached(t) && OnlyMoves(s, t, ids)
    ensures t.n == v && forall j :: j in ids ==> Token(v, t.threads[j])
    decreases |ids|
  {
    if ids == {} {
      t := s;
    } else {
      var x: nat :| x in ids;
      var u := TakeTokens(reached, s, ids - {x}, v);
      assert u.threads[x] == Testing;
      t := Move(reached, u, x);
      if v > 1 {
        t := Move(reached, t, x);
      }
    }
  }

  /** The carrier stores `low`; a thread past the test loads it and becomes the carrier of `low - 1`. */
  lemma PassOn(reached: State -> bool, s: State, group: set<nat>, x: nat, c: nat, low: int) returns (t: State)
    requires Closed(reached) && reached(s)
    requires Spent(s, group, c, low) && x !in group && x < |s.threads| && s.threads[x] == Loading
    ensures reached(t) && OnlyMoves(s, t, group + {x}) && Spent(t, group + {x}, x, low - 1)
    ensures AllCarried(reached, low - 1, low)
  {
    var u := Move(reached, s, c);
    t := Move(reached, u, x);
    assert s.threads[c] == Storing(low + 1) && t.threads[x] == Storing(low - 1 + 1);
  }

  /** The store of a token lifts the counter to `v - 1`; the spent threads and the storing one become tokens of that
      level, while the carrier keeps the low value. */
  lemma ReviveGroup(reached: State -> bool, s: State, group: set<nat>, x: nat, c: nat, v: nat, low: int)
    returns (t: State, ids: set<nat>)
    requires Closed(reached) && reached(s)
    requires 2 <= v && Spent(s, group, c, low) && x !in group && x < |s.threads| && Token(v, s.threads[x])
    ensures reached(t) && OnlyMoves(s, t, group + {x}) && Spent(t, {c}, c, low)
    ensures c !in ids && ids + {c} == group + {x} && |ids| == |group|
    ensures forall j :: j in ids ==> j < |t.threads| && Token(v - 1, t.threads[j])
  {
    ids := group - {c} + {x};
    SwapSize(group, c, x);
    var u := Move(reached, s, x);
    t := TakeTokens(reached, u, ids, v - 1);
    OnlyMovesCompose(s, u, t, {x}, ids, group + {x});
  }

  /** One token of level `v`, with `helpers` threads already spent to help it, takes the counter down by
      `drop`, which is Choose(v - 1, helpers), and every value on the way is about to be stored at some point. */
  lemma {:induction false} SpendToken(reached: State -> bool, s: State, group: set<nat>, helpers: nat, x: nat,
                                      all: set<nat>, c: nat, v: nat, low: int, drop: int)
    returns (t: State, c': nat, low': int)
    requires Closed(reached) && reached(s)
    requires 1 <= v && low <= 0 && Spent(s, group, c, low) && |group| == helpers + 1
    requires x !in group && x < |s.threads| && Token(v, s.threads[x]) && all == group + {x}
    requires drop == Choose(v - 1, helpers)
    ensures reached(t) && OnlyMoves(s, t, all)
    ensures Spent(t, all, c', low') && low' == low - drop && AllCarried(reached, low', low)
    decreases v, 0, 0
  {
    if v == 1 {
      t := PassOn(reached, s, group, x, c, low);
      c', low' := x, low - 1;
      ChooseFromZero(helpers);
    } else {
      var u, ids := ReviveGroup(reached, s, group, x, c, v, low);
      t, c', low' := SpendTokens(reached, u, ids, helpers, c, all, v - 1, low, drop);
      OnlyMovesCompose(s, u, t, all, all, all);
    }
  }

  lemma SwapSize(group: set<nat>, c: nat, x: nat)
    requires c in group && x !in group
    ensures |group - {c} + {x}| == |group| && group - {c} + {x} + {c} == group + {x}
  {
    assert |group - {c}| == |group| - 1;
  }

  lemma SplitSize(ids: set<nat>, x: nat, c: nat)
    requires x in ids && c !in ids
    ensures |ids - {x}| == |ids| - 1 && |ids - {x} + {c}| == |ids| && ids - {x} + {c} + {x} == ids + {c}
  {
  }

  /** `q + 1` tokens of level `v`, one after the other. */
  lemma {:induction false} SpendTokens(reached: State -> bool, s: State, ids: set<nat>, q: int, c: nat,
                                       all: set<nat>, v: nat, low: int, drop: int)
    returns (t: State, c': nat, low': int)
    requires Closed(reached) && reached(s)
    requires 1 <= v && low <= 0 && Spent(s, {c}, c, low) && |ids| == q + 1 && all == ids + {c}
    requires c !in ids && forall j :: j in ids ==> j < |s.threads| && Token(v, s.threads[j])
    requires drop == Choose(v, q)
    ensures reached(t) && OnlyMoves(s, t, all)
    ensures Spent(t, all, c', low') && low' == low - drop && AllCarried(reached, low', low)
    decreases v, 1, |ids|
  {
    if q == -1 {
      t, c', low' := s, c, low;
      assert s.threads[c] == Storing(low + 1);
      assert all == {c};
    } else {
      var x: nat :| x in ids;
      var group := ids - {x} + {c};
      SplitSize(ids, x, c);
      Pascal(v, q);
      var u, c1, mid := SpendTokens(reached, s, ids - {x}, q - 1, c, group, v, low, Choose(v, q - 1));
      assert u.threads[x] == s.threads[x];
      t, c', low' := SpendToken(reached, u, group, q, x, all, c1, v, mid, Choose(v - 1, q));
      OnlyMovesCompose(s, u, t, group, all, all);
    }
  }

  /** One thread runs the counter down to 1 and stops before its last store. */
  lemma {:induction false} RunDown(reached: State -> bool, s: State, c: nat) returns (t: State)
    requires Closed(reached) && reached(s)
    requires s.n >= 1 && c < |s.threads| && s.threads[c] == Testing
    ensures reached(t) && OnlyMoves(s, t, {c}) && t.threads[c] == Storing(1)
    decreases s.n
  {
    t := Move(reached, s, c);
    t := Move(reached, t, c);
    if s.n == 1 {
    } else {
      var u := Move(reached, t, c);
      t := RunDown(reached, u, c);
    }
  }

  /** The lowest value is reached, in whatever set of states contains the initial one and is closed under steps. */
  lemma LowestReached(reached: State -> bool, n: nat, nthreads: nat) returns (t: State)
    requires 1 <= n && 1 <= nthreads && Closed(reached) && reached(Init(n, nthreads))
    ensures reached(t) && t.n == 0 - Choose(n, nthreads - 2)
    ensures AllCarried(reached, 0 - Choose(n, nthreads - 2), 0)
  {
    var ids := Others(nthreads);
    var s1 := TakeTokens(reached, Init(n, nthreads), ids, n);
    var s2 := RunDown(reached, s1, 0);
    var s3, c, low := SpendTokens(reached, s2, ids, nthreads - 2, 0, ids + {0}, n, 0, Choose(n, nthreads - 2));
    t := Move(reached, s3, c);
  }

  /** The threads 1 .. m-1. */
  function Others(m: nat): (ids: set<nat>)
    requires 1 <= m
    ensures forall j: nat :: j in ids <==> 1 <= j < m
    ensures |ids| == m - 1
  {
    if m == 1 then {} else Others(m - 1) + {m - 1}
  }

  /** Some run from the start leads to `t`. */
  ghost predicate Reachable(n: int, nthreads: nat, t: State) {
    exists sched :: IsRun(Program(), Init(n, nthreads), sched) && After(Program(), Init(n, nthreads), sched) == t
  }

  lemma ReachableIsClosed(n: int, nthreads: nat)
    ensures Closed(t => Reachable(n, nthreads, t)) && Reachable(n, nthreads, Init(n, nthreads))
  {
    var s := Init(n, nthreads);
    assert IsRun(Program(), s, []) && After(Program(), s, []) == s;
    forall t, i: nat | Reachable(n, nthreads, t) && Program().enabled(t, i)
      ensures Reachable(n, nthreads, Program().step(t, i))
    {
      var sched :| IsRun(Program(), s, sched) && After(Program(), s, sched) == t;
      RunExtend(Program(), s, sched, i);
    }
  }

  /** Started on `n >= 1` tickets with T threads, the least value the counter ever takes is exactly minus the
      binomial coefficient of n + T - 2 over T - 2, and 0 with one thread. */
  lemma LowestExactly(n: nat, nthreads: nat)
    requires 1 <= n && 1 <= nthreads
    ensures exists t :: Reachable(n, nthreads, t) && t.n == 0 - Choose(n, nthreads - 2)
    ensures forall t :: Reachable(n, nthreads, t) ==> t.n >= 0 - Choose(n, nthreads - 2)
  {
    ReachableIsClosed(n, nthreads);
    var low := LowestReached(t => Reachable(n, nthreads, t), n, nthreads);
    assert Reachable(n, nthreads, low);
    forall t | Reachable(n, nthreads, t) ensures t.n >= 0 - Choose(n, nthreads - 2) {
      var sched :| IsRun(Program(), Init(n, nthreads), sched) && After(Program(), Init(n, nthreads), sched) == t;
      OversellingIsBounded(n, nthreads, sched);
    }
  }

  // ---------- What is printed in the end ----------

  /** All threads but `c` can be run to their end. */
  lemma {:induction false} FinishOthers(reached: State -> bool, top: nat, s: State, c: nat) returns (t: State)
    requires Closed(reached) && reached(s) && Below(top, s) && c < |s.threads|
    ensures reached(t) && |t.threads| == |s.threads| && t.threads[c] == s.threads[c]
    ensures forall j :: 0 <= j < |t.threads| && j != c ==> t.threads[j] == Done
    decreases Measure(top, s)
  {
    if i: nat :| i < |s.threads| && i != c && s.threads[i] != Done {
      StepLowersMeasure(top, s, i);
      StepStaysBelow(top, s, i);
      DigitsNonNegative(0, top, Step(s, i));
      var u := Move(reached, s, i);
      t := FinishOthers(reached, top, u, c);
    } else {
      t := s;
    }
  }

  /** A value that is not positive and about to be stored can be what is left in the end. */
  lemma CarriedCanBeLast(reached: State -> bool, top: nat, s: State, c: nat) returns (t: State)
    requires Closed(reached) && reached(s) && Below(top, s)
    requires c < |s.threads| && s.threads[c].Storing? && s.threads[c].r <= 1
    ensures reached(t) && Stuck(Program(), t) && t.n == s.threads[c].r - 1
  {
    t := FinishOthers(reached, top, s, c);
    t := Move(reached, t, c);
    t := Move(reached, t, c);
    assert forall i: nat :: !Program().enabled(t, i);
  }

  /** Every value from the lowest to 0 is left by some finished run. */
  lemma EachCanBeLast(reached: State -> bool, n: nat, nthreads: nat, x: int) returns (t: State)
    requires 1 <= n && 1 <= nthreads && Closed(reached) && reached(Init(n, nthreads))
    requires forall s :: reached(s) ==> Below(n, s)
    requires 0 - Choose(n, nthreads - 2) <= x <= 0
    ensures reached(t) && Stuck(Program(), t) && t.n == x
  {
    var low := LowestReached(reached, n, nthreads);
    assert Carried(reached, x);
    var s, c: nat :| reached(s) && c < |s.threads| && s.threads[c] == Storing(x + 1);
    t := CarriedCanBeLast(reached, n, s, c);
  }

  lemma ReachableStaysBelow(n: int, nthreads: nat, t: State)
    requires Reachable(n, nthreads, t)
    ensures Below(LevelOf(n), t)
  {
    var sched :| IsRun(Program(), Init(n, nthreads), sched) && After(Program(), Init(n, nthreads), sched) == t;
    RunStaysBelow(n, nthreads, sched);
  }

  /** `main` can print `x`. */
  ghost predicate CanPrint(n: int, nthreads: nat, x: int) {
    exists t :: Reachable(n, nthreads, t) && Stuck(Program(), t) && t.n == x
  }

  lemma PrintedIsInRange(n: nat, nthreads: nat, t: State)
    requires 1 <= n && 1 <= nthreads && Reachable(n, nthreads, t) && Stuck(Program(), t)
    ensures 0 - Choose(n, nthreads - 2) <= t.n <= 0
  {
    var sched :| IsRun(Program(), Init(n, nthreads), sched) && After(Program(), Init(n, nthreads), sched) == t;
    StoresAccountForTickets(n, nthreads, sched);
    OversellingIsBounded(n, nthreads, sched);
  }

  /** What `main` can print after all joins, started on `n >= 1` tickets with T threads, is exactly the values from
      minus the binomial coefficient of n + T - 2 over T - 2 up to 0. */
  lemma OutcomesExactly(n: nat, nthreads: nat, x: int)
    requires 1 <= n && 1 <= nthreads
    ensures CanPrint(n, nthreads, x) <==> 0 - Choose(n, nthreads - 2) <= x <= 0
  {
    if t :| Reachable(n, nthreads, t) && Stuck(Program(), t) && t.n == x {
      PrintedIsInRange(n, nthreads, t);
    }
    if 0 - Choose(n, nthreads - 2) <= x <= 0 {
      ReachableIsClosed(n, nthreads);
      forall s | Reachable(n, nthreads, s) ensures Below(n, s) {
        ReachableStaysBelow(n, nthreads, s);
      }
      var t := EachCanBeLast(t => Reachable(n, nthreads, t), n, nthreads, x);
    }
  }

  // ---------- Five threads, 32-bit counter ----------

  const INT_MIN: int := -0x8000_0000
  const INT_MAX: int := 0x7FFF_FFFF

  lemma ProductOfThreeMonotone(a: nat, b: nat, c: nat, x: nat, y: nat, z: nat)
    requires a <= x && b <= y && c <= z
    ensures a * b * c <= x * y * z
  {
    MulMonotone(a, x, b);
    MulMonotone(b, y, x);
    MulMonotone(a * b, x * y, c);
    MulMonotone(c, z, x * y);
  }

  /** With the program's five threads, the counter stays within a 32-bit `int` in every run if and only if it
      starts on at most 2342 tickets. */
  lemma FitsInt32Exactly(n: nat)
    requires 1 <= n
    ensures (forall t :: Reachable(n, 5, t) ==> INT_MIN <= t.n <= INT_MAX) <==> n <= 2342
  {
    LowestExactly(n, 5);
    ChooseThree(n);
    FiveThreadLimit(n, Choose(n, 3));
    forall t | Reachable(n, 5, t) ensures t.n <= n {
      ReachableStaysBelow(n, 5, t);
    }
  }

  lemma FiveThreadLimit(n: nat, drop: nat)
    requires 6 * drop == (n + 1) * (n + 2) * (n + 3)
    ensures 0 - drop >= INT_MIN <==> n <= 2342
  {
    if n <= 2342 {
      ProductOfThreeMonotone(n + 1, n + 2, n + 3, 2343, 2344, 2345);
    } else {
      ProductOfThreeMonotone(2344, 2345, 2346, n + 1, n + 2, n + 3);
    }
  }
}
