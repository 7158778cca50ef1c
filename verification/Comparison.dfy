/** The two ticket sales side by side: `race.c` without a lock, `mutex.c` with one. */
module Comparison {
  import opened Runs
  import Race
  import Tickets

  /** Started on the same `n >= 0` tickets, a finished unlocked sale has made at least as many stores as any
      finished locked one, and leaves the counter no higher. */
  lemma UnlockedNeverSellsLess(n: nat, nthreads: nat, unlocked: seq<nat>, locked: seq<nat>)
    requires 1 <= nthreads
    requires IsRun(Race.Program(), Race.Init(n, nthreads), unlocked)
    requires IsRun(Tickets.Program(), Tickets.Init(n, nthreads), locked)
    requires Stuck(Race.Program(), After(Race.Program(), Race.Init(n, nthreads), unlocked))
    requires Stuck(Tickets.Program(), After(Tickets.Program(), Tickets.Init(n, nthreads), locked))
    ensures Race.Stores(Race.Init(n, nthreads), unlocked) >= Tickets.Stores(Tickets.Init(n, nthreads), locked) == n
    ensures After(Race.Program(), Race.Init(n, nthreads), unlocked).n
         <= After(Tickets.Program(), Tickets.Init(n, nthreads), locked).n == 0
  {
    Race.StoresAccountForTickets(n, nthreads, unlocked);
    Tickets.SaleIsExact(n, nthreads, locked);
  }
}
