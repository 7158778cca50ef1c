# Verified models of the multithreading programs and of crc8

This project models the concurrent programs in `10_multithreading` and the CRC-8 program in `05_filesystem_src`, and
proves what they do under every schedule, for every input, and for every number of threads, forks, accounts, tickets
and bytes. `dafny verify dfyconfig.toml` checks all of it.

## The programs with threads

Every thread of these programs is deterministic, so a program is a `Machine` (`Runs.dfy`): a predicate saying whether
a thread can move, and a function giving the state after its next atomic step. A schedule is the sequence of the
threads that move. A statement about all schedules is a statement about all executions, and nothing is assumed about
fairness or about the order in which a mutex or semaphore serves its waiters. Memory is sequentially consistent. Tests,
loads and stores of shared integers are separate steps, each store through a private register, so that the locks are
really needed in the proofs. A lock or semaphore call that would block is a step that is not enabled.

Beside each machine stands a class with the program's arrays and shared variables and one method for each atomic
step. Each method's contract says what happens to the fields, when a blocking call returns included, and that this is
the machine's step; a ghost `trace` ties the memory to a run, so that every theorem about runs is one about the objects.

- `ForkRings.dfy` is the ring of forks that the two dining programs share. `PlainPhilosophers.dfy` is
  `dining_philosophers.c`, where the only deadlock is the one in which everybody holds the left fork.
- `Philosophers.dfy` is `dining_philosophers_sem.c`, and `dining_philosophers_sem_macosx.c`, whose dispatch semaphore
  behaves alike. It is proved to refine the plain protocol, so the fork invariants are inherited rather than proved
  again. The start value of the semaphore is a parameter `k` (`nforks - 1` in the programs): no run deadlocks exactly
  when 1 <= k < n, and from n on the semaphore implements every run of the plain protocol, deadlock included.
  `Seatings.dfy` proves that nobody is kept waiting without need: the philosophers at the table at the same time can be
  any k of them, and those eating at the same time any k of them without ring neighbours.
- `Race.dfy` is `race.c`. A stale store can raise the counter again, so termination rests on a lexicographic measure,
  one digit in base 3T + 1 for each counter value. Exact sale is shown to hold if and only if there is one thread.
  `RunLengths.dfy` finds how long the sale can take: a finished run makes k stores for any k from n to one less than
  the binomial coefficient of n + T over T, and no other k, in exactly 3k + T steps. `Oversell.dfy` finds how far the
  sale can go wrong: what `main` prints is any value from minus the binomial coefficient of n + T - 2 over T - 2 up to
  0, and no other. With the program's five threads a 32-bit counter can overflow exactly when it starts on more than
  2342 tickets. `Binomials.dfy` has the coefficients.
- `Tickets.dfy` is `mutex.c`, with the exact number of steps, critical sections and decrements of every complete run.
  Started on a negative number the program never ends. `Comparison.dfy` sets the two sales side by side.
- `Transfers.dfy` is `exec_transaction` of `ordered_lock.c` and of `deadlock.c`, which differ only in lock order.
  `Balances.dfy` follows the money, `Deadlocks.dfy` decides when work can still be finished, `Jamming.dfy` decides from
  the scripts alone whether any run can jam, for any number of accounts and workers, and `BankProgram.dfy` is the
  program with its arrays. The random choices of a worker are a fixed list of transfers, which is arbitrary.

## CRC-8

`Polynomials.dfy` has polynomials over GF(2) as finite sets of exponents, with the generator x^8 + x^5 + x^4 + 1,
division and its unique remainder. `Crc.dfy` proves that the loops of `crc8`, byte truncation included, compute that
remainder; `ErrorDetection.dfy` derives from it what errors are detected, and `FileCrc.dfy` is `filecrc8`.

The comment above `crc8` gives the maximal length as "15 bytes(127 bits)". Fifteen bytes are 120 bits. As a limit on
the block that is checksummed, 15 bytes is exactly right (`MaxLenExactly`). If the block is sent with its CRC byte, 15
bytes of data make 128 bits, one more than 127, and some two-bit error passes the check; there the exact limit is 14
(`SentSafelyExactly`). The list of errors in the comment is exact too: four wrong bits are missed in every block of two
bytes or more, bursts are caught up to 8 bits, and the errors caught at every length are exactly those in an odd number
of bits.

## Model

| member | source | states |
|---|---|---|
| ForkRings.ForkRing.constructor | 10_multithreading/dining_philosophers.c:29-40 | `main` lays the forks in a ring, right fork (i + 1) % nforks, all free |
| ForkRings.ForkRing.TakeLeft | 10_multithreading/dining_philosophers_sem.c:78-82 | the lock call on the left fork returns exactly when the fork is free, and then it alone is taken |
| ForkRings.ForkRing.TakeRight | 10_multithreading/dining_philosophers_sem.c:84-88 | the same for the right fork |
| ForkRings.ForkRing.PutLeft | 10_multithreading/dining_philosophers_sem.c:90-93 | frees the left fork and no other |
| ForkRings.ForkRing.PutRight | 10_multithreading/dining_philosophers_sem.c:95-98 | frees the right fork and no other |
| PlainPhilosophers.Table.constructor | 10_multithreading/dining_philosophers.c:29-47 | every fork starts free and every philosopher at its left fork |
| PlainPhilosophers.Table.TakeLeftFork | 10_multithreading/dining_philosophers.c:64-68 | succeeds exactly when the left fork is free, then it is held by this philosopher; otherwise nothing changes |
| PlainPhilosophers.Table.TakeRightFork | 10_multithreading/dining_philosophers.c:70-74 | the same for the right fork |
| PlainPhilosophers.Table.Eat | 10_multithreading/dining_philosophers.c:59-62 | eating leaves the forks as they are |
| PlainPhilosophers.Table.PutRightFork | 10_multithreading/dining_philosophers.c:81-84 | frees the right fork, keeping the left |
| PlainPhilosophers.Table.PutLeftFork | 10_multithreading/dining_philosophers.c:76-79 | frees the left fork and starts over |
| PlainPhilosophers.Table.Advance | 10_multithreading/dining_philosophers.c:87-97 | each pass of the loop body is one step of the protocol, so the memory is always that of a run from the initial state |
| PlainPhilosophers.Table.IsDeadlocked | 10_multithreading/dining_philosophers.c:87-97 | whatever has run so far, the program hangs exactly when every thread is at its second lock call |
| PlainPhilosophers.ForksAlwaysConsistent | 10_multithreading/dining_philosophers.c:64-84 | in every reachable state a fork is held by a philosopher exactly when that philosopher's position in the loop says so |
| PlainPhilosophers.RingClosure | 10_multithreading/dining_philosophers.c:35-40 | if nobody past its left fork can move, one philosopher waiting for a right fork forces everybody to hold a left and wait for a right fork |
| PlainPhilosophers.StuckExactlyWhenAllHoldLeft | 10_multithreading/dining_philosophers.c:87-97 | a reachable state is a deadlock if and only if every philosopher holds just its left fork, for any number of them |
| PlainPhilosophers.DeadlockReachable | 10_multithreading/dining_philosophers.c:87-97 | for every number of philosophers that deadlock is reachable |
| Philosophers.Table.constructor | 10_multithreading/dining_philosophers_sem.c:31-56 | `main` starts the semaphore at nforks - 1, frees the forks, lays the ring and starts everybody outside |
| Philosophers.Table.SemWait | 10_multithreading/dining_philosophers_sem.c:104-107 | returns exactly when the semaphore is positive and takes one from it; otherwise nothing changes |
| Philosophers.Table.TakeLeftFork | 10_multithreading/dining_philosophers_sem.c:78-82 | returns exactly when the left fork is free, which then this philosopher holds; otherwise nothing changes |
| Philosophers.Table.TakeRightFork | 10_multithreading/dining_philosophers_sem.c:84-88 | the same for the right fork |
| Philosophers.Table.Eat | 10_multithreading/dining_philosophers_sem.c:73-76 | leaves forks and semaphore as they are |
| Philosophers.Table.PutRightFork | 10_multithreading/dining_philosophers_sem.c:95-98 | frees the right fork |
| Philosophers.Table.PutLeftFork | 10_multithreading/dining_philosophers_sem.c:90-93 | frees the left fork |
| Philosophers.Table.SemPost | 10_multithreading/dining_philosophers_sem.c:113-116 | gives the place back to the semaphore |
| Philosophers.Table.Advance | 10_multithreading/dining_philosophers_sem.c:101-119 | each pass of the loop body is one step of the protocol, so the memory is always that of a run from the initial state |
| Philosophers.Table.Drain | 10_multithreading/dining_philosophers_sem.c:101-119 | letting only admitted philosophers move, in any order, brings the memory back to its initial state within 6n steps |
| Philosophers.Table.LetEat | 10_multithreading/dining_philosophers_sem.c:108-110 | with two or more philosophers, from whatever memory has been reached, each can be let eat within 6n + 3 steps |
| Philosophers.RunProjects | 10_multithreading/dining_philosophers_sem.c:101-119 | every run, with its semaphore steps left out, is a run of the plain protocol ending in the same fork state |
| Philosophers.SemaphoreCountsAdmissions | 10_multithreading/dining_philosophers_sem.c:33-116 | in every reachable state semaphore value plus admitted philosophers is the start value |
| Philosophers.NeighboursNeverEatTogether | 10_multithreading/dining_philosophers_sem.c:44-49 | ring neighbours never eat at the same time |
| Philosophers.ForksHeldWhenUsed | 10_multithreading/dining_philosophers_sem.c:78-98 | an eater holds both forks, only the owner unlocks a fork, and whoever is not at the table holds none |
| Philosophers.AdmittedCanStep | 10_multithreading/dining_philosophers_sem.c:101-119 | with a start value below n, whenever somebody is past `sem_wait` one of the admitted can move |
| Philosophers.DeadlockFreeExactly | 10_multithreading/dining_philosophers_sem.c:33-36 | for every n, also a lone philosopher whose two forks are one: no run ends in deadlock if and only if the semaphore starts between 1 and n - 1 |
| Philosophers.ProjectionAvoidsDeadlock | 10_multithreading/dining_philosophers_sem_macosx.c:94-106 | with a start value below n, the plain run that a run implements never visits the plain protocol's deadlock |
| Philosophers.EveryPlainRunIsImplemented | 10_multithreading/dining_philosophers_sem.c:33-36 | with a start value of n or more every plain run, its deadlock included, is implemented by some run |
| Philosophers.ClosingRunsEndInInit | 10_multithreading/dining_philosophers_sem.c:101-119 | from every reachable state a run without further `sem_wait` has at most 6n steps and is final exactly when it has taken the exact backlog of steps, which is exactly when the state is the initial one |
| Philosophers.EveryoneCanStillEat | 10_multithreading/dining_philosophers_sem.c:108-110 | from every reachable state each philosopher can still be brought to eat |
| Philosophers.EverySixNStepsSomebodyEats | 10_multithreading/dining_philosophers_sem.c:84-88 | no livelock: any 6n + 1 consecutive steps contain one that takes a right fork |
| Seatings.CannotMoveExactly | 10_multithreading/dining_philosophers_sem.c:101-119 | in every reachable state a philosopher cannot move exactly when it waits at a semaphore of 0 or for a held fork, which is when k are at the table, the left neighbour has both forks, or the right neighbour its left fork |
| Seatings.AtTableExactly | 10_multithreading/dining_philosophers_sem.c:33-107 | the philosophers past `sem_wait` can be any set of at most k, and no other |
| Seatings.EatTogetherExactly | 10_multithreading/dining_philosophers_sem.c:84-88 | the philosophers eating at the same time can be any set of at most k without ring neighbours, and no other |
| Seatings.PlainEatTogetherExactly | 10_multithreading/dining_philosophers.c:70-74 | without the semaphore it is any set without ring neighbours, and no other |
| PlainPhilosophers.CannotMoveExactly | 10_multithreading/dining_philosophers.c:64-74 | in every reachable state a philosopher cannot move exactly when the fork it wants is held, which is when the left neighbour has both forks or the right neighbour its left fork |
| Race.Sale.constructor | 10_multithreading/race.c:25-35 | the counter starts at the given number and every thread at the loop test |
| Race.Sale.Test | 10_multithreading/race.c:13 | the thread goes on exactly when the counter it reads is positive, else it ends |
| Race.Sale.Load | 10_multithreading/race.c:15 | the first half of the decrement: the counter goes to a register, the counter is unchanged |
| Race.Sale.Store | 10_multithreading/race.c:15 | the second half: the register less one overwrites the counter, whatever it holds by now |
| Race.Sale.Advance | 10_multithreading/race.c:11-18 | each step keeps the memory that of a run, lowers the termination measure, and restarts no finished thread |
| Race.Sale.Join | 10_multithreading/race.c:37-44 | a join ends under every scheduler with its thread done |
| Race.Sale.JoinAll | 10_multithreading/race.c:37-46 | `main` ends under every scheduler, with a counter that is not positive if it started positive and unchanged otherwise |
| Race.LastMoveDecides | 10_multithreading/race.c:13-15 | over every run, where a thread stands is what it found at its last move: a register is the counter as it was at the load, and the thread is past the test or done as the counter was positive or not at the test |
| Race.LastStoreDecides | 10_multithreading/race.c:15 | over every run, the counter is what the last store has written, its register less one, or the start value |
| Race.StoreLowersSomeLevel | 10_multithreading/race.c:15 | a store, even one that raises the counter, lowers one level of the measure and raises no higher one |
| Race.StepLowersMeasure | 10_multithreading/race.c:11-18 | every step of every thread strictly lowers the measure |
| RunLengths.EveryRunIsFinite | 10_multithreading/race.c:11-18 | T threads on n tickets take at most 3 C(n + T, T) + T - 3 steps, whatever the schedule; on n <= 0 at most T |
| RunLengths.StoreSpends | 10_multithreading/race.c:15 | a store gives up more of the stores there can still be than it reopens by raising the counter |
| RunLengths.StoresExactly | 10_multithreading/race.c:11-18 | finished runs make exactly the numbers of stores from n to C(n + T, T) - 1, each of them possible |
| RunLengths.RunLengthsExactly | 10_multithreading/race.c:11-18 | finished runs have exactly the lengths 3k + T for these numbers k of stores; with one thread that is 3n + 1 always |
| Binomials.ChooseIsBinomial | 10_multithreading/race.c:9-18 | the coefficients in these bounds, defined by Pascal's rule, are the quotients of factorials |
| Race.StoresAccountForTickets | 10_multithreading/race.c:11-18 | the counter is always at least n less the number of stores; a finished run ends at or below 0 after at least n stores |
| Race.NothingToSell | 10_multithreading/race.c:13 | started at or below 0 the counter never changes |
| Race.ExactSaleOnlyAlone | 10_multithreading/race.c:9-18 | for n >= 1 every finished run ends at exactly 0 if and only if one thread runs |
| Race.OversellingRun | 10_multithreading/race.c:11-18 | with two or more threads some complete run ends at -1 |
| Oversell.LateLoadPays | 10_multithreading/race.c:13-15 | a thread past the test that loads a counter at or below 0 gives up level 1, which pays for the one decrement it makes |
| Oversell.RaisingStoreFits | 10_multithreading/race.c:15 | a stale store that raises the counter gives up a level that outweighs everything it reopens below |
| Oversell.OversellingIsBounded | 10_multithreading/race.c:11-18 | in no run is the counter below minus the binomial coefficient of n + T - 2 over T - 2 |
| Oversell.LowestReached | 10_multithreading/race.c:11-18 | some run takes it exactly there |
| Oversell.LowestExactly | 10_multithreading/race.c:9-18 | for n >= 1 and T >= 1 that is exactly the least value the counter ever takes |
| Oversell.OutcomesExactly | 10_multithreading/race.c:37-46 | for n >= 1 and T >= 1 what `main` prints is any value from there up to 0, and no other |
| Oversell.FitsInt32Exactly | 10_multithreading/race.c:9-25 | with five threads the counter stays in the range of a 32-bit `int` in every run if and only if n <= 2342 |
| Tickets.Sale.constructor | 10_multithreading/mutex.c:46-54 | the counter starts at the given number, the mutex is free, every thread starts at its lock call |
| Tickets.Sale.Lock | 10_multithreading/mutex.c:28 | succeeds exactly when the mutex is free |
| Tickets.Sale.Test | 10_multithreading/mutex.c:29 | chooses the decrement exactly when the counter is positive |
| Tickets.Sale.Load | 10_multithreading/mutex.c:30 | the counter goes to a register |
| Tickets.Sale.Store | 10_multithreading/mutex.c:30 | the register less one goes to the counter |
| Tickets.Sale.Check | 10_multithreading/mutex.c:32 | decides to stop exactly when the counter is 0 |
| Tickets.Sale.Unlock | 10_multithreading/mutex.c:33-36 | frees the mutex; the thread ends or starts over as decided |
| Tickets.Sale.Advance | 10_multithreading/mutex.c:24-39 | each step keeps the memory that of a run |
| Tickets.Sale.Join | 10_multithreading/mutex.c:56-59 | a join waits until its thread is done, under every scheduler, for as many steps as the scheduler has patience |
| Tickets.Sale.JoinAll | 10_multithreading/mutex.c:56-62 | started at 0 or above, the joins return under every scheduler, after exactly the total number of steps, with counter 0, mutex free and as many decrements as tickets; started below 0 they never return |
| Tickets.CannotMoveExactly | 10_multithreading/mutex.c:28 | in every reachable state a thread that has not ended cannot move exactly when it is at its lock call and the mutex is held, which is when some thread is inside |
| Tickets.StepKeepsExclusion | 10_multithreading/mutex.c:28-36 | only the owner of the mutex is inside, its register is never stale, and it stops exactly at 0 |
| Tickets.StepAccounts | 10_multithreading/mutex.c:28-36 | every step uses up exactly one of the steps left, every lock one section, every store one ticket |
| Tickets.SaleIsExact | 10_multithreading/mutex.c:24-39 | for n >= 0 every run stops after exactly 6n + 4(T - 1) steps (4T if n = 0) and not before, with counter 0, all threads done, mutex free, n decrements and max(n, 1) + T - 1 critical sections |
| Tickets.NegativeSaleNeverEnds | 10_multithreading/mutex.c:29-36 | for n < 0 the counter never changes, no thread ever ends, and some thread can always move |
| Comparison.UnlockedNeverSellsLess | 10_multithreading/race.c:11-18 | corollary of the two accounts: on the same n >= 0 tickets a finished unlocked sale makes at least the n stores of a locked one and ends no higher |
| BankProgram.SwapMtx | 10_multithreading/ordered_lock.c:121-125 | exchanges the two pointers, also when both arguments are the same variable |
| BankProgram.ChooseOrder | 10_multithreading/ordered_lock.c:104-109 | the two mutexes of the transfer, ascending in address order, `from` first in caller order |
| BankProgram.Deposits.constructor | 10_multithreading/ordered_lock.c:36-48 | every deposit starts at the initial balance with its mutex free, every worker at its first transfer |
| BankProgram.Deposits.SumBalances | 10_multithreading/ordered_lock.c:92-98 | the sum of the first `ndeps` balances |
| BankProgram.Deposits.LockFirst | 10_multithreading/ordered_lock.c:110 | succeeds exactly when the first mutex is free |
| BankProgram.Deposits.LockSecond | 10_multithreading/ordered_lock.c:112 | succeeds exactly when the second mutex is free |
| BankProgram.Deposits.Debit | 10_multithreading/ordered_lock.c:114 | a load and then a store of the `from` balance less the amount |
| BankProgram.Deposits.Credit | 10_multithreading/ordered_lock.c:115 | a load and then a store of the `to` balance plus the amount |
| BankProgram.Deposits.Unlock | 10_multithreading/deadlock.c:109-110 | frees the second mutex, then the first, then goes to the next transfer |
| BankProgram.Deposits.Advance | 10_multithreading/ordered_lock.c:60-70 | each step of a worker keeps the memory that of a run |
| BankProgram.Deposits.Join | 10_multithreading/deadlock.c:48-50 | under every scheduler a join either returns with its worker done or waits in a state where nobody can move |
| BankProgram.Deposits.JoinAll | 10_multithreading/ordered_lock.c:50-52 | under every scheduler either all joins return, with all mutexes free, every balance settled and the total unchanged, or the program hangs in a wait-for cycle; it always returns if the scripts contain no ring, and so in address order |
| Transfers.StepKeepsInv | 10_multithreading/ordered_lock.c:101-119 | in either order a mutex is held exactly by the worker whose position says so, and a loaded balance stays current until it is stored |
| Balances.NoUpdateIsLost | 10_multithreading/ordered_lock.c:114-115 | in every reachable state each balance is the initial one plus the transfers done so far, half-finished ones included |
| Balances.MoneyIsConserved | 10_multithreading/ordered_lock.c:92-98 | in every reachable state balances plus money debited and not yet credited make accounts times the initial balance |
| Balances.BalancesStayInRange | 10_multithreading/ordered_lock.c:64-67 | a balance never strays from its initial value by more than 9 for each transfer begun, of which there are no more than the scripts hold |
| Balances.ProgramBalancesStayInRange | 10_multithreading/ordered_lock.c:10-13 | instance of `BalancesStayInRange`: with the programs' constants every balance stays between -1700 and 1900 |
| Balances.FinishedBank | 10_multithreading/ordered_lock.c:60-70 | in either order no run is longer than eight steps for each transfer; a run of that length, and no shorter one, has finished every worker, freed every mutex and settled every balance to initial + credits - debits |
| Deadlocks.AddressOrderNeverStuck | 10_multithreading/ordered_lock.c:101-125 | in address order a reachable state is stuck if and only if all workers are done, and no wait-for cycle ever forms |
| Deadlocks.AddressOrderAlwaysSettles | 10_multithreading/ordered_lock.c:60-70 | in address order every maximal run has exactly eight steps for each transfer and settles every balance |
| Deadlocks.StuckHasCycle | 10_multithreading/deadlock.c:99-111 | a reachable state is stuck exactly when every unfinished worker waits for a held mutex, and if any is unfinished there is a cycle of two or more different workers each waiting for the next |
| Deadlocks.CanFinishExactlyWithoutCycle | 10_multithreading/deadlock.c:99-111 | in either order a reachable state can still be brought to an end if and only if it contains no wait-for cycle |
| Deadlocks.DeadSetIsForever | 10_multithreading/deadlock.c:99-111 | workers that all wait for one another stay so in every continuation |
| Jamming.JamsExactly | 10_multithreading/deadlock.c:58-111 | for any number of accounts and workers and in either order, some run stops with work left if and only if the scripts contain a ring: transfers of different workers with different first accounts, each taking second the account the next takes first |
| Jamming.RingIsShort | 10_multithreading/deadlock.c:58-68 | a ring has at most as many transfers as there are accounts, and as there are workers |
| Jamming.AddressOrderHasNoRing | 10_multithreading/ordered_lock.c:104-109 | in address order no scripts contain a ring |
| Jamming.TwoAccountJamIsCrossed | 10_multithreading/deadlock.c:99-111 | with two accounts a jam is two workers each holding the mutex the other wants, working on opposite transfers |
| Jamming.TwoAccountsJamExactly | 10_multithreading/deadlock.c:58-68 | corollary for the program's two accounts: with two accounts a jam is reachable if and only if two different workers have transfers in opposite directions |
| Crc.ComputeCrc8 | 05_filesystem_src/crc8.c:59-72 | the nested loops with truncation to a byte compute the CRC of the first `len` bytes |
| Crc.TruncationIsBitStep | 05_filesystem_src/crc8.c:67-68 | shifting in a wider type and truncating on assignment is the shift of a byte |
| Crc.CrcIsRemainder | 05_filesystem_src/crc8.c:49-72 | for every block of n bytes the result is the remainder of init * x^(8n) + data * x^8 on division by x^8 + x^5 + x^4 + 1 |
| Crc.RemainderIsCrc | 05_filesystem_src/crc8.c:49-72 | and it is the only byte that is |
| Crc.InDataPoly | 05_filesystem_src/crc8.c:65 | bit j of byte i of n is the coefficient at x^(8(n-1-i)+j), and there are no others |
| Crc.CrcLinear | 05_filesystem_src/crc8.c:59-72 | the CRC of a bitwise sum of blocks and start values is the sum of the CRCs |
| Crc.CrcBijective | 05_filesystem_src/crc8.c:59-72 | for fixed data the CRC is a bijection of the start value |
| Crc.CrcConcat | 05_filesystem_src/crc8.c:41 | the CRC of two blocks in sequence is that of their concatenation |
| Crc.CheckValue | 05_filesystem_src/crc8.c:55 | instance: the CRC of "123456789" is 0xF7 |
| ErrorDetection.UndetectedExactlyWhenDivisible | 05_filesystem_src/crc8.c:49-72 | two blocks of one length have the same CRC if and only if the generator divides their difference |
| ErrorDetection.DifferingSize | 05_filesystem_src/crc8.c:56-57 | the difference of two blocks has as many terms as the blocks have differing bits, counted byte by byte |
| ErrorDetection.OddErrorsDetected | 05_filesystem_src/crc8.c:56-57 | an odd number of differing bits is always detected, at any length |
| ErrorDetection.BurstsDetected | 05_filesystem_src/crc8.c:49-58 | differences within 8 consecutive bits are always detected, at any length |
| ErrorDetection.PeriodExactly | 05_filesystem_src/crc8.c:51 | x has order exactly 127 modulo the generator |
| ErrorDetection.TwoBitErrorsExactly | 05_filesystem_src/crc8.c:56-57 | two differing bits d places apart go undetected if and only if 127 divides d |
| ErrorDetection.HeaderClaim | 05_filesystem_src/crc8.c:56-57 | on blocks of at most 15 bytes one, two or three differing bits are always detected |
| ErrorDetection.LongBlocksMissAnError | 05_filesystem_src/crc8.c:56 | every block of 16 bytes or more has an undetected two-bit error |
| ErrorDetection.WithErrors | 05_filesystem_src/crc8.c:65 | every set of bits of a block is the difference to some other block, with as many bit errors |
| ErrorDetection.FourBitErrorMissed | 05_filesystem_src/crc8.c:56-57 | every block of 2 bytes or more has an undetected four-bit error |
| ErrorDetection.DetectedExactly | 05_filesystem_src/crc8.c:56-57 | of the errors in one to four bits, one and three are always detected, two exactly up to 15 bytes, four exactly within a single byte |
| ErrorDetection.MaxLenExactly | 05_filesystem_src/crc8.c:56 | corollary: all two-bit errors in blocks of n bytes are detected if and only if n <= 15 |
| ErrorDetection.AlwaysDetectedExactly | 05_filesystem_src/crc8.c:57 | all errors in e bits are detected at every length if and only if e is odd |
| ErrorDetection.BurstsExactly | 05_filesystem_src/crc8.c:49-58 | all bursts of a length are detected in blocks of n bytes if and only if they have at most 8 bits or n <= 1 |
| ErrorDetection.ReceivedBlockPassesExactly | 05_filesystem_src/crc8.c:56-57 | a received block passes the check if and only if the generator divides its difference from the block sent with its CRC |
| ErrorDetection.SentLikeLongerBlock | 05_filesystem_src/crc8.c:56-57 | for every number of wrong bits, none passes in n data bytes sent with their CRC if and only if all are detected in blocks of n + 1 bytes |
| ErrorDetection.SentSafelyExactly | 05_filesystem_src/crc8.c:56-57 | counting the CRC byte, one or three wrong bits never pass, two never exactly up to 14 data bytes, four exactly with none |
| ErrorDetection.AlwaysSentSafelyExactly | 05_filesystem_src/crc8.c:57 | in blocks sent with their CRC, errors in e bits never pass at any length if and only if e is odd |
| ErrorDetection.ReceivedBurstsDetected | 05_filesystem_src/crc8.c:49-58 | no burst of up to 8 bits in a block sent with its CRC passes |
| FileCrc.Descriptor.Read | 05_filesystem_src/crc8.c:40 | `read` delivers the next 1 to 256 bytes of the file in order, 0 at its end, or -1 on an error |
| FileCrc.CrcOfNextPiece | 05_filesystem_src/crc8.c:41 | the CRC of what has been read so far grows by the piece read next |
| FileCrc.FileCrc8 | 05_filesystem_src/crc8.c:36-47 | -1 exactly on a read error, otherwise the CRC from 0xFF of every byte of the file from the position of the descriptor to the end, however `read` cuts it |

## Left out

- Race.Sale.JoinAll: the counter is a mathematical integer; with five threads that is exact up to 2342 tickets (`Oversell.FitsInt32Exactly`), and above that some runs overflow in C, which is undefined behaviour and not modelled.
- Race.Sale.Test: the data race is undefined behaviour in C and the hardware may reorder; the model is sequentially consistent.
- BankProgram.Deposits.Debit: the array of `struct deposit` is modelled as one array of balances and one of mutexes, so pointers into a struct are indices.
- Philosophers.Table.constructor: asks for at least one fork, because with none the program would start its semaphore at -1 converted to an unsigned number.
- Transfers.StepKeepsInv: transfers with equal accounts are excluded, since `to` is computed as the other account; a worker would lock the same mutex twice.
- FileCrc.Descriptor.Read: a read error is modelled at the end of what can be read, which may be any part of a file; `open`, `close` and the output are left out.
- Crc.ComputeCrc8: the counter `len` wraps around once after the last byte in C, which nothing observes; it is not modelled.
- Thread creation, `usleep`, `printf`, argument parsing, initialisation and destruction of mutexes, and the `exit_on_error` and `perror` paths: library calls are taken to succeed and to block as documented.
- The values of `rand()`: amounts and accounts are arbitrary scripts within the ranges the code computes.
- Starvation of one philosopher or worker: the code fixes no order in which waiters are served, so it does not decide this.
- The other directories (processes, memory, sockets, HTTP, signals, terminals) and the small arithmetic programs: system-call demonstrations, or only easy members.
