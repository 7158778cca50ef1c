/** The ring of forks that both dining-philosophers programs lay out, and the four calls that use it. */
module ForkRings {
  import opened Mutexes

  /** The index of philosopher `i`'s right fork, which is also the number of its right neighbour. */
  function Right(n: nat, i: nat): (r: nat)
    requires i < n
    ensures r < n
  {
    if i + 1 == n then 0 else i + 1
  }

  lemma RightIsModular(n: nat, i: nat)
    requires i < n
    ensures Right(n, i) == (i + 1) % n
  {
  }

  /** The left neighbour of philosopher `i`. */
  function Left(n: nat, i: nat): (l: nat)
    requires i < n
    ensures l < n && Right(n, l) == i
  {
    if i == 0 then n - 1 else i - 1
  }

  /** The mutexes, and for each philosopher which two of them are its left and its right fork. */
  class ForkRing {
    const n: nat
    const fork: array<Owner>
    const leftFork: array<nat>
    const rightFork: array<nat>

    /** Philosopher `i` sits between fork `i` and the next one. */
    ghost predicate Wired()
      reads leftFork, rightFork
    {
      && fork.Length == leftFork.Length == rightFork.Length == n
      && leftFork != rightFork
      && (forall i :: 0 <= i < n ==> leftFork[i] == i && rightFork[i] == Right(n, i))
    }

    /** The part of `main` that initialises the forks and lays the ring. */
    constructor (nforks: nat)
      ensures Wired() && n == nforks && fork[..] == seq(nforks, _ => Free)
      ensures fresh(fork) && fresh(leftFork) && fresh(rightFork)
    {
      n := nforks;
      fork := new Owner[nforks];
      leftFork := new nat[nforks];
      rightFork := new nat[nforks];
      new;
      for i := 0 to n
        invariant forall j :: 0 <= j < i ==> fork[j] == Free
      {
        fork[i] := Free;
      }
      for i := 0 to n
        invariant forall j :: 0 <= j < n ==> fork[j] == Free
        invariant forall j :: 0 <= j < i ==> leftFork[j] == j && rightFork[j] == Right(n, j)
      {
        leftFork[i] := i;
        RightIsModular(n, i);
        rightFork[i] := (i + 1) % n;
      }
    }

    /** `take_left_fork`: `pthread_mutex_lock` returns only if the fork was free; `ok` is false while it blocks. */
    method TakeLeft(i: nat) returns (ok: bool)
      requires Wired() && i < n
      modifies fork
      ensures ok == old(fork[i].Free?)
      ensures fork[..] == if ok then old(fork[..])[i := HeldBy(i)] else old(fork[..])
    {
      ok := fork[leftFork[i]].Free?;
      if ok {
        fork[leftFork[i]] := HeldBy(i);
      }
    }

    /** `take_right_fork`. */
    method TakeRight(i: nat) returns (ok: bool)
      requires Wired() && i < n
      modifies fork
      ensures ok == old(fork[Right(n, i)].Free?)
      ensures fork[..] == if ok then old(fork[..])[Right(n, i) := HeldBy(i)] else old(fork[..])
    {
      ok := fork[rightFork[i]].Free?;
      if ok {
        fork[rightFork[i]] := HeldBy(i);
      }
    }

    /** `put_left_fork`. */
    method PutLeft(i: nat)
      requires Wired() && i < n
      modifies fork
      ensures fork[..] == old(fork[..])[i := Free]
    {
      fork[leftFork[i]] := Free;
    }

    /** `put_right_fork`. */
    method PutRight(i: nat)
      requires Wired() && i < n
      modifies fork
      ensures fork[..] == old(fork[..])[Right(n, i) := Free]
    {
      fork[rightFork[i]] := Free;
    }
  }
}
