/** The state of a `pthread_mutex_t`: free, or locked by one thread. */
module Mutexes {
  datatype Owner = Free | HeldBy(thread: nat)
}
