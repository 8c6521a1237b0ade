/** Runs of threads whose atomic steps interleave. */
module Interleaving {

  /** One step of a run. */
  datatype Scheduled<A> = Scheduled(thread: nat, action: A)
}
