/** The patch job queue and the in-flight counter that guards device teardown, under every interleaving of
    Enqueue, the workers and OnDestroyDevice. Each step is one atomic operation or one critical section. */
module WorkerPool {
  import opened Interleaving

  datatype Thread =
    | Idle
    | Counted(device: nat)               // Enqueue: fetch_add done, the job not yet pushed
    | Running(device: nat)               // a worker holds a job
    | Purged(device: nat, removed: nat)  // OnDestroyDevice: jobs erased, fetch_sub to come
    | Waiting(device: nat)               // OnDestroyDevice: in its wait loop

  /** `closed` devices get no further Enqueue: they are out of the device list and not alive. `torn` ones have
      left the wait loop and are being destroyed. */
  datatype State = State(threads: seq<Thread>, queue: seq<nat>, inFlight: map<nat, int>, closed: set<nat>,
                         torn: set<nat>)

  datatype Action =
    | CountJob(device: nat)
    | PushJob
    | TakeJob
    | FinishJob
    | Purge(device: nat)
    | SubtractRemoved
    | Poll

  function InFlight(s: State, d: nat): int { if d in s.inFlight then s.inFlight[d] else 0 }

  function Adjust(s: State, d: nat, delta: int): map<nat, int> { s.inFlight[d := InFlight(s, d) + delta] }

  /** The jobs of a device in the queue. */
  function Queued(queue: seq<nat>, d: nat): nat {
    if queue == [] then 0 else (if queue[0] == d then 1 else 0) + Queued(queue[1..], d)
  }

  /** std::erase_if on the queue. */
  function Without(queue: seq<nat>, d: nat): seq<nat> {
    if queue == [] then [] else (if queue[0] == d then [] else [queue[0]]) + Without(queue[1..], d)
  }

  predicate Enabled(s: State, i: nat, a: Action) {
    && i < |s.threads|
    && match a
       case CountJob(d) => s.threads[i].Idle? && d !in s.closed
       case PushJob => s.threads[i].Counted?
       case TakeJob => s.threads[i].Idle? && s.queue != []
       case FinishJob => s.threads[i].Running?
       case Purge(d) => s.threads[i].Idle?
       case SubtractRemoved => s.threads[i].Purged?
       case Poll => s.threads[i].Waiting?
  }

  function Step(s: State, i: nat, a: Action): State
    requires Enabled(s, i, a)
  {
    match a
    case CountJob(d) => s.(threads := s.threads[i := Counted(d)], inFlight := Adjust(s, d, 1))
    case PushJob => s.(threads := s.threads[i := Idle], queue := s.queue + [s.threads[i].device])
    case TakeJob => s.(threads := s.threads[i := Running(s.queue[0])], queue := s.queue[1..])
    case FinishJob => s.(threads := s.threads[i := Idle], inFlight := Adjust(s, s.threads[i].device, -1))
    case Purge(d) =>
      s.(threads := s.threads[i := Purged(d, Queued(s.queue, d))], queue := Without(s.queue, d),
         closed := s.closed + {d})
    case SubtractRemoved =>
      s.(threads := s.threads[i := Waiting(s.threads[i].device)],
         inFlight := Adjust(s, s.threads[i].device, 0 - s.threads[i].removed))
    case Poll =>
      if InFlight(s, s.threads[i].device) != 0 then s
      else s.(threads := s.threads[i := Idle], torn := s.torn + {s.threads[i].device})
  }

  // ---------------------------------------------------------------- accounting

  /** The jobs of a device that a thread accounts for. */
  function Holds(t: Thread, d: nat): nat {
    match t
    case Counted(e) => if d == e then 1 else 0
    case Running(e) => if d == e then 1 else 0
    case Purged(e, removed) => if d == e then removed else 0
    case _ => 0
  }

  function Held(threads: seq<Thread>, d: nat): nat {
    if threads == [] then 0 else Held(threads[..|threads| - 1], d) + Holds(threads[|threads| - 1], d)
  }

  ghost predicate Accounted(s: State) {
    && (forall d: nat :: InFlight(s, d) == Queued(s.queue, d) + Held(s.threads, d))
    && (forall d: nat :: d in s.torn ==> d in s.closed && InFlight(s, d) == 0)
    && (forall t <- s.threads :: (t.Purged? || t.Waiting?) ==> t.device in s.closed)
  }

  lemma {:induction false} HeldUpdate(threads: seq<Thread>, i: nat, t: Thread, d: nat)
    requires i < |threads|
    ensures Held(threads[i := t], d) == Held(threads, d) - Holds(threads[i], d) + Holds(t, d)
  {
    hide Holds;
    var n := |threads| - 1;
    var updated := threads[i := t];
    if i < n {
      assert updated[..n] == threads[..n][i := t];
      HeldUpdate(threads[..n], i, t, d);
    } else {
      assert updated[..n] == threads[..n];
    }
  }

  lemma {:induction false} HeldAtLeast(threads: seq<Thread>, i: nat, d: nat)
    requires i < |threads|
    ensures Held(threads, d) >= Holds(threads[i], d)
  {
    hide Holds;
    if i < |threads| - 1 { HeldAtLeast(threads[..|threads| - 1], i, d); }
  }

  lemma {:induction false} QueuedAppend(queue: seq<nat>, e: nat, d: nat)
    ensures Queued(queue + [e], d) == Queued(queue, d) + if e == d then 1 else 0
  {
    if queue == [] {
      assert queue + [e] == [e];
    } else {
      assert (queue + [e])[1..] == queue[1..] + [e];
      QueuedAppend(queue[1..], e, d);
    }
  }

  lemma {:induction false} QueuedWithout(queue: seq<nat>, e: nat, d: nat)
    ensures Queued(Without(queue, e), d) == if d == e then 0 else Queued(queue, d)
  {
    if queue != [] {
      QueuedWithout(queue[1..], e, d);
      var rest := Without(queue[1..], e);
      assert ([queue[0]] + rest)[1..] == rest && [] + rest == rest;
    }
  }

  lemma StepCounts(s: State, i: nat, a: Action, d: nat)
    requires Enabled(s, i, a) && InFlight(s, d) == Queued(s.queue, d) + Held(s.threads, d)
    ensures var t := Step(s, i, a); InFlight(t, d) == Queued(t.queue, d) + Held(t.threads, d)
  {
    hide Held, Without;
    HeldUpdate(s.threads, i, Step(s, i, a).threads[i], d);
    match a
    case PushJob => QueuedAppend(s.queue, s.threads[i].device, d);
    case Purge(e) => QueuedWithout(s.queue, e, d);
    case _ =>
  }

  /** Main step: every step keeps in_flight equal to queued, running and counted-but-unqueued jobs (and
      those erased but not yet subtracted), and nothing of a torn-down device comes back. */
  lemma StepAccounted(s: State, i: nat, a: Action)
    requires Accounted(s) && Enabled(s, i, a)
    ensures Accounted(Step(s, i, a))
  {
    hide Queued, Held, Without, Holds;
    var t := Step(s, i, a);
    forall d: nat ensures InFlight(t, d) == Queued(t.queue, d) + Held(t.threads, d) { StepCounts(s, i, a, d); }
    assert s.threads[i] in s.threads;
    forall d: nat | d in t.torn ensures d in t.closed && InFlight(t, d) == 0 {
      if d in s.torn { TornStays(s, i, a, d); }
    }
  }

  lemma TornStays(s: State, i: nat, a: Action, d: nat)
    requires Accounted(s) && Enabled(s, i, a) && d in s.torn
    ensures InFlight(Step(s, i, a), d) == 0
  {
    hide Queued, Held, Without;
    HeldAtLeast(s.threads, i, d);
    assert InFlight(s, d) == Queued(s.queue, d) + Held(s.threads, d);
  }

  // ---------------------------------------------------------------- runs

  predicate CanRun(s: State, run: seq<Scheduled<Action>>)
    decreases run
  {
    run == [] || (Enabled(s, run[0].thread, run[0].action) && CanRun(Step(s, run[0].thread, run[0].action), run[1..]))
  }

  function Run(s: State, run: seq<Scheduled<Action>>): State
    requires CanRun(s, run)
    decreases run
  {
    if run == [] then s else Run(Step(s, run[0].thread, run[0].action), run[1..])
  }

  /** No job of the device is queued, and no thread holds one. */
  predicate Gone(s: State, d: nat) {
    d !in s.queue && forall t <- s.threads :: !(t.Counted? && t.device == d) && !(t.Running? && t.device == d)
  }

  lemma {:induction false} NoneQueued(queue: seq<nat>, d: nat)
    requires Queued(queue, d) == 0
    ensures d !in queue
  {
    if queue != [] {
      NoneQueued(queue[1..], d);
      assert queue == [queue[0]] + queue[1..];
    }
  }

  lemma ZeroMeansGone(s: State, d: nat)
    requires Accounted(s) && InFlight(s, d) == 0
    ensures Gone(s, d)
  {
    hide Queued, Held;
    assert InFlight(s, d) == Queued(s.queue, d) + Held(s.threads, d);
    NoneQueued(s.queue, d);
    forall t <- s.threads ensures !(t.Counted? && t.device == d) && !(t.Running? && t.device == d) {
      var i :| 0 <= i < |s.threads| && s.threads[i] == t;
      HeldAtLeast(s.threads, i, d);
    }
  }

  /** Main result: in every interleaving, once OnDestroyDevice has left its wait loop for a device, no job of
      that device is queued and no worker holds one, then and ever after. */
  lemma {:induction false} SafeTeardown(s: State, run: seq<Scheduled<Action>>)
    requires Accounted(s) && CanRun(s, run)
    ensures var t := Run(s, run);
            && Accounted(t) && s.torn <= t.torn
            && (forall d: nat :: d in t.torn ==> Gone(t, d))
    decreases run
  {
    hide Enabled, Step, Accounted, Gone;
    if run == [] {
      TornGone(s);
    } else {
      StepAccounted(s, run[0].thread, run[0].action);
      TornGrows(s, run[0].thread, run[0].action);
      SafeTeardown(Step(s, run[0].thread, run[0].action), run[1..]);
    }
  }

  lemma TornGone(s: State)
    requires Accounted(s)
    ensures forall d: nat :: d in s.torn ==> Gone(s, d)
  {
    hide Gone;
    forall d: nat | d in s.torn ensures Gone(s, d) { ZeroMeansGone(s, d); }
  }

  lemma TornGrows(s: State, i: nat, a: Action)
    requires Enabled(s, i, a)
    ensures s.torn <= Step(s, i, a).torn
  {
  }

  /** The counter never underflows: it is always at least what any thread is about to subtract. */
  lemma NeverUnderflows(s: State, i: nat, a: Action, d: nat)
    requires Accounted(s) && Enabled(s, i, a)
    ensures InFlight(s, d) >= 0 && InFlight(Step(s, i, a), d) >= 0
  {
    hide Enabled, Step, Queued, Held;
    StepAccounted(s, i, a);
  }

  function Start(threads: nat): State { State(seq(threads, i => Idle), [], map[], {}, {}) }

  lemma StartAccounted(threads: nat)
    ensures Accounted(Start(threads))
  {
    var s := Start(threads);
    forall d: nat ensures InFlight(s, d) == Queued(s.queue, d) + Held(s.threads, d) { NothingHeld(threads, d); }
  }

  /** Main result: from the start, with any number of threads, no run queues or holds a job of a device that has
      been torn down, whatever happens afterwards. */
  lemma EveryRunSafe(threads: nat, run: seq<Scheduled<Action>>, later: seq<Scheduled<Action>>)
    requires CanRun(Start(threads), run) && CanRun(Run(Start(threads), run), later)
    ensures var t := Run(Start(threads), run);
            var u := Run(t, later);
            forall d: nat :: d in t.torn ==> Gone(t, d) && d in u.torn && Gone(u, d)
  {
    hide CanRun, Run, Start, Gone;
    StartAccounted(threads);
    SafeTeardown(Start(threads), run);
    SafeTeardown(Run(Start(threads), run), later);
  }

  lemma {:induction false} NothingHeld(n: nat, d: nat)
    ensures Held(seq(n, i => Idle), d) == 0
  {
    if n > 0 {
      NothingHeld(n - 1, d);
      assert seq(n, i => Idle)[..n - 1] == seq(n - 1, i => Idle);
    }
  }
}
