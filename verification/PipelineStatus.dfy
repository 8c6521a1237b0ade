/** The status counters of pipeline records, under every interleaving of record creation, SetStatus's
    compare-exchange loop and record destruction. Each step is one atomic operation of one thread. */
module PipelineStatus {
  import opened Interleaving

  datatype Status = Pending | Unmodified | Patched | Failed | WaitingForResources | Destroyed

  /** Where a thread is. */
  datatype Thread =
    | Idle
    | Registering                                               // in the pipeline map, not yet counted
    | Looping(record: nat, target: Status, expected: Status)    // in SetStatus, about to compare-exchange
    | Subtracting(was: Status, next: Status)                    // exchanged, about to fetch_sub
    | Adding(next: Status)                                      // about to fetch_add
    | Removing(was: Status)                                     // destroyed a record, about to fetch_sub

  datatype State = State(threads: seq<Thread>, status: map<nat, Status>, counts: map<Status, int>)

  datatype Action =
    | Register(record: nat)
    | CountIn
    | Begin(record: nat, target: Status)
    | Leave
    | Exchange
    | Retry
    | Subtract
    | Add
    | Destroy(record: nat)
    | Remove

  function Count(counts: map<Status, int>, st: Status): int { if st in counts then counts[st] else 0 }

  function Adjust(counts: map<Status, int>, st: Status, delta: int): map<Status, int> {
    counts[st := Count(counts, st) + delta]
  }

  /** Whether thread `i` can take a step now. A weak compare-exchange may fail spuriously, so Retry is
      always possible in the loop. */
  predicate Enabled(s: State, i: nat, a: Action) {
    && i < |s.threads|
    && var t := s.threads[i];
       match a
       case Register(r) => t.Idle? && r !in s.status
       case CountIn => t.Registering?
       case Begin(r, target) => t.Idle? && r in s.status && target != Destroyed
       case Leave => t.Looping? && t.expected == Destroyed
       case Exchange =>
         t.Looping? && t.expected != Destroyed && t.record in s.status && s.status[t.record] == t.expected
       case Retry => t.Looping? && t.expected != Destroyed && t.record in s.status
       case Subtract => t.Subtracting?
       case Add => t.Adding?
       case Destroy(r) => t.Idle? && r in s.status
       case Remove => t.Removing?
  }

  function Step(s: State, i: nat, a: Action): State
    requires Enabled(s, i, a)
  {
    var t := s.threads[i];
    match a
    case Register(r) => s.(threads := s.threads[i := Registering], status := s.status[r := Pending])
    case CountIn => s.(threads := s.threads[i := Idle], counts := Adjust(s.counts, Pending, 1))
    case Begin(r, target) => s.(threads := s.threads[i := Looping(r, target, s.status[r])])
    case Leave => s.(threads := s.threads[i := Idle])
    case Exchange =>
      s.(threads := s.threads[i := Subtracting(t.expected, t.target)], status := s.status[t.record := t.target])
    case Retry => s.(threads := s.threads[i := Looping(t.record, t.target, s.status[t.record])])
    case Subtract => s.(threads := s.threads[i := Adding(t.next)], counts := Adjust(s.counts, t.was, -1))
    case Add => s.(threads := s.threads[i := Idle], counts := Adjust(s.counts, t.next, 1))
    case Destroy(r) =>
      s.(threads := s.threads[i := if s.status[r] != Destroyed then Removing(s.status[r]) else Idle],
         status := s.status[r := Destroyed])
    case Remove => s.(threads := s.threads[i := Idle], counts := Adjust(s.counts, t.was, -1))
  }

  // ---------------------------------------------------------------- accounting

  /** What a thread still has to add to a counter. */
  function Owes(t: Thread, st: Status): int {
    match t
    case Registering => if st == Pending then 1 else 0
    case Subtracting(was, next) => (if st == next then 1 else 0) - (if st == was then 1 else 0)
    case Adding(next) => if st == next then 1 else 0
    case Removing(was) => if st == was then -1 else 0
    case _ => 0
  }

  function Owed(threads: seq<Thread>, st: Status): int {
    if threads == [] then 0 else Owed(threads[..|threads| - 1], st) + Owes(threads[|threads| - 1], st)
  }

  /** The records in a status. */
  function In(status: map<nat, Status>, st: Status): set<nat> { set r | r in status && status[r] == st }

  /** Threads never aim at, or owe to, the destroyed status. */
  predicate LiveTargets(t: Thread) {
    match t
    case Looping(_, target, _) => target != Destroyed
    case Subtracting(was, next) => was != Destroyed && next != Destroyed
    case Adding(next) => next != Destroyed
    case Removing(was) => was != Destroyed
    case _ => true
  }

  ghost predicate Accounted(s: State) {
    && (forall t <- s.threads :: LiveTargets(t))
    && (forall st: Status :: st != Destroyed ==> Count(s.counts, st) + Owed(s.threads, st) == |In(s.status, st)|)
  }

  lemma {:induction false} OwedUpdate(threads: seq<Thread>, i: nat, t: Thread, st: Status)
    requires i < |threads|
    ensures Owed(threads[i := t], st) == Owed(threads, st) - Owes(threads[i], st) + Owes(t, st)
  {
    hide Owes;
    var n := |threads| - 1;
    var updated := threads[i := t];
    if i < n {
      assert updated[..n] == threads[..n][i := t];
      OwedUpdate(threads[..n], i, t, st);
    } else {
      assert updated[..n] == threads[..n];
    }
  }

  /** Moving one record changes the population of two statuses by one. */
  lemma Moved(status: map<nat, Status>, r: nat, to: Status, st: Status)
    ensures var before := if r in status && status[r] == st then 1 else 0;
            |In(status[r := to], st)| == |In(status, st)| - before + (if to == st then 1 else 0)
  {
    var others := In(status, st) - {r};
    assert In(status[r := to], st) == if to == st then others + {r} else others;
    assert In(status, st) == if r in status && status[r] == st then others + {r} else others;
  }

  lemma StepLive(s: State, i: nat, a: Action)
    requires Enabled(s, i, a) && forall t <- s.threads :: LiveTargets(t)
    ensures forall t <- Step(s, i, a).threads :: LiveTargets(t)
  {
    hide Adjust;
    assert s.threads[i] in s.threads;
    assert LiveTargets(Step(s, i, a).threads[i]);
  }

  lemma Adjusted(counts: map<Status, int>, to: Status, delta: int, st: Status)
    ensures Count(Adjust(counts, to, delta), st) == Count(counts, st) + if st == to then delta else 0
  {
  }

  lemma StepBalanced(s: State, i: nat, a: Action, st: Status)
    requires Enabled(s, i, a) && st != Destroyed
    requires Count(s.counts, st) + Owed(s.threads, st) == |In(s.status, st)|
    ensures var t := Step(s, i, a); Count(t.counts, st) + Owed(t.threads, st) == |In(t.status, st)|
  {
    hide In, Owed, Adjust, Count;
    OwedUpdate(s.threads, i, Step(s, i, a).threads[i], st);
    match a
    case Register(r) => Moved(s.status, r, Pending, st);
    case Exchange => Moved(s.status, s.threads[i].record, s.threads[i].target, st);
    case Destroy(r) => Moved(s.status, r, Destroyed, st);
    case CountIn => Adjusted(s.counts, Pending, 1, st);
    case Subtract => Adjusted(s.counts, s.threads[i].was, -1, st);
    case Add => Adjusted(s.counts, s.threads[i].next, 1, st);
    case Remove => Adjusted(s.counts, s.threads[i].was, -1, st);
    case _ =>
  }

  /** Main step: every atomic step keeps the accounts, whichever thread takes it. */
  lemma StepAccounted(s: State, i: nat, a: Action)
    requires Accounted(s) && Enabled(s, i, a)
    ensures Accounted(Step(s, i, a))
  {
    hide Enabled, Step, LiveTargets, In, Owed;
    StepLive(s, i, a);
    var t := Step(s, i, a);
    forall st: Status | st != Destroyed ensures Count(t.counts, st) + Owed(t.threads, st) == |In(t.status, st)| {
      StepBalanced(s, i, a, st);
    }
  }

  lemma StepAbsorbs(s: State, i: nat, a: Action, r: nat)
    requires Enabled(s, i, a) && Accounted(s) && r in s.status && s.status[r] == Destroyed
    ensures var t := Step(s, i, a); r in t.status && t.status[r] == Destroyed
  {
  }

  // ---------------------------------------------------------------- runs

  predicate CanRun(s: State, run: seq<Scheduled<Action>>)
    decreases run
  {
    run == [] || (Enabled(s, run[0].thread, run[0].action) && CanRun(Step(s, run[0].thread, run[0].action), run[1..]))
  }

  function Run(s: State, run: seq<Scheduled<Action>>): State
    requires CanRun(s, run)
    decreases run
  {
    if run == [] then s else Run(Step(s, run[0].thread, run[0].action), run[1..])
  }

  predicate Quiescent(s: State) { forall t <- s.threads :: t.Idle? }

  lemma {:induction false} NothingOwed(threads: seq<Thread>, st: Status)
    requires forall t <- threads :: t.Idle?
    ensures Owed(threads, st) == 0
  {
    if threads != [] {
      NothingOwed(threads[..|threads| - 1], st);
      assert threads[|threads| - 1] in threads;
    }
  }

  /** Main result: after any interleaving, each counter plus what running threads still owe it is the number
      of records in that status; with no thread mid-step the counters are exact. */
  lemma {:induction false} RunAccounted(s: State, run: seq<Scheduled<Action>>)
    requires Accounted(s) && CanRun(s, run)
    ensures var t := Run(s, run);
            && Accounted(t)
            && (Quiescent(t) ==> forall st: Status :: st != Destroyed ==> Count(t.counts, st) == |In(t.status, st)|)
    decreases run
  {
    hide Enabled, Step, Accounted;
    if run == [] {
      QuiescentExact(s);
    } else {
      StepAccounted(s, run[0].thread, run[0].action);
      RunAccounted(Step(s, run[0].thread, run[0].action), run[1..]);
    }
  }

  lemma QuiescentExact(s: State)
    requires Accounted(s)
    ensures Quiescent(s) ==> forall st: Status :: st != Destroyed ==> Count(s.counts, st) == |In(s.status, st)|
  {
    if Quiescent(s) {
      forall st: Status | st != Destroyed ensures Count(s.counts, st) == |In(s.status, st)| {
        NothingOwed(s.threads, st);
      }
    }
  }

  /** Main result: a destroyed record stays destroyed; no SetStatus that was in flight revives it. */
  lemma {:induction false} DestroyedAbsorbs(s: State, run: seq<Scheduled<Action>>, r: nat)
    requires Accounted(s) && CanRun(s, run) && r in s.status && s.status[r] == Destroyed
    ensures var t := Run(s, run); r in t.status && t.status[r] == Destroyed
    decreases run
  {
    hide Enabled, Step, Accounted;
    if run != [] {
      StepAccounted(s, run[0].thread, run[0].action);
      StepAbsorbs(s, run[0].thread, run[0].action, r);
      DestroyedAbsorbs(Step(s, run[0].thread, run[0].action), run[1..], r);
    }
  }

  function Start(threads: nat): State { State(seq(threads, i => Idle), map[], map[]) }

  lemma StartAccounted(threads: nat)
    ensures Accounted(Start(threads))
  {
    var s := Start(threads);
    forall st: Status | st != Destroyed ensures Count(s.counts, st) + Owed(s.threads, st) == |In(s.status, st)| {
      NothingOwed(s.threads, st);
      assert In(s.status, st) == {};
    }
  }

  /** Main result: from the start, with any number of threads, every run keeps the accounts, and whenever no thread
      is mid-step each counter is the number of records in its status. */
  lemma EveryRunAccounted(threads: nat, run: seq<Scheduled<Action>>)
    requires CanRun(Start(threads), run)
    ensures var t := Run(Start(threads), run);
            && (forall st: Status :: st != Destroyed ==>
                  Count(t.counts, st) + Owed(t.threads, st) == |In(t.status, st)|)
            && (Quiescent(t) ==> forall st: Status :: st != Destroyed ==> Count(t.counts, st) == |In(t.status, st)|)
  {
    hide CanRun, Run, Start, Count, Owed, In;
    StartAccounted(threads);
    RunAccounted(Start(threads), run);
  }

  /** Between a record's insertion and its first count another thread can move it on, so a counter can be
      negative for a while: the counters are not populations except when no thread is mid-step. */
  lemma TransientlyNegative()
    ensures var s := Start(2);
            var run := [Scheduled(0, Register(7)), Scheduled(1, Begin(7, Patched)), Scheduled(1, Exchange),
                        Scheduled(1, Subtract)];
            CanRun(s, run) && Count(Run(s, run).counts, Pending) == -1
  {
    var s := Start(2);
    var s1 := Step(s, 0, Register(7));
    var s2 := Step(s1, 1, Begin(7, Patched));
    var s3 := Step(s2, 1, Exchange);
    var s4 := Step(s3, 1, Subtract);
    var r4 := [Scheduled(1, Subtract)];
    var r3 := [Scheduled(1, Exchange)] + r4;
    var r2 := [Scheduled(1, Begin(7, Patched))] + r3;
    var r1 := [Scheduled(0, Register(7))] + r2;
    assert r1[1..] == r2 && r2[1..] == r3 && r3[1..] == r4 && r4[1..] == [];
    assert CanRun(s4, []) && Run(s4, []) == s4;
    assert CanRun(s3, r4) && Run(s3, r4) == s4;
    assert CanRun(s2, r3) && Run(s2, r3) == s4;
    assert CanRun(s1, r2) && Run(s1, r2) == s4;
    assert CanRun(s, r1) && Run(s, r1) == s4;
  }
}
