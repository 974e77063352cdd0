// Which early exits spoil the thread count, schedule by schedule
// (src/mongoose/mongoose.c:5033-5078, 5182-5211, 5330-5340).

module WorkerPoolCount {
  import opened Wrappers
  import opened SocketQueue
  import opened WorkerPool
  import opened WorkerPoolSafety

  /** By how much `num_threads` is too high. */
  function Drift(s: State): int { s.numThreads - (Count(s.workers) - Uncounted(s)) }

  /** By how much a step's write to `num_threads` is based on an old value: zero unless somebody
      wrote between the read and the write. */
  function Staleness(s: State, step: Step): int {
    match step
    case StoreCount => if s.user.CountLoaded? then s.user.seen - s.numThreads else 0
    case UnlockExit(w) =>
      if w < |s.workers| && s.workers[w].pc.Decrementing? then s.workers[w].pc.seen - s.numThreads else 0
    case _ => 0
  }

  /** What every step keeps, whoever leaves early: threads are started in order, whoever decrements
      holds the mutex, and `stop_flag` tells how far the shutdown is. */
  ghost predicate Shape(s: State) {
    && (s.user.StartingWorker? ==> NotStartedFrom(s, s.user.i))
    && (s.user.Counting? ==> s.user.i < |s.workers| && NotStartedFrom(s, s.user.i + 1))
    && (s.user.CountLoaded? ==> s.user.i < |s.workers| && NotStartedFrom(s, s.user.i + 1))
    && (forall w :: 0 <= w < |s.workers| && s.workers[w].pc.Decrementing? ==> s.mutex == Some(w))
    && (s.mutex.Some? ==> s.mutex.value < |s.workers| && s.workers[s.mutex.value].pc.Decrementing?)
    && 0 <= s.stopFlag <= 2
    && (s.stopFlag == 0 <==> InStart(s) || s.user.Running?)
    && (s.stopFlag == 2 <==> s.master.Finished?)
    && (s.user.Freed? ==> s.stopFlag == 2)
    && (s.master.Stopping? || s.master.Joined? ==> s.stopFlag == 1)
  }

  ghost predicate NotStartedFrom(s: State, i: nat) {
    forall w :: i <= w < |s.workers| ==> s.workers[w].pc.NotStarted?
  }

  predicate IsWorkerStep(step: Step) {
    step.Allocate? || step.Consume? || step.Return? || step.Serve? || step.LockExit? || step.UnlockExit?
  }

  lemma ShapeKept(s: State, step: Step, early: bool)
    requires Shape(s) && RingOk(s.ring) && Do(s, step, early).Some?
    ensures Shape(Do(s, step, early).value)
  {
    if IsWorkerStep(step) { WorkerStepKeepsShape(s, step, early); } else { OtherStepKeepsShape(s, step, early); }
  }

  lemma WorkerStepKeepsShape(s: State, step: Step, early: bool)
    requires Shape(s) && RingOk(s.ring) && Do(s, step, early).Some? && IsWorkerStep(step)
    ensures Shape(Do(s, step, early).value)
  {
    OneWorkerMoves(s, step, early);
  }

  /** A worker's step leaves all others, master and caller where they are. */
  lemma OneWorkerMoves(s: State, step: Step, early: bool)
    requires RingOk(s.ring) && Do(s, step, early).Some? && IsWorkerStep(step)
    ensures var s', w := Do(s, step, early).value, step.w;
      && w < |s.workers| && s'.workers == s.workers[w := s'.workers[w]] && !s.workers[w].pc.NotStarted?
      && (Alive(s'.workers[w]) <==> !step.UnlockExit?) && Alive(s.workers[w])
      && s'.user == s.user && s'.master == s.master && s'.stopFlag == s.stopFlag
      && s'.numThreads == (if step.UnlockExit? then s.workers[w].pc.seen - 1 else s.numThreads)
      && (s'.workers[w].pc.Decrementing? <==> step.LockExit?)
      && s'.mutex == (if step.LockExit? then Some(w) else if step.UnlockExit? then None else s.mutex)
      && (step.LockExit? ==> s.mutex.None?) && (step.UnlockExit? <==> s.workers[w].pc.Decrementing?)
  {}

  lemma OtherStepKeepsShape(s: State, step: Step, early: bool)
    requires Shape(s) && RingOk(s.ring) && Do(s, step, early).Some? && !IsWorkerStep(step)
    ensures Shape(Do(s, step, early).value)
  {}

  /** The count drifts by exactly what is stale in a write. */
  lemma DriftOfStep(s: State, step: Step, early: bool)
    requires Shape(s) && RingOk(s.ring) && Do(s, step, early).Some?
    ensures Drift(Do(s, step, early).value) == Drift(s) + Staleness(s, step)
  {
    var s' := Do(s, step, early).value;
    if IsWorkerStep(step) {
      OneWorkerMoves(s, step, early);
      CountUpdate(s.workers, step.w, s'.workers[step.w]);
    } else if step.StartWorker? && step.ok {
      CountUpdate(s.workers, s.user.i, s'.workers[s.user.i]);
    }
  }

  /** All that is stale in the writes of a schedule. */
  ghost function TotalStaleness(s: State, steps: seq<Step>): int
    requires QueueInv(s)
    decreases |steps|
  {
    if steps == [] then 0
    else
      match Do(s, steps[0], true)
      case None => 0
      case Some(s') =>
        QueueInvKept(s, steps[0], true);
        Staleness(s, steps[0]) + TotalStaleness(s', steps[1..])
  }

  /** After any schedule the count is right exactly when the stale writes cancel out. */
  lemma {:induction false} CountDrifts(s: State, steps: seq<Step>)
    requires QueueInv(s) && Shape(s) && Run(s, steps, true).Some?
    ensures Drift(Run(s, steps, true).value) == Drift(s) + TotalStaleness(s, steps)
    ensures Shape(Run(s, steps, true).value)
    decreases |steps|
  {
    if steps != [] {
      var s' := Do(s, steps[0], true).value;
      QueueInvKept(s, steps[0], true);
      ShapeKept(s, steps[0], true);
      DriftOfStep(s, steps[0], true);
      CountDrifts(s', steps[1..]);
    }
  }

  /** No write is stale. */
  ghost predicate NoStaleWrite(s: State, steps: seq<Step>)
    requires QueueInv(s)
    decreases |steps|
  {
    steps == [] || (
      && Staleness(s, steps[0]) == 0
      && (Do(s, steps[0], true).Some? ==>
           (QueueInvKept(s, steps[0], true); NoStaleWrite(Do(s, steps[0], true).value, steps[1..]))))
  }

  /** The count is right, and whoever waited for it to reach zero has seen the last thread leave. */
  ghost predicate Counted(s: State) {
    Shape(s) && Drift(s) == 0 && (s.master.Joined? || s.master.Finished? ==> Count(s.workers) == 0)
  }

  lemma CountedKept(s: State, step: Step)
    requires Counted(s) && RingOk(s.ring) && Do(s, step, true).Some? && Staleness(s, step) == 0
    ensures Counted(Do(s, step, true).value)
  {
    ShapeKept(s, step, true);
    DriftOfStep(s, step, true);
    CountZero(s.workers);
    CountZero(Do(s, step, true).value.workers);
  }

  lemma {:induction false} RunKeepsCounted(s: State, steps: seq<Step>)
    requires QueueInv(s) && Counted(s) && NoStaleWrite(s, steps) && Run(s, steps, true).Some?
    ensures Counted(Run(s, steps, true).value)
    decreases |steps|
  {
    if steps != [] {
      QueueInvKept(s, steps[0], true);
      CountedKept(s, steps[0]);
      RunKeepsCounted(Do(s, steps[0], true).value, steps[1..]);
    }
  }

  /** One schedule, early exits and all: without a stale write the shutdown is safe, but that the
      count may be negative for a moment; and it is exactly where the only thread that was not
      counted yet has left, and no other is there. */
  lemma SafeUnlessDecrementedAtZero(n: nat, slots: seq<Socket>, steps: seq<Step>, s: State)
    requires Reaches(n, true, slots, steps, s) && QueueInv(Init(n, slots)) && NoStaleWrite(Init(n, slots), steps)
    ensures Safe(s) <==> s.numThreads >= 0
    ensures s.numThreads < 0 <==> Count(s.workers) == 0 && Uncounted(s) == 1
    ensures s.numThreads >= -1 && (s.numThreads < 0 ==> s.stopFlag == 0)
  {
    InitInv(n, slots);
    InitCounted(n, slots);
    RunKeepsCounted(Init(n, slots), steps);
    CountZero(s.workers);
  }

  lemma InitCounted(n: nat, slots: seq<Socket>)
    ensures Counted(Init(n, slots))
  {
    CountZero(Init(n, slots).workers);
  }
}
