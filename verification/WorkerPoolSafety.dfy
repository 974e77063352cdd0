// What every schedule of the worker pool keeps, and the schedule that breaks it
// (src/mongoose/mongoose.c:5000-5078, 5082-5100, 5144-5211, 5237-5244, 5328-5341).

module WorkerPoolSafety {
  import opened Wrappers
  import opened SocketQueue
  import opened WorkerPool

  // ---- counting threads ----

  function Count(ws: seq<Worker>): nat {
    if ws == [] then 0 else (if Alive(ws[0]) then 1 else 0) + Count(ws[1..])
  }

  lemma {:induction false} CountUpdate(ws: seq<Worker>, w: nat, x: Worker)
    requires w < |ws|
    ensures Count(ws[w := x]) - (if Alive(x) then 1 else 0) == Count(ws) - (if Alive(ws[w]) then 1 else 0)
  {
    if w == 0 {
      assert ws[0 := x][1..] == ws[1..];
    } else {
      assert ws[w := x][1..] == ws[1..][w - 1 := x];
      CountUpdate(ws[1..], w - 1, x);
    }
  }

  lemma {:induction false} CountZero(ws: seq<Worker>)
    ensures Count(ws) == 0 <==> forall w :: 0 <= w < |ws| ==> !Alive(ws[w])
  {
    if ws != [] {
      CountZero(ws[1..]);
      forall w | 0 < w < |ws| ensures ws[w] == ws[1..][w - 1] {}
      if Count(ws[1..]) != 0 {
        var v :| 0 <= v < |ws[1..]| && Alive(ws[1..][v]);
        assert ws[v + 1] == ws[1..][v];
      }
    }
  }

  ghost predicate Exiting(x: Worker) { x.pc.Leaving? || x.pc.Decrementing? || x.pc.Gone? }

  ghost predicate StartInv(s: State) {
    match s.user
    case StartingWorker(i) => forall w :: i <= w < |s.workers| ==> s.workers[w].pc.NotStarted?
    case Counting(i) => i < |s.workers| && Alive(s.workers[i])
      && forall w :: i < w < |s.workers| ==> s.workers[w].pc.NotStarted?
    case CountLoaded(i, seen) => i < |s.workers| && Alive(s.workers[i]) && seen == s.numThreads
      && forall w :: i < w < |s.workers| ==> s.workers[w].pc.NotStarted?
    case _ => true
  }

  /** Threads that run but are not counted yet. */
  function Uncounted(s: State): int {
    if s.user.Counting? || s.user.CountLoaded? then 1 else 0
  }

  ghost predicate ThreadInv(s: State) {
    && StartInv(s)
    && s.numThreads == Count(s.workers) - Uncounted(s)
    && (InStart(s) ==> forall w :: 0 <= w < |s.workers| ==> !Exiting(s.workers[w]))
    && (forall w :: 0 <= w < |s.workers| && s.workers[w].pc.Decrementing? ==>
          s.mutex == Some(w) && s.workers[w].pc.seen == s.numThreads)
    && (s.mutex.Some? ==> s.mutex.value < |s.workers| && s.workers[s.mutex.value].pc.Decrementing?)
    && 0 <= s.stopFlag <= 2
    && (s.stopFlag == 0 <==> InStart(s) || s.user.Running?)
    && (s.stopFlag == 2 <==> s.master.Finished?)
    && (s.user.Freed? ==> s.stopFlag == 2)
    && (s.master.Stopping? || s.master.Joined? ==> s.stopFlag == 1)
    && (s.master.Joined? || s.master.Finished? ==> Count(s.workers) == 0)
  }

  lemma WorkerStepKept(s: State, w: nat, x: Worker, s': State)
    requires ThreadInv(s) && w < |s.workers| && Alive(s.workers[w]) && Alive(x)
    requires !s.workers[w].pc.Decrementing? && !x.pc.Decrementing?
    requires x.pc.Leaving? ==> !InStart(s)
    requires s'.workers == s.workers[w := x]
    requires s'.numThreads == s.numThreads && s'.mutex == s.mutex && s'.stopFlag == s.stopFlag
    requires s'.master == s.master && s'.user == s.user
    ensures ThreadInv(s')
  {
    CountUpdate(s.workers, w, x);
    CountZero(s.workers);
  }

  lemma ExitKept(s: State, w: nat, early: bool)
    requires QueueInv(s) && ThreadInv(s)
    ensures Do(s, LockExit(w), early).Some? ==> ThreadInv(Do(s, LockExit(w), early).value)
    ensures Do(s, UnlockExit(w), early).Some? ==> ThreadInv(Do(s, UnlockExit(w), early).value)
  {
    if w < |s.workers| {
      CountUpdate(s.workers, w, s.workers[w].(pc := Decrementing(s.numThreads)));
      CountUpdate(s.workers, w, s.workers[w].(pc := Gone));
      CountZero(s.workers);
    }
  }

  lemma ThreadInvKept(s: State, step: Step)
    requires QueueInv(s) && ThreadInv(s) && Do(s, step, false).Some?
    ensures ThreadInv(Do(s, step, false).value)
  {
    var s' := Do(s, step, false).value;
    match step
    case Allocate(w, _) => WorkerStepKept(s, w, s'.workers[w], s');
    case Consume(w) => WorkerStepKept(s, w, s'.workers[w], s');
    case Return(w) => WorkerStepKept(s, w, s'.workers[w], s');
    case Serve(w) => WorkerStepKept(s, w, s'.workers[w], s');
    case LockExit(w) => ExitKept(s, w, false);
    case UnlockExit(w) => ExitKept(s, w, false);
    case StartWorker(ok) => StartKept(s, ok);
    case _ => OtherStepKept(s, step);
  }

  lemma OtherStepKept(s: State, step: Step)
    requires QueueInv(s) && ThreadInv(s) && Do(s, step, false).Some?
    requires !step.Allocate? && !step.Consume? && !step.Return? && !step.Serve?
    requires !step.LockExit? && !step.UnlockExit? && !step.StartWorker?
    ensures ThreadInv(Do(s, step, false).value)
  {
  }

  lemma StartKept(s: State, ok: bool)
    requires QueueInv(s) && ThreadInv(s) && Do(s, StartWorker(ok), false).Some?
    ensures ThreadInv(Do(s, StartWorker(ok), false).value)
  {
    if ok { CountUpdate(s.workers, s.user.i, s.workers[s.user.i].(pc := Starting)); }
  }

  // ---- every schedule ----

  lemma {:induction false} InitInv(n: nat, slots: seq<Socket>)
    requires |slots| == QUEUE_SIZE
    ensures QueueInv(Init(n, slots)) && ThreadInv(Init(n, slots))
  {
    var s := Init(n, slots);
    CountZero(s.workers);
    assert Contents(s.ring) == [] && Sockets(s.grabbed) == [];
  }

  lemma {:induction false} RunKeepsThreads(s: State, steps: seq<Step>)
    requires QueueInv(s) && ThreadInv(s) && Run(s, steps, false).Some?
    ensures ThreadInv(Run(s, steps, false).value)
    decreases |steps|
  {
    if steps != [] {
      ThreadInvKept(s, steps[0]);
      QueueInvKept(s, steps[0], false);
      RunKeepsThreads(Do(s, steps[0], false).value, steps[1..]);
    }
  }

  lemma {:induction false} RunKeepsQueue(s: State, steps: seq<Step>, early: bool)
    requires QueueInv(s) && Run(s, steps, early).Some?
    ensures QueueInv(Run(s, steps, early).value)
    decreases |steps|
  {
    if steps != [] {
      QueueInvKept(s, steps[0], early);
      RunKeepsQueue(Do(s, steps[0], early).value, steps[1..], early);
    }
  }

  ghost predicate Reachable(n: nat, early: bool, s: State) {
    exists slots, steps :: Reaches(n, early, slots, steps, s)
  }

  ghost predicate Reaches(n: nat, early: bool, slots: seq<Socket>, steps: seq<Step>, s: State) {
    |slots| == QUEUE_SIZE && QueueInv(Init(n, slots)) && Run(Init(n, slots), steps, early) == Some(s)
  }

  /** The worker serves the socket it grabbed itself, and nobody else holds that one. */
  ghost predicate ServesItsOwn(s: State, w: nat)
    requires w < |s.workers|
  {
    && s.workers[w].job.Some?
    && var k := s.workers[w].job.value;
       && k < |s.grabbed| && k !in s.served && k !in s.dropped
       && s.grabbed[k].worker == w && s.workers[w].client == Some(s.grabbed[k].sp)
       && forall v :: 0 <= v < |s.workers| && s.workers[v].job == Some(k) ==> v == w
  }

  /** The queue, in every reachable state of every schedule, early exits included: what was
      grabbed is a prefix of what was queued and the rest waits in the ring; a worker serves
      its own socket; what was grabbed is served, dropped by a stop, or in somebody's hands. */
  lemma FirstInFirstOut(n: nat, early: bool, s: State)
    requires Reachable(n, early, s)
    ensures RingOk(s.ring) && Sockets(s.grabbed) + Contents(s.ring) == s.enqueued
    ensures 0 <= s.ring.tail <= 20 && s.ring.tail <= s.ring.head <= 40 && |Contents(s.ring)| <= 20
    ensures forall w :: 0 <= w < |s.workers| && s.workers[w].pc.Serving? ==> ServesItsOwn(s, w)
    ensures forall k :: 0 <= k < |s.grabbed| ==> GrabInv(s, k)
    ensures s.served !! s.dropped
    ensures s.stopFlag == 0 ==> s.dropped == {} && s.refused == []
  {
    var slots, steps :| Reaches(n, early, slots, steps, s);
    RunKeepsQueue(Init(n, slots), steps, early);
    forall w | 0 <= w < |s.workers| && s.workers[w].pc.Serving? ensures ServesItsOwn(s, w) {
      assert WorkerInv(s, w);
      forall v | 0 <= v < |s.workers| && s.workers[v].job == s.workers[w].job ensures v == w {
        assert WorkerInv(s, v);
      }
    }
  }

  /** The handshake: the count never goes negative; once the master has joined, and destroys the
      mutex, or `stop_flag` is 2, or the context is freed, no thread is left that could take a
      step on it. */
  ghost predicate Safe(s: State) {
    && s.numThreads >= 0
    && (s.master.Joined? || s.stopFlag == 2 ==>
         s.mutex.None? && forall w :: 0 <= w < |s.workers| ==> !Alive(s.workers[w]))
    && (s.user.Freed? ==> s.stopFlag == 2 && s.master.Finished?)
  }

  lemma NeverNegative(s: State)
    requires ThreadInv(s)
    ensures s.numThreads >= 0
  {
    CountZero(s.workers);
    assert Uncounted(s) == 1 ==> Alive(s.workers[s.user.i]);
  }

  lemma StoppedIsQuiet(s: State)
    requires ThreadInv(s) && (s.master.Joined? || s.stopFlag == 2)
    ensures s.mutex.None? && forall w :: 0 <= w < |s.workers| ==> !Alive(s.workers[w])
  {
    CountZero(s.workers);
    assert forall w :: 0 <= w < |s.workers| ==> !Alive(s.workers[w]) && !s.workers[w].pc.Decrementing?;
  }

  lemma FreedTakesNoStep(s: State, step: Step)
    requires RingOk(s.ring) && s.user.Freed? && s.master.Finished?
    requires forall w :: 0 <= w < |s.workers| ==> !Alive(s.workers[w])
    ensures Do(s, step, false).None?
  {
  }

  lemma StopIsSafe(n: nat, s: State)
    requires Reachable(n, false, s)
    ensures Safe(s)
    ensures s.user.Freed? ==> RingOk(s.ring) && forall step :: Do(s, step, false).None?
  {
    var slots, steps :| Reaches(n, false, slots, steps, s);
    InitInv(n, slots);
    RunKeepsThreads(Init(n, slots), steps);
    RunKeepsQueue(Init(n, slots), steps, false);
    NeverNegative(s);
    if s.master.Joined? || s.stopFlag == 2 { StoppedIsQuiet(s); }
    if s.user.Freed? {
      forall step ensures Do(s, step, false).None? { FreedTakesNoStep(s, step); }
    }
  }

  // ---- a worker that leaves while mg_start still counts ----

  lemma {:induction false} RunExtends(s: State, steps: seq<Step>, step: Step, early: bool)
    requires QueueInv(s) && Run(s, steps, early).Some?
    requires QueueInv(Run(s, steps, early).value) && Do(Run(s, steps, early).value, step, early).Some?
    ensures Run(s, steps + [step], early) == Do(Run(s, steps, early).value, step, early)
    decreases |steps|
  {
    var all := steps + [step];
    if steps == [] {
      QueueInvKept(s, step, early);
      assert all[1..] == [];
    } else {
      QueueInvKept(s, steps[0], early);
      assert all[1..] == steps[1..] + [step];
      RunExtends(Do(s, steps[0], early).value, steps[1..], step, early);
    }
  }

  /** One more step of a schedule with early exits. */
  lemma Take(n: nat, s: State, step: Step) returns (s': State)
    requires Reachable(n, true, s) && RingOk(s.ring) && Do(s, step, true).Some?
    ensures Do(s, step, true) == Some(s') && Reachable(n, true, s') && RingOk(s'.ring)
  {
    var slots, steps :| Reaches(n, true, slots, steps, s);
    RunKeepsQueue(Init(n, slots), steps, true);
    s' := Do(s, step, true).value;
    QueueInvKept(s, step, true);
    RunExtends(Init(n, slots), steps, step, true);
    assert Reaches(n, true, slots, steps + [step], s');
  }

  lemma Begin(n: nat) returns (s: State)
    ensures Reachable(n, true, s) && RingOk(s.ring) && s == Init(n, s.ring.slots)
  {
    var slots := seq(QUEUE_SIZE, _ => 0);
    s := Init(n, slots);
    InitInv(n, slots);
    assert Reaches(n, true, slots, [], s);
  }

  /** The allocation of the first worker fails before mg_start has counted it: its exit
      section drives num_threads to -1, against the assertion there. */
  lemma EarlyExitUnderflows(n: nat) returns (s: State)
    requires n > 0
    ensures Reachable(n, true, s) && s.numThreads == -1
  {
    s := Begin(n);
    s := Take(n, s, StartWorker(true));
    s := Take(n, s, Allocate(0, false));
    s := Exits(n, s);
  }

  lemma Exits(n: nat, s0: State) returns (s: State)
    requires Reachable(n, true, s0) && RingOk(s0.ring) && IsAt(s0, 0, Leaving) && s0.mutex.None?
    ensures Reachable(n, true, s) && s.numThreads == s0.numThreads - 1
  {
    s := Take(n, s0, LockExit(0));
    s := Take(n, s, UnlockExit(0));
  }

  /** A pool of two workers. */
  ghost predicate Looks(s: State, first: WorkerPc, second: WorkerPc, numThreads: int, mutex: Option<nat>,
                        user: UserPc, master: MasterPc, stopFlag: int)
  {
    && Reachable(2, true, s) && RingOk(s.ring) && |s.workers| == 2
    && s.workers[0].pc == first && s.workers[1].pc == second
    && s.numThreads == numThreads && s.mutex == mutex
    && s.user == user && s.master == master && s.stopFlag == stopFlag
  }

  /** Two workers, the second of which fails its allocation and exits between the load and
      the store of mg_start's increment: the master joins nobody, and the context is freed
      while the first worker is still in consume_socket. */
  lemma EarlyExitFreesTooSoon() returns (s: State)
    ensures Looks(s, AtQueue, Gone, 0, None, Freed, Finished, 2)
  {
    s := StartsTwo();
    s := LosesUpdate(s);
    s := StopsAtZero(s);
    s := Take(2, s, SignalStopped);
    s := Take(2, s, Free);
  }

  lemma StartsTwo() returns (s: State)
    ensures Looks(s, AtQueue, Starting, 1, None, CountLoaded(1, 1), Polling, 0)
  {
    s := StartsFirst();
    s := Take(2, s, StoreCount);
    s := Take(2, s, StartWorker(true));
    s := Take(2, s, LoadCount);
  }

  lemma StartsFirst() returns (s: State)
    ensures Looks(s, AtQueue, NotStarted, 0, None, CountLoaded(0, 0), Polling, 0)
  {
    s := Begin(2);
    s := Take(2, s, StartWorker(true));
    s := Take(2, s, Allocate(0, true));
    s := Take(2, s, LoadCount);
  }

  lemma LosesUpdate(s0: State) returns (s: State)
    requires Looks(s0, AtQueue, Starting, 1, None, CountLoaded(1, 1), Polling, 0)
    ensures Looks(s, AtQueue, Gone, 0, None, StartingWorker(2), Polling, 0)
  {
    s := LeavesUncounted(s0);
    s := StoresInBetween(s);
  }

  lemma LeavesUncounted(s0: State) returns (s: State)
    requires Looks(s0, AtQueue, Starting, 1, None, CountLoaded(1, 1), Polling, 0)
    ensures Looks(s, AtQueue, Decrementing(1), 1, Some(1), CountLoaded(1, 1), Polling, 0)
  {
    s := Take(2, s0, Allocate(1, false));
    s := Take(2, s, LockExit(1));
  }

  lemma StoresInBetween(s0: State) returns (s: State)
    requires Looks(s0, AtQueue, Decrementing(1), 1, Some(1), CountLoaded(1, 1), Polling, 0)
    ensures Looks(s, AtQueue, Gone, 0, None, StartingWorker(2), Polling, 0)
  {
    s := Take(2, s0, StoreCount);
    s := Take(2, s, UnlockExit(1));
  }

  lemma StopsAtZero(s0: State) returns (s: State)
    requires Looks(s0, AtQueue, Gone, 0, None, StartingWorker(2), Polling, 0)
    ensures Looks(s, AtQueue, Gone, 0, None, WaitingForStop, Joined, 1)
  {
    s := Take(2, s0, StartDone);
    s := Take(2, s, Stop);
    assert Looks(s, AtQueue, Gone, 0, None, WaitingForStop, Polling, 1);
    s := JoinsNobody(s);
  }

  lemma JoinsNobody(s0: State) returns (s: State)
    requires Looks(s0, AtQueue, Gone, 0, None, WaitingForStop, Polling, 1)
    ensures Looks(s, AtQueue, Gone, 0, None, WaitingForStop, Joined, 1)
  {
    s := Take(2, s0, NoticeStop);
    s := Take(2, s, Join);
  }

  /** The handshake is safe in every schedule exactly when no worker can leave before
      mg_start has finished counting. */
  lemma SafeIffNoEarlyExit(n: nat, early: bool)
    requires n > 0
    ensures (forall s :: Reachable(n, early, s) ==> Safe(s)) <==> !early
  {
    if early {
      var s := EarlyExitUnderflows(n);
      assert Reachable(n, early, s) && !Safe(s);
    } else {
      forall s | Reachable(n, early, s) ensures Safe(s) { StopIsSafe(n, s); }
    }
  }

  /** A worker leaves, because its allocation failed, while mg_start still counts. */
  predicate ExitsEarly(s: State, step: Step) {
    step.Allocate? && !step.ok && InStart(s)
  }

  ghost predicate NoEarlyExit(s: State, steps: seq<Step>)
    requires QueueInv(s)
    decreases |steps|
  {
    steps == [] || (
      && !ExitsEarly(s, steps[0])
      && (Do(s, steps[0], true).Some? ==>
           (QueueInvKept(s, steps[0], true); NoEarlyExit(Do(s, steps[0], true).value, steps[1..]))))
  }

  lemma {:induction false} SameRunWithoutEarlyExit(s: State, steps: seq<Step>)
    requires QueueInv(s) && NoEarlyExit(s, steps)
    ensures Run(s, steps, true) == Run(s, steps, false)
    decreases |steps|
  {
    if steps != [] {
      assert Do(s, steps[0], true) == Do(s, steps[0], false);
      if Do(s, steps[0], true).Some? {
        QueueInvKept(s, steps[0], true);
        SameRunWithoutEarlyExit(Do(s, steps[0], true).value, steps[1..]);
      }
    }
  }

  /** Even where workers may leave early: a schedule in which none does is safe. */
  lemma ScheduleWithoutEarlyExitIsSafe(n: nat, slots: seq<Socket>, steps: seq<Step>, s: State)
    requires Reaches(n, true, slots, steps, s)
    requires QueueInv(Init(n, slots)) && NoEarlyExit(Init(n, slots), steps)
    ensures Safe(s)
  {
    SameRunWithoutEarlyExit(Init(n, slots), steps);
    assert Reaches(n, false, slots, steps, s);
    StopIsSafe(n, s);
  }

  // ---- which steps are enabled ----

  /** In every reachable state a worker at the queue can go on, once the mutex is free, if and only if
      a socket waits or the stop has begun; and it takes the oldest if there is one. */
  lemma ConsumeEnabled(n: nat, early: bool, s: State, w: nat)
    requires Reachable(n, early, s) && RingOk(s.ring) && IsAt(s, w, AtQueue) && s.mutex.None?
    ensures Do(s, Consume(w), early).Some? <==> Contents(s.ring) != [] || s.stopFlag != 0
    ensures Contents(s.ring) != [] ==>
      var s' := Do(s, Consume(w), early).value;
      && s'.workers[w].pc.Returning? && s'.workers[w].client == Some(Contents(s.ring)[0])
      && RingOk(s'.ring) && Contents(s'.ring) == Contents(s.ring)[1..]
      && s'.grabbed == s.grabbed + [Grab(Contents(s.ring)[0], w)]
    ensures Contents(s.ring) == [] && s.stopFlag != 0 ==>
      var s' := Do(s, Consume(w), early).value;
      s'.workers[w].pc.Returning? && s'.ring == s.ring && s'.grabbed == s.grabbed
  {
    if Contents(s.ring) != [] {
      GrabbedDequeues(s.ring);
      var next := [Next(s.ring)];
      assert (next + Contents(Grabbed(s.ring)))[1..] == Contents(Grabbed(s.ring));
    }
  }

  /** The master can put down the socket it accepted, once the mutex is free, if and only if fewer than
      20 wait or the stop has begun; and if fewer than 20 wait it is the last of them then. */
  lemma ProduceEnabled(n: nat, early: bool, s: State)
    requires Reachable(n, early, s) && RingOk(s.ring) && s.master.Producing? && s.mutex.None?
    ensures Do(s, Produce, early).Some? <==> |Contents(s.ring)| < 20 || s.stopFlag != 0
    ensures |Contents(s.ring)| < 20 ==>
      var s' := Do(s, Produce, early).value;
      s'.master.Polling? && RingOk(s'.ring) && Contents(s'.ring) == Contents(s.ring) + [s.master.sp]
  {
    if |Contents(s.ring)| < 20 { AddedEnqueues(s.ring, s.master.sp); }
  }

  /** A worker that has taken a socket serves that one if the stop has not begun, and is then back at
      the queue; once it has begun it leaves. */
  lemma ServeEnabled(n: nat, early: bool, s: State, w: nat, sp: Socket)
    requires Reachable(n, early, s) && RingOk(s.ring)
    requires IsAt(s, w, Returning) && s.workers[w].client == Some(sp)
    ensures Do(s, Return(w), early).Some?
    ensures var s1 := Do(s, Return(w), early).value;
      && w < |s1.workers| && s1.ring == s.ring
      && (s.stopFlag != 0 ==> IsAt(s1, w, Leaving))
      && (s.stopFlag == 0 ==>
           && IsAt(s1, w, Serving) && s1.workers[w].client == Some(sp)
           && Do(s1, Serve(w), early).Some? && IsAt(Do(s1, Serve(w), early).value, w, AtQueue))
  {}

  lemma ReachableKeepsThreads(n: nat, s: State)
    requires Reachable(n, false, s)
    ensures ThreadInv(s)
  {
    var slots, steps :| Reaches(n, false, slots, steps, s);
    InitInv(n, slots);
    RunKeepsThreads(Init(n, slots), steps);
  }

  /** A step that worker w can take wherever it is, but for waiting at an empty queue. */
  ghost function NextOf(s: State, w: nat): Step
    requires w < |s.workers|
  {
    match s.workers[w].pc
    case Starting => Allocate(w, true)
    case AtQueue => Consume(w)
    case Returning => Return(w)
    case Serving => Serve(w)
    case Decrementing(_) => UnlockExit(w)
    case _ => LockExit(w)
  }

  /** While a socket waits and a thread is alive, some worker can take a step. */
  lemma WaitingSocketGetsOn(n: nat, s: State, w: nat)
    requires Reachable(n, false, s) && RingOk(s.ring) && w < |s.workers| && Alive(s.workers[w])
    requires Contents(s.ring) != [] || s.stopFlag != 0
    ensures exists v: nat :: v < |s.workers| && Alive(s.workers[v]) && Do(s, NextOf(s, v), false).Some?
  {
    ReachableKeepsThreads(n, s);
    if s.mutex.Some? {
      assert Do(s, NextOf(s, s.mutex.value), false).Some?;
    } else {
      assert Do(s, NextOf(s, w), false).Some?;
    }
  }

  /** Once the stop has begun, somebody can take a step until the context is freed. */
  lemma StopGetsOn(n: nat, s: State)
    requires Reachable(n, false, s) && RingOk(s.ring) && s.stopFlag != 0 && !s.user.Freed?
    ensures exists step :: Do(s, step, false).Some?
  {
    ReachableKeepsThreads(n, s);
    CountZero(s.workers);
    if w :| 0 <= w < |s.workers| && Alive(s.workers[w]) {
      WaitingSocketGetsOn(n, s, w);
    } else {
      ShutdownGetsOn(s);
    }
  }

  /** With no worker left the master goes through its shutdown, and the caller frees the context. */
  lemma ShutdownGetsOn(s: State)
    requires ThreadInv(s) && RingOk(s.ring) && s.stopFlag != 0 && !s.user.Freed?
    requires Count(s.workers) == 0 && forall w :: 0 <= w < |s.workers| ==> !Alive(s.workers[w])
    ensures Do(s, ShutdownStep(s), false).Some?
  {}

  function ShutdownStep(s: State): Step {
    match s.master
    case Polling => NoticeStop
    case Producing(_) => Produce
    case Stopping => Join
    case Joined => SignalStopped
    case Finished => Free
  }

  /** The master joins only, and then always, when no worker is left. */
  lemma JoinEnabled(n: nat, s: State)
    requires Reachable(n, false, s) && RingOk(s.ring) && s.master.Stopping?
    ensures Do(s, Join, false).Some? <==> forall w :: 0 <= w < |s.workers| ==> !Alive(s.workers[w])
  {
    ReachableKeepsThreads(n, s);
    CountZero(s.workers);
  }

  /** Until the stop begins, a master between two sockets takes any new one. */
  lemma AcceptEnabled(s: State, sp: Socket, early: bool)
    requires RingOk(s.ring) && s.master.Polling?
    ensures Do(s, Accept(sp), early).Some? <==> s.stopFlag == 0
    ensures s.stopFlag == 0 ==> Do(s, Accept(sp), early).value.master == Producing(sp)
  {}

  /** mg_start starts and counts one worker after the other, all of them, before it returns. */
  lemma StartEnabled(s: State, early: bool)
    requires RingOk(s.ring) && ThreadInv(s)
    ensures s.user.StartingWorker? && s.user.i < |s.workers| ==>
      var s' := Do(s, StartWorker(true), early);
      && s'.Some? && IsAt(s'.value, s.user.i, Starting) && s'.value.user == Counting(s.user.i)
      && Do(s, StartWorker(false), early) == Some(s.(user := StartingWorker(s.user.i + 1)))
    ensures s.user.Counting? ==>
      var s' := Do(s, LoadCount, early);
      s'.Some? && s'.value.user == CountLoaded(s.user.i, s.numThreads)
    ensures s.user.CountLoaded? ==>
      var s' := Do(s, StoreCount, early);
      s'.Some? && s'.value.numThreads == s.user.seen + 1 && s'.value.user == StartingWorker(s.user.i + 1)
    ensures Do(s, StartDone, early).Some? <==> s.user.StartingWorker? && s.user.i >= |s.workers|
    ensures Do(s, Stop, early).Some? <==> s.user.Running?
    ensures s.user.Running? ==> Do(s, Stop, early).value.stopFlag == 1
  {}
}
