// Master, workers and the caller of mg_start/mg_stop as interleaved steps
// (src/mongoose/mongoose.c:5000-5078, 5082-5100, 5144-5211, 5237-5244, 5328-5341).
//
// A step is everything a thread does between two accesses that others can see in
// between: a locked section without a wait inside is one step, an unlocked read of
// `stop_flag` is one step, and the unlocked `num_threads++` of mg_start is a load and a store.

module WorkerPool {
  import opened Wrappers
  import opened SocketQueue


  datatype WorkerPc =
    | NotStarted
    | Starting              // before the allocation in worker_thread
    | AtQueue               // in consume_socket, before or in its wait
    | Returning             // unlocked, before `return !ctx->stop_flag`
    | Serving
    | Leaving               // loop left, exit section not yet locked
    | Decrementing(seen: int) // holds the mutex, has read num_threads
    | Gone

  /** `client` is conn->client, which outlives the request; `job` is the place of this
      round's socket in the order of all grabbed sockets. */
  datatype Worker = Worker(pc: WorkerPc, client: Option<Socket>, job: Option<nat>)

  datatype MasterPc =
    | Polling
    | Producing(sp: Socket)
    | Stopping              // left the accept loop
    | Joined                // saw num_threads reach 0
    | Finished

  datatype UserPc =
    | StartingWorker(i: nat)
    | Counting(i: nat)             // thread i runs, not counted yet
    | CountLoaded(i: nat, seen: int)
    | Running                      // mg_start has returned
    | WaitingForStop
    | Freed

  datatype Grab = Grab(sp: Socket, worker: nat)

  datatype State = State(
    ring: Ring,
    stopFlag: int,
    numThreads: int,
    mutex: Option<nat>,
    workers: seq<Worker>,
    master: MasterPc,
    user: UserPc,
    // history
    enqueued: seq<Socket>,
    grabbed: seq<Grab>,
    served: set<nat>,
    dropped: set<nat>,
    refused: seq<Socket>)

  datatype Step =
    | StartWorker(ok: bool) | LoadCount | StoreCount | StartDone | Stop | Free
    | Allocate(w: nat, ok: bool) | Consume(w: nat) | Return(w: nat) | Serve(w: nat)
    | LockExit(w: nat) | UnlockExit(w: nat)
    | Accept(sp: Socket) | Produce | NoticeStop | Join | SignalStopped

  function Init(n: nat, slots: seq<Socket>): State {
    State(Ring(slots, 0, 0), 0, 0, None,
          seq(n, _ => Worker(NotStarted, None, None)), Polling, StartingWorker(0),
          [], [], {}, {}, [])
  }

  predicate InStart(s: State) {
    s.user.StartingWorker? || s.user.Counting? || s.user.CountLoaded?
  }

  predicate Alive(x: Worker) { !x.pc.NotStarted? && !x.pc.Gone? }

  function With(s: State, w: nat, x: Worker): State
    requires w < |s.workers|
  {
    s.(workers := s.workers[w := x])
  }

  function At(s: State, w: nat, pc: WorkerPc): State
    requires w < |s.workers|
  {
    With(s, w, s.workers[w].(pc := pc))
  }

  predicate IsAt(s: State, w: nat, pc: WorkerPc) {
    w < |s.workers| && s.workers[w].pc == pc
  }

  /** One step, None when it is not enabled. `early` lets a worker fail its allocation,
      and so leave, while mg_start is still counting. */
  ghost function Do(s: State, step: Step, early: bool): Option<State>
    requires RingOk(s.ring)
  {
    match step
    case StartWorker(ok) =>
      if s.user.StartingWorker? && IsAt(s, s.user.i, NotStarted) then
        if ok then Some(At(s, s.user.i, Starting).(user := Counting(s.user.i)))
        else Some(s.(user := StartingWorker(s.user.i + 1)))
      else None
    case LoadCount =>
      if s.user.Counting? then Some(s.(user := CountLoaded(s.user.i, s.numThreads))) else None
    case StoreCount =>
      if s.user.CountLoaded? then
        Some(s.(numThreads := s.user.seen + 1, user := StartingWorker(s.user.i + 1)))
      else None
    case StartDone =>
      if s.user.StartingWorker? && s.user.i >= |s.workers| then Some(s.(user := Running)) else None
    case Stop =>
      if s.user.Running? then Some(s.(stopFlag := 1, user := WaitingForStop)) else None
    case Free =>
      if s.user.WaitingForStop? && s.stopFlag == 2 then Some(s.(user := Freed)) else None
    case Allocate(w, ok) =>
      if IsAt(s, w, Starting) && (ok || early || !InStart(s)) then
        Some(At(s, w, if ok then AtQueue else Leaving))
      else None
    case Consume(w) =>
      if IsAt(s, w, AtQueue) && s.mutex.None? && (s.ring.head != s.ring.tail || s.stopFlag != 0) then
        if s.ring.head > s.ring.tail then
          var sp := Next(s.ring);
          Some(With(s, w, Worker(Returning, Some(sp), Some(|s.grabbed|)))
               .(ring := Grabbed(s.ring), grabbed := s.grabbed + [Grab(sp, w)]))
        else Some(At(s, w, Returning))
      else None
    case Return(w) =>
      if IsAt(s, w, Returning) then
        if s.stopFlag == 0 then Some(At(s, w, Serving))
        else
          var job := s.workers[w].job;
          Some(With(s, w, s.workers[w].(pc := Leaving, job := None))
               .(dropped := if job.Some? then s.dropped + {job.value} else s.dropped))
      else None
    case Serve(w) =>
      if IsAt(s, w, Serving) then
        var job := s.workers[w].job;
        Some(With(s, w, s.workers[w].(pc := AtQueue, job := None))
             .(served := if job.Some? then s.served + {job.value} else s.served))
      else None
    case LockExit(w) =>
      if IsAt(s, w, Leaving) && s.mutex.None? then
        Some(At(s, w, Decrementing(s.numThreads)).(mutex := Some(w)))
      else None
    case UnlockExit(w) =>
      if w < |s.workers| && s.workers[w].pc.Decrementing? then
        Some(At(s, w, Gone).(mutex := None, numThreads := s.workers[w].pc.seen - 1))
      else None
    case Accept(sp) =>
      if s.master.Polling? && s.stopFlag == 0 then Some(s.(master := Producing(sp))) else None
    case Produce =>
      if s.master.Producing? && s.mutex.None? && (s.stopFlag != 0 || s.ring.head - s.ring.tail < QUEUE_SIZE) then
        if s.ring.head - s.ring.tail < QUEUE_SIZE then
          Some(s.(ring := Added(s.ring, s.master.sp), enqueued := s.enqueued + [s.master.sp], master := Polling))
        else Some(s.(refused := s.refused + [s.master.sp], master := Polling))
      else None
    case NoticeStop =>
      if s.master.Polling? && s.stopFlag != 0 then Some(s.(master := Stopping)) else None
    case Join =>
      if s.master.Stopping? && s.mutex.None? && s.numThreads <= 0 then Some(s.(master := Joined)) else None
    case SignalStopped =>
      if s.master.Joined? then Some(s.(stopFlag := 2, master := Finished)) else None
  }

  /** A schedule: any interleaving of steps. None when it takes a step that is not enabled. */
  ghost function Run(s: State, steps: seq<Step>, early: bool): Option<State>
    requires QueueInv(s)
    decreases |steps|
  {
    if steps == [] then Some(s)
    else
      match Do(s, steps[0], early)
      case None => None
      case Some(s') =>
        QueueInvKept(s, steps[0], early);
        Run(s', steps[1..], early)
  }

  // ---- the queue ----

  function Sockets(g: seq<Grab>): seq<Socket> {
    seq(|g|, i requires 0 <= i < |g| => g[i].sp)
  }

  /** What one worker may be doing with the socket it grabbed this round. */
  ghost predicate WorkerInv(s: State, w: nat)
    requires w < |s.workers|
  {
    var x := s.workers[w];
    && (!x.pc.Returning? && !x.pc.Serving? ==> x.job.None?)
    && (x.pc.Serving? || (x.pc.Returning? && s.stopFlag == 0) ==> x.job.Some?)
    && (x.job.Some? ==>
          && x.job.value < |s.grabbed| && s.grabbed[x.job.value] == Grab(s.grabbed[x.job.value].sp, w)
          && x.client == Some(s.grabbed[x.job.value].sp)
          && x.job.value !in s.served && x.job.value !in s.dropped)
  }

  /** Every grabbed socket has been served, or dropped, or is held by the worker that grabbed it. */
  ghost predicate GrabInv(s: State, k: nat)
    requires k < |s.grabbed|
  {
    var w := s.grabbed[k].worker;
    w < |s.workers| && (k in s.served || k in s.dropped || s.workers[w].job == Some(k))
  }

  ghost predicate QueueInv(s: State) {
    && RingOk(s.ring)
    && Sockets(s.grabbed) + Contents(s.ring) == s.enqueued
    && (forall w :: 0 <= w < |s.workers| ==> WorkerInv(s, w))
    && (forall k :: 0 <= k < |s.grabbed| ==> GrabInv(s, k))
    && s.served !! s.dropped
    && (forall k <- s.served :: k < |s.grabbed|)
    && (forall k <- s.dropped :: k < |s.grabbed|)
    && (s.stopFlag == 0 ==> s.dropped == {} && s.refused == [])
  }

  /** Steps that touch neither the queue nor any worker's round. */
  lemma RoundsKept(s: State, s': State)
    requires QueueInv(s)
    requires s'.ring == s.ring && s'.enqueued == s.enqueued && s'.grabbed == s.grabbed
    requires s'.served == s.served && s'.dropped == s.dropped && s'.refused == s.refused
    requires s'.stopFlag == 0 ==> s.stopFlag == 0
    requires |s'.workers| == |s.workers|
    requires forall w :: 0 <= w < |s.workers| ==> SameRound(s.workers[w], s'.workers[w])
    ensures QueueInv(s')
  {
    forall w | 0 <= w < |s'.workers| ensures WorkerInv(s', w) {
      assert WorkerInv(s, w) && SameRound(s.workers[w], s'.workers[w]);
    }
    forall k | 0 <= k < |s'.grabbed| ensures GrabInv(s', k) {
      assert GrabInv(s, k) && SameRound(s.workers[s.grabbed[k].worker], s'.workers[s.grabbed[k].worker]);
    }
  }

  ghost predicate SameRound(x: Worker, y: Worker) {
    x == y || (x.job == y.job && x.client == y.client && x.job.None?
               && !y.pc.Returning? && !y.pc.Serving?)
  }

  lemma RoundEnds(s: State, w: nat, s': State, k: nat, pc: WorkerPc)
    requires QueueInv(s) && w < |s.workers| && s.workers[w].job == Some(k)
    requires s'.ring == s.ring && s'.enqueued == s.enqueued && s'.grabbed == s.grabbed
    requires s'.stopFlag == s.stopFlag && s'.refused == s.refused
    requires (s'.served == s.served + {k} && s'.dropped == s.dropped)
          || (s'.served == s.served && s'.dropped == s.dropped + {k} && s.stopFlag != 0)
    requires !pc.Returning? && !pc.Serving?
    requires s'.workers == s.workers[w := s.workers[w].(pc := pc, job := None)]
    ensures QueueInv(s')
  {
    assert WorkerInv(s, w);
    forall v | 0 <= v < |s'.workers| ensures WorkerInv(s', v) {
      assert WorkerInv(s, v);
    }
    forall j | 0 <= j < |s'.grabbed| ensures GrabInv(s', j) {
      assert GrabInv(s, j);
    }
  }

  lemma ConsumeKept(s: State, w: nat, early: bool)
    requires QueueInv(s) && Do(s, Consume(w), early).Some?
    ensures QueueInv(Do(s, Consume(w), early).value)
  {
    var s' := Do(s, Consume(w), early).value;
    assert WorkerInv(s, w);
    if s.ring.head > s.ring.tail {
      GrabbedDequeues(s.ring);
      assert Sockets(s'.grabbed) == Sockets(s.grabbed) + [Next(s.ring)];
    }
    forall v | 0 <= v < |s'.workers| ensures WorkerInv(s', v) {
      assert WorkerInv(s, v);
    }
    forall j | 0 <= j < |s'.grabbed| ensures GrabInv(s', j) {
      if j < |s.grabbed| { assert GrabInv(s, j); }
    }
  }

  lemma ProduceKept(s: State, early: bool)
    requires QueueInv(s) && Do(s, Produce, early).Some?
    ensures QueueInv(Do(s, Produce, early).value)
  {
    var s' := Do(s, Produce, early).value;
    if s.ring.head - s.ring.tail < QUEUE_SIZE { AddedEnqueues(s.ring, s.master.sp); }
    forall v | 0 <= v < |s'.workers| ensures WorkerInv(s', v) {
      assert WorkerInv(s, v);
    }
    forall j | 0 <= j < |s'.grabbed| ensures GrabInv(s', j) {
      assert GrabInv(s, j);
    }
  }

  lemma QueueInvKept(s: State, step: Step, early: bool)
    requires QueueInv(s) && Do(s, step, early).Some?
    ensures QueueInv(Do(s, step, early).value)
  {
    var s' := Do(s, step, early).value;
    match step
    case Consume(w) => ConsumeKept(s, w, early);
    case Produce => ProduceKept(s, early);
    case Return(w) =>
      assert WorkerInv(s, w);
      if s.stopFlag == 0 {
        ServingStarts(s, w);
      } else if s.workers[w].job.Some? {
        RoundEnds(s, w, s', s.workers[w].job.value, Leaving);
      } else {
        RoundsKept(s, s');
      }
    case Serve(w) =>
      assert WorkerInv(s, w);
      RoundEnds(s, w, s', s.workers[w].job.value, AtQueue);
    case StartWorker(_) =>
      if s'.workers != s.workers { assert WorkerInv(s, s.user.i); }
      RoundsKept(s, s');
    case Allocate(w, _) => assert WorkerInv(s, w); RoundsKept(s, s');
    case LockExit(w) => assert WorkerInv(s, w); RoundsKept(s, s');
    case UnlockExit(w) => assert WorkerInv(s, w); RoundsKept(s, s');
    case _ => RoundsKept(s, s');
  }

  lemma ServingStarts(s: State, w: nat)
    requires QueueInv(s) && IsAt(s, w, Returning) && s.stopFlag == 0
    ensures QueueInv(At(s, w, Serving))
  {
    var s' := At(s, w, Serving);
    forall v | 0 <= v < |s'.workers| ensures WorkerInv(s', v) {
      assert WorkerInv(s, v);
    }
    forall j | 0 <= j < |s'.grabbed| ensures GrabInv(s', j) {
      assert GrabInv(s, j);
    }
  }
}
