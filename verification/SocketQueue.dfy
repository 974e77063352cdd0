// The ring of accepted sockets shared by the master and the workers
// (src/mongoose/mongoose.c:485-491, 5000-5027, 5082-5100).

module SocketQueue {

  type Socket = int

  const QUEUE_SIZE: nat := 20

  /** `queue`, `sq_head` and `sq_tail`. */
  datatype Ring = Ring(slots: seq<Socket>, head: int, tail: int)

  /** Holds whenever the mutex is free. */
  ghost predicate RingOk(r: Ring) {
    |r.slots| == QUEUE_SIZE && 0 <= r.tail <= QUEUE_SIZE && r.tail <= r.head <= r.tail + QUEUE_SIZE
  }

  /** The sockets waiting, oldest first. */
  ghost function Contents(r: Ring): (s: seq<Socket>)
    requires |r.slots| == QUEUE_SIZE && 0 <= r.tail <= r.head
  {
    seq(r.head - r.tail, i requires 0 <= i => r.slots[(r.tail + i) % QUEUE_SIZE])
  }

  /** The next socket to serve. */
  function Next(r: Ring): Socket
    requires |r.slots| == QUEUE_SIZE && 0 <= r.tail
  {
    r.slots[r.tail % QUEUE_SIZE]
  }

  function Rebased(r: Ring): Ring
    decreases r.tail
  {
    if r.tail > QUEUE_SIZE then Rebased(Ring(r.slots, r.head - QUEUE_SIZE, r.tail - QUEUE_SIZE)) else r
  }

  /** What grabbing a socket leaves, and what adding one leaves. */
  function Grabbed(r: Ring): Ring {
    Rebased(Ring(r.slots, r.head, r.tail + 1))
  }

  function Added(r: Ring, sp: Socket): Ring
    requires |r.slots| == QUEUE_SIZE && 0 <= r.head
  {
    Ring(r.slots[r.head % QUEUE_SIZE := sp], r.head + 1, r.tail)
  }

  /** Both counters move back together by whole rounds of the ring. */
  lemma {:induction false} RebasedKeepsContents(r: Ring)
    requires |r.slots| == QUEUE_SIZE && 0 <= r.tail <= r.head
    ensures var r' := Rebased(r);
      && r'.slots == r.slots && 0 <= r'.tail <= QUEUE_SIZE && r'.head - r'.tail == r.head - r.tail
      && Contents(r') == Contents(r)
      && (r.tail <= 20 ==> r' == r)
    decreases r.tail
  {
    if r.tail > QUEUE_SIZE {
      var back := Ring(r.slots, r.head - QUEUE_SIZE, r.tail - QUEUE_SIZE);
      forall i | 0 <= i < r.head - r.tail ensures Contents(back)[i] == Contents(r)[i] {
        SameSlot(back.tail + i);
      }
      RebasedKeepsContents(back);
    }
  }

  lemma SameSlot(n: int)
    ensures (n + QUEUE_SIZE) % QUEUE_SIZE == n % QUEUE_SIZE
  {
  }

  lemma GrabbedDequeues(r: Ring)
    requires RingOk(r) && r.head > r.tail
    ensures RingOk(Grabbed(r)) && [Next(r)] + Contents(Grabbed(r)) == Contents(r)
  {
    RebasedKeepsContents(Ring(r.slots, r.head, r.tail + 1));
    assert [Next(r)] + Contents(Ring(r.slots, r.head, r.tail + 1)) == Contents(r);
  }

  lemma AddedEnqueues(r: Ring, sp: Socket)
    requires RingOk(r) && r.head - r.tail < QUEUE_SIZE
    ensures RingOk(Added(r, sp)) && Contents(Added(r, sp)) == Contents(r) + [sp]
  {
    forall i | 0 <= i < r.head - r.tail
      ensures Contents(Added(r, sp))[i] == Contents(r)[i]
    {
      OtherSlot(r.tail + i, r.head);
    }
  }

  lemma OtherSlot(m: int, n: int)
    requires m < n < m + QUEUE_SIZE
    ensures m % QUEUE_SIZE != n % QUEUE_SIZE
  {
  }

  class MgContext {
    const queue: array<Socket>
    var sqHead: int
    var sqTail: int

    ghost predicate Valid()
      reads this, queue
    {
      RingOk(State())
    }

    ghost function State(): Ring
      reads this, queue
    {
      Ring(queue[..], sqHead, sqTail)
    }

    constructor ()
      ensures Valid() && fresh(queue) && Contents(State()) == []
    {
      queue := new Socket[QUEUE_SIZE];
      sqHead, sqTail := 0, 0;
    }

    /** The locked part of consume_socket, once its wait is over. */
    method ConsumeSocket() returns (grabbed: bool, sp: Socket)
      requires Valid()
      modifies this
      ensures Valid()
      ensures grabbed == (old(Contents(State())) != [])
      ensures grabbed ==> sp == Next(old(State())) && State() == Grabbed(old(State()))
      ensures grabbed ==> [sp] + Contents(State()) == old(Contents(State()))
      ensures !grabbed ==> State() == old(State())
    {
      grabbed, sp := false, 0;
      if sqHead > sqTail {
        GrabbedDequeues(State());
        grabbed, sp := true, queue[sqTail % QUEUE_SIZE];
        sqTail := sqTail + 1;
        while sqTail > QUEUE_SIZE
          invariant Rebased(State()) == Grabbed(old(State()))
        {
          sqTail := sqTail - QUEUE_SIZE;
          sqHead := sqHead - QUEUE_SIZE;
        }
      }
    }

    /** The locked part of produce_socket, once its wait is over. */
    method ProduceSocket(sp: Socket) returns (queued: bool)
      requires Valid()
      modifies this, queue
      ensures Valid()
      ensures queued == (old(|Contents(State())|) < QUEUE_SIZE)
      ensures State() == if queued then Added(old(State()), sp) else old(State())
      ensures Contents(State()) == if queued then old(Contents(State())) + [sp] else old(Contents(State()))
    {
      queued := sqHead - sqTail < QUEUE_SIZE;
      if queued {
        AddedEnqueues(State(), sp);
        queue[sqHead % QUEUE_SIZE] := sp;
        sqHead := sqHead + 1;
      }
    }
  }
}
