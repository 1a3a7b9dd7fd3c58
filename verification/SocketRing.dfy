/**
 The accepted-socket ring of mongoose: one producer and any number of workers take turns under a
 mutex. What each critical section does to the two counters and the slots, and why every
 interleaving is a FIFO queue of at most twenty sockets.
 */
module SocketRing {
  import opened Shared

  const SIZE: int := 20

  /** The shared fields, with the history of what was stored and taken. */
  datatype State<T> = State(slots: seq<T>, head: int, tail: int, stop: bool, stored: seq<T>, taken: seq<T>)

  /** A critical section that some thread runs next; a thread whose wait condition holds keeps waiting. */
  datatype Step<T> = Produce(socket: T) | Consume | Stop

  predicate ProducerWaits<T>(st: State<T>) {
    !st.stop && st.head - st.tail >= SIZE
  }

  predicate WorkerWaits<T>(st: State<T>) {
    !st.stop && st.head == st.tail
  }

  /** Counters stay in a fixed window and the slots between them hold what was stored and not yet taken. */
  ghost predicate Sound<T>(st: State<T>) {
    && |st.slots| == SIZE
    && 0 <= st.tail <= SIZE && st.tail <= st.head <= st.tail + SIZE
    && |st.stored| == |st.taken| + (st.head - st.tail)
    && st.taken == st.stored[..|st.taken|]
    && forall k :: 0 <= k < st.head - st.tail ==> Holds(st, k)
  }

  /** The k-th oldest queued socket is in its slot. */
  ghost predicate Holds<T>(st: State<T>, k: nat) {
    && |st.slots| == SIZE && |st.taken| + k < |st.stored|
    && st.slots[(st.tail + k) % SIZE] == st.stored[|st.taken| + k]
  }

  /** The sockets in the ring, oldest first. */
  ghost function Queued<T>(st: State<T>): (q: seq<T>)
    requires |st.taken| <= |st.stored|
  {
    st.stored[|st.taken|..]
  }

  function Next<T>(st: State<T>, step: Step<T>): (r: State<T>)
    requires |st.slots| == SIZE
  {
    match step
    case Stop => st.(stop := true)
    case Produce(socket) =>
      if st.head - st.tail < SIZE
      then st.(slots := st.slots[st.head % SIZE := socket], head := st.head + 1, stored := st.stored + [socket])
      else st
    case Consume =>
      if st.head > st.tail then
        var wrap := if st.tail + 1 > SIZE then SIZE else 0;
        st.(head := st.head - wrap, tail := st.tail + 1 - wrap, taken := st.taken + [st.slots[st.tail % SIZE]])
      else st
  }

  lemma {:induction false} ProduceKeepsSound<T>(st: State<T>, socket: T)
    requires Sound(st)
    ensures Sound(Next(st, Produce(socket)))
    ensures Queued(Next(st, Produce(socket))) == if |Queued(st)| < SIZE then Queued(st) + [socket] else Queued(st)
  {
    if st.head - st.tail < SIZE {
      var r := Next(st, Produce(socket));
      forall k | 0 <= k < r.head - r.tail
        ensures Holds(r, k)
      {
        if k < st.head - st.tail {
          assert Holds(st, k);
          StaysInItsSlot(st, socket, k);
        }
      }
      hide Holds;
    }
  }

  /** Storing does not touch the slots of the sockets that are queued already. */
  lemma StaysInItsSlot<T>(st: State<T>, socket: T, k: nat)
    requires |st.slots| == SIZE && 0 <= st.tail && k < st.head - st.tail < SIZE && Holds(st, k)
    ensures Holds(Next(st, Produce(socket)), k)
  {
    SlotsDiffer(st.tail + k, st.head);
  }

  /** Counters less than SIZE apart name different slots. */
  lemma SlotsDiffer(a: int, b: int)
    requires a < b < a + SIZE
    ensures a % SIZE != b % SIZE
  {
    assert a == SIZE * (a / SIZE) + a % SIZE && b == SIZE * (b / SIZE) + b % SIZE;
  }

  lemma {:induction false} ConsumeKeepsSound<T>(st: State<T>)
    requires Sound(st)
    ensures Sound(Next(st, Consume))
    ensures Queued(st) == [] ==> Next(st, Consume) == st
    ensures Queued(st) != [] ==>
      && Next(st, Consume).taken == st.taken + [Queued(st)[0]]
      && Queued(Next(st, Consume)) == Queued(st)[1..]
  {
    if st.head > st.tail {
      var r := Next(st, Consume);
      assert Holds(st, 0);
      forall k | 0 <= k < r.head - r.tail
        ensures Holds(r, k)
      {
        assert Holds(st, k + 1);
      }
    }
  }

  function Run<T>(st: State<T>, steps: seq<Step<T>>): (r: State<T>)
    requires |st.slots| == SIZE
    ensures |r.slots| == SIZE
    decreases |steps|
  {
    if steps == [] then st else Run(Next(st, steps[0]), steps[1..])
  }

  /** The same run on an abstract bounded queue: its contents and what has come out of it. */
  function RunFifo<T>(queue: seq<T>, out: seq<T>, steps: seq<Step<T>>): (r: (seq<T>, seq<T>))
    decreases |steps|
  {
    if steps == [] then (queue, out) else
      match steps[0]
      case Stop => RunFifo(queue, out, steps[1..])
      case Produce(socket) => RunFifo(if |queue| < SIZE then queue + [socket] else queue, out, steps[1..])
      case Consume =>
        if queue == [] then RunFifo(queue, out, steps[1..])
        else RunFifo(queue[1..], out + [queue[0]], steps[1..])
  }

  /**
   In every interleaving of critical sections the ring behaves as a FIFO queue of at most twenty
   sockets: what came out followed by what is queued is what was stored, in order, and the counters
   never leave their window.
   */
  lemma {:induction false} EveryRunIsAFifo<T>(st: State<T>, steps: seq<Step<T>>)
    requires Sound(st)
    ensures var r := Run(st, steps);
      && Sound(r)
      && (Queued(r), r.taken) == RunFifo(Queued(st), st.taken, steps)
      && r.taken + Queued(r) == r.stored
      && |Queued(r)| <= SIZE && 0 <= r.tail <= SIZE && r.tail <= r.head <= 2 * SIZE
    decreases |steps|
  {
    if steps != [] {
      match steps[0] {
        case Stop =>
          assert forall k :: 0 <= k < st.head - st.tail ==> Holds(st, k) && Holds(Next(st, Stop), k);
        case Produce(socket) =>
          ProduceKeepsSound(st, socket);
        case Consume =>
          ConsumeKeepsSound(st);
      }
      EveryRunIsAFifo(Next(st, steps[0]), steps[1..]);
    }
  }

  class SocketQueue<T(0)> {
    const queue: array<T>
    var sqHead: int
    var sqTail: int
    var stopFlag: bool
    ghost var stored: seq<T>
    ghost var taken: seq<T>

    ghost function Snapshot(): State<T>
      reads this, queue
    {
      State(queue[..], sqHead, sqTail, stopFlag, stored, taken)
    }

    ghost predicate Valid()
      reads this, queue
    {
      queue.Length == SIZE && Sound(Snapshot())
    }

    constructor ()
      ensures Valid() && fresh(queue) && Queued(Snapshot()) == [] && !stopFlag
    {
      queue := new T[SIZE];
      sqHead, sqTail, stopFlag := 0, 0, false;
      stored, taken := [], [];
    }

    /** produce_socket, from the moment its wait is over; a full ring is only seen here when stopping. */
    method ProduceSocket(socket: T)
      requires Valid() && !ProducerWaits(Snapshot())
      modifies this, queue
      ensures Valid() && Snapshot() == Next(old(Snapshot()), Produce(socket))
    {
      ProduceKeepsSound(Snapshot(), socket);
      hide Sound, Queued;
      if sqHead - sqTail < SIZE {
        queue[sqHead % SIZE] := socket;
        sqHead := sqHead + 1;
        stored := stored + [socket];
      }
    }

    /** consume_socket, from the moment its wait is over. The flag says whether the worker goes on. */
    method ConsumeSocket() returns (socket: Option<T>, running: bool)
      requires Valid() && !WorkerWaits(Snapshot())
      modifies this
      ensures Valid() && Snapshot() == Next(old(Snapshot()), Consume)
      ensures running == !stopFlag
      ensures socket == if old(Queued(Snapshot())) == [] then None else Some(old(Queued(Snapshot()))[0])
      ensures socket == None ==> !running
    {
      ConsumeKeepsSound(Snapshot());
      OldestInTailSlot(Snapshot());
      hide Sound, Queued;
      socket := None;
      if sqHead > sqTail {
        socket := Some(queue[sqTail % SIZE]);
        taken := taken + [queue[sqTail % SIZE]];
        sqTail := sqTail + 1;
        WrapCounters();
      }
      running := !stopFlag;
    }

    /** The loop that brings the counters back into their window. */
    method WrapCounters()
      requires sqTail <= SIZE + 1
      modifies this`sqHead, this`sqTail
      ensures var wrap := if old(sqTail) > SIZE then SIZE else 0;
        sqHead == old(sqHead) - wrap && sqTail == old(sqTail) - wrap
    {
      while sqTail > SIZE
        invariant sqHead - sqTail == old(sqHead) - old(sqTail)
        invariant sqTail == old(sqTail) || (old(sqTail) == SIZE + 1 && sqTail == 1)
        decreases sqTail
      {
        sqTail := sqTail - SIZE;
        sqHead := sqHead - SIZE;
      }
    }
  }

  /** The oldest queued socket stands in the tail slot; equal counters mean that there is none. */
  lemma OldestInTailSlot<T>(st: State<T>)
    requires Sound(st)
    ensures Queued(st) == [] <==> st.head == st.tail
    ensures st.tail <= SIZE && st.tail <= st.head && |st.slots| == SIZE
    ensures st.head > st.tail ==> Queued(st) != [] && st.slots[st.tail % SIZE] == Queued(st)[0]
  {
    if st.head > st.tail {
      assert Holds(st, 0);
    }
  }
}
