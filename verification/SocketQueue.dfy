/** The queue of accepted sockets between the master thread and the workers. A step is one stretch of a
    thread's run under the mutex: from taking it to waiting on a condition or to releasing it. */
module SocketQueue {
  type Socket = int

  const QUEUE_SIZE := 20

  /** One stretch under the mutex. The stop flag is set outside the mutex, so each reading of it is an input. */
  datatype Step =
    | Produce(sp: Socket, stop: bool)
    | Consume(stop: bool, stopAfter: bool)

  datatype Outcome =
    | Waits
    | Queued(sp: Socket)
    | Dropped
    | Taken(sp: Socket, again: bool)
    | NoneLeft(again: bool)

  class Context {
    const queue: array<Socket>
    var sqHead: int
    var sqTail: int

    /** The sockets in the queue, oldest first. */
    ghost var waiting: seq<Socket>

    ghost predicate Valid()
      reads this, queue
    {
      && queue.Length == QUEUE_SIZE
      && 0 <= sqTail <= QUEUE_SIZE && sqHead - sqTail == |waiting| <= QUEUE_SIZE
      && Holds(queue[..], sqTail, waiting)
    }

    constructor ()
      ensures Valid() && waiting == [] && fresh(queue)
    {
      queue := new Socket[QUEUE_SIZE];
      sqHead, sqTail := 0, 0;
      waiting := [];
    }

    /** The master's part: waits if the queue is full, unless stopping; then a full queue drops the socket. */
    method ProduceSocket(sp: Socket, stop: bool) returns (outcome: Outcome)
      requires Valid()
      modifies this, queue
      ensures Valid()
      ensures outcome == if |old(waiting)| < QUEUE_SIZE then Queued(sp) else if stop then Dropped else Waits
      ensures waiting == old(waiting) + if outcome.Queued? then [sp] else []
    {
      if !stop && sqHead - sqTail >= queue.Length {
        return Waits;
      }
      if sqHead - sqTail < queue.Length {
        PutKeepsOthers(queue[..], sqTail, waiting, sp);
        queue[sqHead % queue.Length] := sp;
        sqHead := sqHead + 1;
        waiting := waiting + [sp];
        outcome := Queued(sp);
      } else {
        outcome := Dropped;
      }
    }

    /** A worker's part: waits if the queue is empty, unless stopping; then takes the oldest socket, if any. */
    method ConsumeSocket(stop: bool, stopAfter: bool) returns (outcome: Outcome)
      requires Valid()
      modifies this
      ensures Valid()
      ensures outcome == if old(waiting) != [] then Taken(old(waiting)[0], !stopAfter)
                         else if stop then NoneLeft(!stopAfter) else Waits
      ensures waiting == if outcome.Taken? then old(waiting)[1..] else old(waiting)
    {
      if sqHead == sqTail && !stop {
        return Waits;
      }
      if sqHead > sqTail {
        var sp := queue[sqTail % queue.Length];
        sqTail := sqTail + 1;
        waiting := waiting[1..];
        Rebase();
        outcome := Taken(sp, !stopAfter);
      } else {
        outcome := NoneLeft(!stopAfter);
      }
    }

    /** Keeps the indices small; every index stays on its slot. */
    method Rebase()
      requires queue.Length == QUEUE_SIZE && 0 <= sqTail && sqHead - sqTail == |waiting|
      requires Holds(queue[..], sqTail, waiting)
      modifies `sqHead, `sqTail
      ensures 0 <= sqTail <= QUEUE_SIZE && sqHead - sqTail == |waiting| && Holds(queue[..], sqTail, waiting)
      ensures Slot(sqTail) == Slot(old(sqTail))
    {
      while sqTail > queue.Length
        invariant 0 <= sqTail && sqHead - sqTail == |waiting| && Holds(queue[..], sqTail, waiting)
        invariant Slot(sqTail) == Slot(old(sqTail))
      {
        SameSlots(queue[..], sqTail, waiting);
        sqTail := sqTail - queue.Length;
        sqHead := sqHead - queue.Length;
      }
    }
  }

  /** The slot of an index. */
  function Slot(i: int): (slot: nat)
    ensures slot < QUEUE_SIZE
  {
    i % QUEUE_SIZE
  }

  /** The sockets are in consecutive slots from index tail on, around the end of the array. */
  ghost predicate Holds(slots: seq<Socket>, tail: int, sockets: seq<Socket>) {
    |slots| == QUEUE_SIZE && 0 <= tail && forall k :: 0 <= k < |sockets| ==> slots[Slot(tail + k)] == sockets[k]
  }

  lemma PutKeepsOthers(slots: seq<Socket>, tail: int, sockets: seq<Socket>, sp: Socket)
    requires Holds(slots, tail, sockets) && |sockets| < QUEUE_SIZE
    ensures Holds(slots[Slot(tail + |sockets|) := sp], tail, sockets + [sp])
  {
    forall k | 0 <= k < |sockets|
      ensures slots[Slot(tail + |sockets|) := sp][Slot(tail + k)] == sockets[k]
    {
      OtherSlot(tail + k, |sockets| - k);
    }
  }

  lemma OtherSlot(i: int, d: int)
    requires 0 < d < QUEUE_SIZE
    ensures Slot(i) != Slot(i + d)
  {}

  lemma SameSlots(slots: seq<Socket>, tail: int, sockets: seq<Socket>)
    requires Holds(slots, tail, sockets) && tail >= QUEUE_SIZE
    ensures Holds(slots, tail - QUEUE_SIZE, sockets) && Slot(tail - QUEUE_SIZE) == Slot(tail)
  {
    hide Slot;
    OneRound(tail);
    forall k | 0 <= k < |sockets|
      ensures slots[Slot(tail - QUEUE_SIZE + k)] == sockets[k]
    {
      OneRound(tail + k);
    }
  }

  lemma OneRound(i: int)
    ensures Slot(i - QUEUE_SIZE) == Slot(i)
  {}

  // ----- runs

  /** The sockets that went into the queue, and those that came out, in order. */
  function PutIn(log: seq<Outcome>): seq<Socket> {
    if log == [] then []
    else PutIn(log[..|log| - 1]) + if log[|log| - 1].Queued? then [log[|log| - 1].sp] else []
  }

  function TakenOut(log: seq<Outcome>): seq<Socket> {
    if log == [] then []
    else TakenOut(log[..|log| - 1]) + if log[|log| - 1].Taken? then [log[|log| - 1].sp] else []
  }

  /** What may come of a step: a produced socket is queued as it is, and dropped only when stopping. */
  predicate Possible(step: Step, outcome: Outcome) {
    match step
    case Produce(sp, stop) => outcome == Queued(sp) || outcome == if stop then Dropped else Waits
    case Consume(stop, stopAfter) =>
      (outcome.Taken? && outcome.again == !stopAfter) || outcome == if stop then NoneLeft(!stopAfter) else Waits
  }

  /** After the first n steps, the sockets taken are the first ones queued, and at most a queue's size less. */
  predicate InOrder(log: seq<Outcome>, n: nat)
    requires n <= |log|
  {
    TakenOut(log[..n]) <= PutIn(log[..n]) && |PutIn(log[..n])| - |TakenOut(log[..n])| <= QUEUE_SIZE
  }

  /** Any interleaving of the master's and the workers' steps: what came out, and then what is still waiting,
      is what went in, in that order. */
  method Run(context: Context, steps: seq<Step>) returns (log: seq<Outcome>)
    requires context.Valid() && context.waiting == []
    modifies context, context.queue
    ensures context.Valid() && |log| == |steps| && forall i :: 0 <= i < |log| ==> Possible(steps[i], log[i])
    ensures PutIn(log) == TakenOut(log) + context.waiting
    ensures forall n :: 0 <= n <= |log| ==> InOrder(log, n)
  {
    hide InOrder, PutIn, TakenOut, Holds;
    log := [];
    NothingYet();
    for i := 0 to |steps|
      invariant context.Valid() && |log| == i && forall k :: 0 <= k < i ==> Possible(steps[k], log[k])
      invariant PutIn(log) == TakenOut(log) + context.waiting
      invariant forall n :: 0 <= n <= i ==> InOrder(log, n)
    {
      ghost var before := context.waiting;
      var outcome := Perform(context, steps[i]);
      Logged(log, outcome, before, context.waiting);
      OneMore(log, outcome, context.waiting);
      log := log + [outcome];
    }
  }

  /** A step has its effect on the sockets waiting. */
  predicate Effect(outcome: Outcome, before: seq<Socket>, after: seq<Socket>) {
    if outcome.Taken? then before != [] && outcome.sp == before[0] && after == before[1..]
    else after == before + if outcome.Queued? then [outcome.sp] else []
  }

  method Perform(context: Context, step: Step) returns (outcome: Outcome)
    requires context.Valid()
    modifies context, context.queue
    ensures context.Valid() && Possible(step, outcome) && Effect(outcome, old(context.waiting), context.waiting)
  {
    match step {
      case Produce(sp, stop) => outcome := context.ProduceSocket(sp, stop);
      case Consume(stop, stopAfter) => outcome := context.ConsumeSocket(stop, stopAfter);
    }
  }

  lemma NothingYet()
    ensures PutIn([]) == TakenOut([]) + [] && InOrder([], 0)
  {}

  lemma OneMore(log: seq<Outcome>, outcome: Outcome, waiting: seq<Socket>)
    requires forall n :: 0 <= n <= |log| ==> InOrder(log, n)
    requires PutIn(log + [outcome]) == TakenOut(log + [outcome]) + waiting && |waiting| <= QUEUE_SIZE
    ensures forall n :: 0 <= n <= |log| + 1 ==> InOrder(log + [outcome], n)
  {
    var log' := log + [outcome];
    assert log'[..|log'|] == log';
    assert InOrder(log', |log'|);
    hide PutIn, TakenOut;
    forall n | 0 <= n <= |log|
      ensures InOrder(log', n)
    {
      assert log'[..n] == log[..n] && InOrder(log, n);
    }
  }

  lemma Logged(log: seq<Outcome>, outcome: Outcome, before: seq<Socket>, after: seq<Socket>)
    requires PutIn(log) == TakenOut(log) + before
    requires Effect(outcome, before, after)
    ensures PutIn(log + [outcome]) == TakenOut(log + [outcome]) + after
  {
    assert (log + [outcome])[..|log|] == log;
    if outcome.Taken? {
      assert before == [before[0]] + after;
    }
  }
}
