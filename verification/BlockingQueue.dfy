/** The multi-producer, multi-consumer queue: its critical sections over the ring buffer, and every
    interleaving of them with the waits and notifications of its two condition variables. */
module BlockingQueue {
  import opened CircularQueue

  class MpmcBlockingQueue<T(0)> {
    const q: CircularQ<T>
    var discardCounter: nat

    ghost predicate Valid()
      reads this, q
    {
      q.Valid() && q.Enabled()
    }

    constructor (maxItems: nat)
      ensures Valid() && fresh(q) && fresh(q.v)
      ensures q.Capacity() == maxItems && q.Contents() == [] && q.overrunCounter == 0 && discardCounter == 0
    {
      q := new CircularQ<T>(maxItems);
      discardCounter := 0;
    }

    /** The critical section of `enqueue`; when the queue is full, the producer waits instead. */
    method Enqueue(item: T) returns (waits: bool)
      requires Valid()
      modifies q, q.v
      ensures Valid() && q.v == old(q.v) && q.Capacity() == old(q.Capacity())
      ensures waits == (|old(q.Contents())| == q.Capacity()) && q.overrunCounter == old(q.overrunCounter)
      ensures q.Contents() == if waits then old(q.Contents()) else old(q.Contents()) + [item]
    {
      waits := q.IsFull();
      if !waits {
        q.PushBack(item);
      }
    }

    method EnqueueNowait(item: T)
      requires Valid()
      modifies q, q.v
      ensures Valid() && q.v == old(q.v) && q.Capacity() == old(q.Capacity())
      ensures q.Contents() == Pushed(old(q.Contents()), q.Capacity(), item)
      ensures q.overrunCounter == old(q.overrunCounter) + if |old(q.Contents())| == q.Capacity() then 1 else 0
    {
      q.PushBack(item);
    }

    method EnqueueIfHaveRoom(item: T)
      requires Valid()
      modifies this, q, q.v
      ensures Valid() && q.v == old(q.v) && q.Capacity() == old(q.Capacity())
              && q.overrunCounter == old(q.overrunCounter)
      ensures var room := |old(q.Contents())| < q.Capacity();
              q.Contents() == (if room then old(q.Contents()) + [item] else old(q.Contents()))
              && discardCounter == old(discardCounter) + if room then 0 else 1
    {
      var full := q.IsFull();
      if !full {
        q.PushBack(item);
      } else {
        discardCounter := discardCounter + 1;
      }
    }

    /** The critical section of `dequeue` and `dequeue_for`; on an empty queue the consumer waits (or its
        time is up). */
    method Dequeue(default: T) returns (waits: bool, item: T)
      requires Valid()
      modifies q
      ensures Valid() && q.v == old(q.v) && q.Capacity() == old(q.Capacity())
              && q.overrunCounter == old(q.overrunCounter)
      ensures waits == (old(q.Contents()) == [])
      ensures q.Contents() == (if waits then [] else old(q.Contents())[1..])
      ensures !waits ==> item == old(q.Contents())[0]
    {
      item := default;
      waits := q.IsEmpty();
      if !waits {
        item := q.Front();
        q.PopFront();
      }
    }
  }

  // ----- Interleavings -----

  /** The queue with its threads. `accepted` and `removed` are the histories of both ends (`wasTaken` tells
      which of the removed items went to a consumer, and which were overrun), `taken` that of the consumers; a
      waiting producer is the item it wants to enqueue. */
  datatype Queue<T> = Queue(
    capacity: nat,
    contents: seq<T>,
    overrunCounter: nat,
    discardCounter: nat,
    offered: nat,
    accepted: seq<T>,
    removed: seq<T>,
    wasTaken: seq<bool>,
    taken: seq<T>,
    uncountedDiscards: nat,       // offers found no room, the counter not yet incremented
    waitingProducers: multiset<T>,
    wokenProducers: multiset<T>,
    waitingConsumers: nat,
    wokenConsumers: nat,
    pushNotices: nat,             // notifications of the consumers still to be sent
    popNotices: nat)              // notifications of the producers still to be sent

  datatype Action<T> =
    | Enqueue(item: T)
    | ProducerResumes(item: T)
    | EnqueueNowait(item: T)
    | EnqueueIfHaveRoom(item: T)
    | CountDiscard
    | Dequeue
    | ConsumerResumes
    | ConsumerGivesUp
    | NotifyConsumer
    | NotifyProducer(item: T)     // the waiting producer that is woken, if there is one
    | WakeConsumer                // time is up, or a spurious wake-up
    | WakeProducer(item: T)

  function Fresh<T>(capacity: nat): Queue<T> {
    Queue(capacity, [], 0, 0, 0, [], [], [], [], 0, multiset{}, multiset{}, 0, 0, 0, 0)
  }

  predicate Full<T>(s: Queue<T>) {
    |s.contents| == s.capacity
  }

  predicate Enabled<T(==)>(s: Queue<T>, a: Action<T>) {
    match a
    case Enqueue(_) => true
    case EnqueueNowait(_) => true
    case EnqueueIfHaveRoom(_) => true
    case Dequeue => true
    case ProducerResumes(item) => item in s.wokenProducers
    case CountDiscard => s.uncountedDiscards > 0
    case ConsumerResumes => s.wokenConsumers > 0
    case ConsumerGivesUp => s.wokenConsumers > 0 && s.contents == []
    case NotifyConsumer => s.pushNotices > 0
    case NotifyProducer(item) => s.popNotices > 0 && (item in s.waitingProducers || s.waitingProducers == multiset{})
    case WakeConsumer => s.waitingConsumers > 0
    case WakeProducer(item) => item in s.waitingProducers
  }

  /** `push_back` followed by releasing the mutex; the notification is still to come. */
  function Push<T>(s: Queue<T>, item: T): Queue<T>
    requires |s.contents| <= s.capacity
  {
    var pushed := s.(contents := Pushed(s.contents, s.capacity, item), accepted := s.accepted + [item],
                     pushNotices := s.pushNotices + 1);
    if Full(s) then
      pushed.(overrunCounter := s.overrunCounter + 1, removed := s.removed + [(s.contents + [item])[0]],
              wasTaken := s.wasTaken + [false])
    else pushed
  }

  function Take<T>(s: Queue<T>): Queue<T>
    requires s.contents != []
  {
    s.(contents := s.contents[1..], removed := s.removed + [s.contents[0]], wasTaken := s.wasTaken + [true],
       taken := s.taken + [s.contents[0]], popNotices := s.popNotices + 1)
  }

  function Step<T>(s: Queue<T>, a: Action<T>): Queue<T>
    requires |s.contents| <= s.capacity && Enabled(s, a)
  {
    match a
    case Enqueue(item) =>
      var t := s.(offered := s.offered + 1);
      if Full(s) then t.(waitingProducers := s.waitingProducers + multiset{item}) else Push(t, item)
    case ProducerResumes(item) =>
      var t := s.(wokenProducers := s.wokenProducers - multiset{item});
      if Full(s) then t.(waitingProducers := s.waitingProducers + multiset{item}) else Push(t, item)
    case EnqueueNowait(item) => Push(s.(offered := s.offered + 1), item)
    case EnqueueIfHaveRoom(item) =>
      var t := s.(offered := s.offered + 1);
      if Full(s) then t.(uncountedDiscards := s.uncountedDiscards + 1) else Push(t, item)
    case CountDiscard =>
      s.(uncountedDiscards := s.uncountedDiscards - 1, discardCounter := s.discardCounter + 1)
    case Dequeue => if s.contents == [] then s.(waitingConsumers := s.waitingConsumers + 1) else Take(s)
    case ConsumerResumes =>
      var t := s.(wokenConsumers := s.wokenConsumers - 1);
      if s.contents == [] then t.(waitingConsumers := s.waitingConsumers + 1) else Take(t)
    case ConsumerGivesUp => s.(wokenConsumers := s.wokenConsumers - 1)
    case NotifyConsumer =>
      var t := s.(pushNotices := s.pushNotices - 1);
      if s.waitingConsumers == 0 then t
      else t.(waitingConsumers := s.waitingConsumers - 1, wokenConsumers := s.wokenConsumers + 1)
    case NotifyProducer(item) =>
      var t := s.(popNotices := s.popNotices - 1);
      if item !in s.waitingProducers then t else Woken(t, item)
    case WakeConsumer => s.(waitingConsumers := s.waitingConsumers - 1, wokenConsumers := s.wokenConsumers + 1)
    case WakeProducer(item) => Woken(s, item)
  }

  function Woken<T>(s: Queue<T>, item: T): Queue<T> {
    s.(waitingProducers := s.waitingProducers - multiset{item}, wokenProducers := s.wokenProducers + multiset{item})
  }

  /** The items whose flag is set, in order. */
  function Selected<T>(items: seq<T>, flags: seq<bool>): (r: seq<T>)
    requires |items| == |flags|
    ensures |r| <= |items|
  {
    if items == [] then []
    else
      var n := |items| - 1;
      Selected(items[..n], flags[..n]) + if flags[n] then [items[n]] else []
  }

  lemma SelectedOneMore<T>(items: seq<T>, flags: seq<bool>, item: T, flag: bool)
    requires |items| == |flags|
    ensures Selected(items + [item], flags + [flag]) == Selected(items, flags) + if flag then [item] else []
  {
    assert (items + [item])[..|items|] == items && (flags + [flag])[..|flags|] == flags;
  }

  lemma {:induction false} AllSelected<T>(items: seq<T>, flags: seq<bool>)
    requires |items| == |flags| && |Selected(items, flags)| == |items|
    ensures Selected(items, flags) == items
  {
    if items != [] {
      var n := |items| - 1;
      assert items == items[..n] + [items[n]];
      AllSelected(items[..n], flags[..n]);
    }
  }

  /** First in, first out: what was taken is what was removed, in order, without what was overrun. Further,
      the counters; and nothing offered is unaccounted for. */
  ghost predicate Conserved<T>(s: Queue<T>) {
    && |s.contents| <= s.capacity
    && s.accepted == s.removed + s.contents
    && |s.wasTaken| == |s.removed| && s.taken == Selected(s.removed, s.wasTaken)
    && |s.removed| == |s.taken| + s.overrunCounter
    && s.offered == |s.accepted| + s.discardCounter + s.uncountedDiscards + |s.waitingProducers| + |s.wokenProducers|
  }

  /** Somebody is on the way for every item that a sleeping consumer could take, and for every free place
      that a sleeping producer could fill. */
  ghost predicate NoSleepThroughWork<T>(s: Queue<T>) {
    && (s.waitingConsumers > 0 ==> |s.contents| <= s.pushNotices + s.wokenConsumers)
    && (s.waitingProducers != multiset{} ==> s.capacity <= |s.contents| + s.popNotices + |s.wokenProducers|)
  }

  lemma PushConserves<T>(s: Queue<T>, item: T)
    requires s.offered > 0 && Conserved(s.(offered := s.offered - 1))
    ensures Conserved(Push(s, item))
  {
    hide Selected;
    if Full(s) {
      var all := s.contents + [item];
      assert s.removed + s.contents + [item] == s.removed + all;
      assert all == [all[0]] + all[1..];
      assert s.removed + ([all[0]] + all[1..]) == (s.removed + [all[0]]) + all[1..];
      SelectedOneMore(s.removed, s.wasTaken, all[0], false);
    }
  }

  lemma TakeConserves<T>(s: Queue<T>)
    requires Conserved(s) && s.contents != []
    ensures Conserved(Take(s))
  {
    hide Selected;
    assert s.contents == [s.contents[0]] + s.contents[1..];
    SelectedOneMore(s.removed, s.wasTaken, s.contents[0], true);
  }

  lemma ProducerConserves<T>(s: Queue<T>, a: Action<T>)
    requires Conserved(s) && Enabled(s, a)
             && (a.Enqueue? || a.EnqueueNowait? || a.EnqueueIfHaveRoom? || a.ProducerResumes?)
    ensures Conserved(Step(s, a))
  {
    if a.ProducerResumes? {
      var t := s.(wokenProducers := s.wokenProducers - multiset{a.item});
      if !Full(s) {
        PushConserves(t, a.item);
      }
    } else if !Full(s) || a.EnqueueNowait? {
      PushConserves(s.(offered := s.offered + 1), a.item);
    }
    hide Push;
  }

  lemma ConsumerConserves<T>(s: Queue<T>, a: Action<T>)
    requires Conserved(s) && Enabled(s, a) && (a.Dequeue? || a.ConsumerResumes?)
    ensures Conserved(Step(s, a))
  {
    var t := if a.Dequeue? then s else s.(wokenConsumers := s.wokenConsumers - 1);
    if s.contents != [] {
      TakeConserves(t);
    }
    hide Take;
  }

  lemma StepConserves<T>(s: Queue<T>, a: Action<T>)
    requires Conserved(s) && Enabled(s, a)
    ensures Conserved(Step(s, a))
  {
    match a
    case Enqueue(_) => ProducerConserves(s, a);
    case EnqueueNowait(_) => ProducerConserves(s, a);
    case EnqueueIfHaveRoom(_) => ProducerConserves(s, a);
    case ProducerResumes(_) => ProducerConserves(s, a);
    case Dequeue => ConsumerConserves(s, a);
    case ConsumerResumes => ConsumerConserves(s, a);
    case _ =>
  }

  lemma StepKeepsWatch<T>(s: Queue<T>, a: Action<T>)
    requires Conserved(s) && NoSleepThroughWork(s) && Enabled(s, a)
    ensures NoSleepThroughWork(Step(s, a))
  {
  }

  function Run<T>(s: Queue<T>, actions: seq<Action<T>>): (r: Queue<T>)
    requires |s.contents| <= s.capacity && CanRun(s, actions)
    decreases |actions|
  {
    if actions == [] then s else Run(Step(s, actions[0]), actions[1..])
  }

  predicate CanRun<T(==)>(s: Queue<T>, actions: seq<Action<T>>)
    requires |s.contents| <= s.capacity
    decreases |actions|
  {
    actions == []
    || (Enabled(s, actions[0]) && |Step(s, actions[0]).contents| <= Step(s, actions[0]).capacity
        && CanRun(Step(s, actions[0]), actions[1..]))
  }

  lemma {:induction false} RunKeeps<T>(s: Queue<T>, actions: seq<Action<T>>)
    requires Conserved(s) && NoSleepThroughWork(s) && CanRun(s, actions)
    ensures Conserved(Run(s, actions)) && NoSleepThroughWork(Run(s, actions))
    decreases |actions|
  {
    if actions != [] {
      StepConserves(s, actions[0]);
      StepKeepsWatch(s, actions[0]);
      RunKeeps(Step(s, actions[0]), actions[1..]);
    }
  }

  /** In any interleaving: what was accepted is what was removed and what is stored, in order; what the
      consumers took is what was removed, in order, without the items that were overrun, of which there are
      as many as counted; and when no thread is inside an operation, offered = accepted + discarded. */
  lemma QueueConserves<T>(capacity: nat, actions: seq<Action<T>>)
    requires CanRun(Fresh(capacity), actions)
    ensures var s := Run(Fresh(capacity), actions);
            && s.accepted == s.removed + s.contents
            && |s.wasTaken| == |s.removed| && s.taken == Selected(s.removed, s.wasTaken)
            && |s.accepted| == |s.taken| + |s.contents| + s.overrunCounter
            && (s.uncountedDiscards == 0 && s.waitingProducers == s.wokenProducers == multiset{} ==>
                  s.offered == |s.accepted| + s.discardCounter)
  {
    RunKeeps(Fresh(capacity), actions);
  }

  /** As long as nothing was overrun, the consumers have got exactly the accepted items that are no longer
      stored, in the order of acceptance. */
  lemma FifoUnlessOverrun<T>(capacity: nat, actions: seq<Action<T>>)
    requires CanRun(Fresh(capacity), actions)
    ensures var s := Run(Fresh(capacity), actions);
            s.overrunCounter == 0 <==> s.accepted == s.taken + s.contents
  {
    RunKeeps(Fresh(capacity), actions);
    var s := Run(Fresh(capacity), actions);
    if s.overrunCounter == 0 {
      AllSelected(s.removed, s.wasTaken);
    }
  }

  /** In any interleaving, when no notification is outstanding and no woken thread is under way: if a
      consumer sleeps, the queue is empty, and if a producer sleeps, it is full. */
  lemma NoLostWakeup<T>(capacity: nat, actions: seq<Action<T>>)
    requires CanRun(Fresh(capacity), actions)
    ensures var s := Run(Fresh(capacity), actions);
            && (s.waitingConsumers > 0 && s.pushNotices == s.wokenConsumers == 0 ==> s.contents == [])
            && (s.waitingProducers != multiset{} && s.popNotices == 0 && s.wokenProducers == multiset{} ==> Full(s))
  {
    RunKeeps(Fresh(capacity), actions);
  }

  lemma {:induction false} OnlyNowaitDrops<T>(s: Queue<T>, actions: seq<Action<T>>)
    requires Conserved(s) && CanRun(s, actions) && forall a :: a in actions ==> !a.EnqueueNowait?
    ensures Run(s, actions).overrunCounter == s.overrunCounter
    decreases |actions|
  {
    if actions != [] {
      StepConserves(s, actions[0]);
      assert actions[0] in actions;
      OnlyNowaitDrops(Step(s, actions[0]), actions[1..]);
    }
  }

  /** Without `enqueue_nowait`, nothing is ever overrun, and so the consumers get exactly the accepted items
      in the order of acceptance. */
  lemma BlockingIsFifo<T>(capacity: nat, actions: seq<Action<T>>)
    requires CanRun(Fresh(capacity), actions) && forall a :: a in actions ==> !a.EnqueueNowait?
    ensures var s := Run(Fresh(capacity), actions);
            s.overrunCounter == 0 && s.accepted == s.taken + s.contents
  {
    OnlyNowaitDrops(Fresh(capacity), actions);
    FifoUnlessOverrun(capacity, actions);
  }
}
