/** What the blocking queue has become, read off the history of its operations: which offers were accepted,
    refused or kept waiting depends only on whether each found the queue full. */
module QueueHistory {
  import opened BlockingQueue

  /** What an operation can amount to, given what it finds. */
  datatype Kind = Offer | Acceptance | Overrun | Refusal | Counting | Taking | Blocking | Unblocking
                | Sleeping | Waking | PushNotice | PopNotice

  predicate Is<T>(kind: Kind, a: Action<T>, full: bool, empty: bool) {
    match kind
    case Offer => a.Enqueue? || a.EnqueueNowait? || a.EnqueueIfHaveRoom?
    case Acceptance =>
      a.EnqueueNowait? || (!full && (a.Enqueue? || a.ProducerResumes? || a.EnqueueIfHaveRoom?))
    case Overrun => a.EnqueueNowait? && full
    case Refusal => a.EnqueueIfHaveRoom? && full
    case Counting => a.CountDiscard?
    case Taking => !empty && (a.Dequeue? || a.ConsumerResumes?)
    case Blocking => a.Enqueue? && full
    case Unblocking => a.ProducerResumes? && !full
    case Sleeping => a.Dequeue? && empty
    case Waking => a.ConsumerGivesUp? || (a.ConsumerResumes? && !empty)
    case PushNotice => a.NotifyConsumer?
    case PopNotice => a.NotifyProducer?
  }

  /** The operation amounts to this in the state that it finds. */
  predicate Does<T>(kind: Kind, s: Queue<T>, a: Action<T>) {
    Is(kind, a, |s.contents| == s.capacity, s.contents == [])
  }

  /** How many of the operations of a run amount to this. */
  function Count<T>(kind: Kind, s: Queue<T>, actions: seq<Action<T>>): nat
    requires |s.contents| <= s.capacity && CanRun(s, actions)
    decreases |actions|
  {
    if actions == [] then 0
    else (if Does(kind, s, actions[0]) then 1 else 0) + Count(kind, Step(s, actions[0]), actions[1..])
  }

  /** The item that an operation offers, if any. */
  function ItemOf<T>(a: Action<T>): seq<T> {
    match a
    case Enqueue(item) => [item]
    case ProducerResumes(item) => [item]
    case EnqueueNowait(item) => [item]
    case EnqueueIfHaveRoom(item) => [item]
    case _ => []
  }

  /** The items of the operations that amount to this, in order. */
  function Items<T>(kind: Kind, s: Queue<T>, actions: seq<Action<T>>): seq<T>
    requires |s.contents| <= s.capacity && CanRun(s, actions)
    decreases |actions|
  {
    if actions == [] then []
    else (if Does(kind, s, actions[0]) then ItemOf(actions[0]) else []) + Items(kind, Step(s, actions[0]), actions[1..])
  }

  function One(b: bool): nat {
    if b then 1 else 0
  }

  // ----- What one operation changes -----

  lemma StepOffers<T>(s: Queue<T>, a: Action<T>)
    requires |s.contents| <= s.capacity && Enabled(s, a)
    ensures var t := Step(s, a);
            && t.capacity == s.capacity && t.offered == s.offered + One(Does(Offer, s, a))
            && t.accepted == s.accepted + (if Does(Acceptance, s, a) then ItemOf(a) else [])
  {
    hide CircularQueue.Pushed;
  }

  lemma StepCounters<T>(s: Queue<T>, a: Action<T>)
    requires |s.contents| <= s.capacity && Enabled(s, a)
    ensures var t := Step(s, a);
            && t.overrunCounter == s.overrunCounter + One(Does(Overrun, s, a))
            && t.uncountedDiscards + t.discardCounter
               == s.uncountedDiscards + s.discardCounter + One(Does(Refusal, s, a))
            && t.discardCounter == s.discardCounter + One(Does(Counting, s, a))
  {
    hide CircularQueue.Pushed;
  }

  lemma StepTakes<T>(s: Queue<T>, a: Action<T>)
    requires |s.contents| <= s.capacity && Enabled(s, a)
    ensures var t := Step(s, a);
            && |t.taken| == |s.taken| + One(Does(Taking, s, a))
            && t.popNotices + One(Does(PopNotice, s, a)) == s.popNotices + One(Does(Taking, s, a))
  {
    hide CircularQueue.Pushed;
  }

  lemma StepNotifies<T>(s: Queue<T>, a: Action<T>)
    requires |s.contents| <= s.capacity && Enabled(s, a)
    ensures Step(s, a).pushNotices + One(Does(PushNotice, s, a)) == s.pushNotices + One(Does(Acceptance, s, a))
  {
    hide CircularQueue.Pushed;
  }

  function Own<T>(kind: Kind, s: Queue<T>, a: Action<T>): multiset<T> {
    if Does(kind, s, a) then multiset(ItemOf(a)) else multiset{}
  }

  lemma WakingProducers<T>(s: Queue<T>, a: Action<T>)
    requires |s.contents| <= s.capacity && Enabled(s, a) && (a.NotifyProducer? || a.WakeProducer?)
    ensures var t := Step(s, a);
            t.waitingProducers + t.wokenProducers + Own(Unblocking, s, a)
            == s.waitingProducers + s.wokenProducers + Own(Blocking, s, a)
  {
    assert Own(Unblocking, s, a) == Own(Blocking, s, a) == multiset{};
    if a.item in s.waitingProducers {
      assert s.waitingProducers - multiset{a.item} + multiset{a.item} == s.waitingProducers;
    }
  }

  lemma Moved<T>(m: multiset<T>, w: multiset<T>, x: T)
    requires x in w
    ensures (m + multiset{x}) + (w - multiset{x}) == m + w && m + (w - multiset{x}) + multiset{x} == m + w
  {
    assert w - multiset{x} + multiset{x} == w;
  }

  lemma ProducerEnters<T>(s: Queue<T>, item: T)
    requires |s.contents| <= s.capacity
    ensures var t, a := Step(s, Enqueue(item)), Enqueue(item);
            t.waitingProducers + t.wokenProducers + Own(Unblocking, s, a)
            == s.waitingProducers + s.wokenProducers + Own(Blocking, s, a)
  {
    hide CircularQueue.Pushed;
    assert Own(Unblocking, s, Enqueue(item)) == multiset{};
  }

  lemma ProducerResumes<T>(s: Queue<T>, item: T)
    requires |s.contents| <= s.capacity && item in s.wokenProducers
    ensures var t, a := Step(s, BlockingQueue.ProducerResumes(item)), BlockingQueue.ProducerResumes(item);
            t.waitingProducers + t.wokenProducers + Own(Unblocking, s, a)
            == s.waitingProducers + s.wokenProducers + Own(Blocking, s, a)
  {
    hide CircularQueue.Pushed;
    Moved(s.waitingProducers, s.wokenProducers, item);
    assert Own(Blocking, s, BlockingQueue.ProducerResumes(item)) == multiset{};
  }

  lemma StepWaitsProducers<T>(s: Queue<T>, a: Action<T>)
    requires |s.contents| <= s.capacity && Enabled(s, a)
    ensures var t := Step(s, a);
            t.waitingProducers + t.wokenProducers + Own(Unblocking, s, a)
            == s.waitingProducers + s.wokenProducers + Own(Blocking, s, a)
  {
    match a
    case Enqueue(item) => ProducerEnters(s, item);
    case ProducerResumes(item) => ProducerResumes(s, item);
    case NotifyProducer(_) => WakingProducers(s, a);
    case WakeProducer(_) => WakingProducers(s, a);
    case _ =>
      hide CircularQueue.Pushed;
      assert Own(Unblocking, s, a) == Own(Blocking, s, a) == multiset{};
  }

  lemma StepWaitsConsumers<T>(s: Queue<T>, a: Action<T>)
    requires |s.contents| <= s.capacity && Enabled(s, a)
    ensures var t := Step(s, a);
            t.waitingConsumers + t.wokenConsumers + One(Does(Waking, s, a))
            == s.waitingConsumers + s.wokenConsumers + One(Does(Sleeping, s, a))
  {
    hide CircularQueue.Pushed;
  }

  /** The run so far, as far as it can be counted. */
  ghost predicate Counted<T>(s: Queue<T>, t: Queue<T>, actions: seq<Action<T>>)
    requires |s.contents| <= s.capacity && CanRun(s, actions)
  {
    && t.offered == s.offered + Count(Offer, s, actions)
    && t.overrunCounter == s.overrunCounter + Count(Overrun, s, actions)
    && t.uncountedDiscards + t.discardCounter == s.uncountedDiscards + s.discardCounter + Count(Refusal, s, actions)
    && t.discardCounter == s.discardCounter + Count(Counting, s, actions)
    && |t.taken| == |s.taken| + Count(Taking, s, actions)
  }

  lemma {:induction false} RunCounts<T>(s: Queue<T>, actions: seq<Action<T>>)
    requires Conserved(s) && CanRun(s, actions)
    ensures Counted(s, Run(s, actions), actions) && Run(s, actions).capacity == s.capacity
    ensures Run(s, actions).accepted == s.accepted + Items(Acceptance, s, actions)
    decreases |actions|
  {
    if actions != [] {
      var a := actions[0];
      StepConserves(s, a);
      StepOffers(s, a);
      StepCounters(s, a);
      StepTakes(s, a);
      RunCounts(Step(s, a), actions[1..]);
      hide Step, Does, Conserved, Enabled;
      Joined(s.accepted, if Does(Acceptance, s, a) then ItemOf(a) else [],
             Items(Acceptance, Step(s, a), actions[1..]));
    }
  }

  lemma Joined<T>(a: seq<T>, b: seq<T>, c: seq<T>)
    ensures a + b + c == a + (b + c)
  {
  }

  lemma {:induction false} RunWaitsConsumers<T>(s: Queue<T>, actions: seq<Action<T>>)
    requires |s.contents| <= s.capacity && CanRun(s, actions)
    ensures var t := Run(s, actions);
            && t.waitingConsumers + t.wokenConsumers + Count(Waking, s, actions)
               == s.waitingConsumers + s.wokenConsumers + Count(Sleeping, s, actions)
            && t.pushNotices + Count(PushNotice, s, actions) == s.pushNotices + Count(Acceptance, s, actions)
            && t.popNotices + Count(PopNotice, s, actions) == s.popNotices + Count(Taking, s, actions)
    decreases |actions|
  {
    if actions != [] {
      var a := actions[0];
      StepWaitsConsumers(s, a);
      StepNotifies(s, a);
      StepTakes(s, a);
      RunWaitsConsumers(Step(s, a), actions[1..]);
      hide Step, Does, Enabled;
    }
  }

  lemma ItemsUnfold<T>(kind: Kind, s: Queue<T>, actions: seq<Action<T>>)
    requires |s.contents| <= s.capacity && CanRun(s, actions) && actions != []
    ensures multiset(Items(kind, s, actions))
         == Own(kind, s, actions[0]) + multiset(Items(kind, Step(s, actions[0]), actions[1..]))
  {
    hide Step, Does;
  }

  lemma Exchanged<T>(m0: multiset<T>, m1: multiset<T>, m2: multiset<T>, u1: multiset<T>, b1: multiset<T>,
    u2: multiset<T>, b2: multiset<T>)
    requires m1 + u1 == m0 + b1 && m2 + u2 == m1 + b2
    ensures m2 + (u1 + u2) == m0 + (b1 + b2)
  {
    assert m2 + (u1 + u2) == (m2 + u2) + u1 == (m1 + b2) + u1 == (m1 + u1) + b2;
  }

  lemma {:induction false} RunWaitsProducers<T>(s: Queue<T>, actions: seq<Action<T>>)
    requires |s.contents| <= s.capacity && CanRun(s, actions)
    ensures var t := Run(s, actions);
            t.waitingProducers + t.wokenProducers + multiset(Items(Unblocking, s, actions))
            == s.waitingProducers + s.wokenProducers + multiset(Items(Blocking, s, actions))
    decreases |actions|
  {
    if actions != [] {
      var a := actions[0];
      StepWaitsProducers(s, a);
      RunWaitsProducers(Step(s, a), actions[1..]);
      ItemsUnfold(Unblocking, s, actions);
      ItemsUnfold(Blocking, s, actions);
      hide Step, Does, Enabled, Items, Own;
      var next, last := Step(s, a), Run(s, actions);
      Exchanged(s.waitingProducers + s.wokenProducers, next.waitingProducers + next.wokenProducers,
                last.waitingProducers + last.wokenProducers, Own(Unblocking, s, a), Own(Blocking, s, a),
                multiset(Items(Unblocking, next, actions[1..])), multiset(Items(Blocking, next, actions[1..])));
    }
  }

  /** In any interleaving: an offer is accepted when it finds room, or need not; the counters count the
      offers that found none, by their kind; and what is stored are the accepted items but for the first
      ones, of which there are as many as were taken or overrun. */
  lemma HistoryDecides<T>(capacity: nat, actions: seq<Action<T>>)
    requires CanRun(Fresh(capacity), actions)
    ensures var s, start: Queue<T> := Run(Fresh(capacity), actions), Fresh(capacity);
            && s.offered == Count(Offer, start, actions)
            && s.accepted == Items(Acceptance, start, actions)
            && s.overrunCounter == Count(Overrun, start, actions)
            && s.uncountedDiscards + s.discardCounter == Count(Refusal, start, actions)
            && s.discardCounter == Count(Counting, start, actions)
            && |s.taken| == Count(Taking, start, actions)
            && s.capacity == capacity && |s.taken| + s.overrunCounter <= |s.accepted|
            && s.contents == s.accepted[|s.taken| + s.overrunCounter..]
  {
    RunCounts(Fresh(capacity), actions);
    RunKeeps(Fresh(capacity), actions);
    hide Run, Count, Items, CanRun;
  }

  /** In any interleaving: the producers that wait are those whose blocking offers found no room and have not
      found it since, the consumers that wait those that found nothing, and one notification is made for each
      item that is accepted or taken. */
  lemma WaitersAreKnown<T>(capacity: nat, actions: seq<Action<T>>)
    requires CanRun(Fresh(capacity), actions)
    ensures var s, start: Queue<T> := Run(Fresh(capacity), actions), Fresh(capacity);
            && s.waitingProducers + s.wokenProducers + multiset(Items(Unblocking, start, actions))
               == multiset(Items(Blocking, start, actions))
            && s.waitingConsumers + s.wokenConsumers + Count(Waking, start, actions) == Count(Sleeping, start, actions)
            && s.pushNotices + Count(PushNotice, start, actions) == Count(Acceptance, start, actions)
            && s.popNotices + Count(PopNotice, start, actions) == Count(Taking, start, actions)
  {
    RunWaitsProducers(Fresh(capacity), actions);
    RunWaitsConsumers(Fresh(capacity), actions);
    hide Run, Count, Items, CanRun;
  }

  /** A consumer that sleeps can always wake up when its time is over, and leaves if there is still nothing. */
  lemma TimeIsUp<T>(s: Queue<T>)
    requires s.waitingConsumers > 0 && s.contents == []
    ensures CanRun(s, [WakeConsumer, ConsumerGivesUp])
            && Run(s, [WakeConsumer, ConsumerGivesUp]) == s.(waitingConsumers := s.waitingConsumers - 1)
  {
    var woken := Step(s, WakeConsumer);
    var both, one: seq<Action<T>> := [WakeConsumer, ConsumerGivesUp], [ConsumerGivesUp];
    assert both[1..] == one && one[1..] == [];
    var left := Step(woken, ConsumerGivesUp);
    assert left == s.(waitingConsumers := s.waitingConsumers - 1);
    assert CanRun(woken, [ConsumerGivesUp]);
  }

  /** An outstanding notification wakes any one producer that waits, who can then resume; without one, it is
      spent. */
  lemma ProducerIsWoken<T>(s: Queue<T>, item: T)
    requires |s.contents| <= s.capacity && s.popNotices > 0
    requires item in s.waitingProducers || s.waitingProducers == multiset{}
    ensures CanRun(s, [NotifyProducer(item)])
    ensures var t := Run(s, [NotifyProducer(item)]);
            && t.popNotices == s.popNotices - 1
            && if item in s.waitingProducers then Enabled(t, BlockingQueue.ProducerResumes(item))
               else t == s.(popNotices := s.popNotices - 1)
  {
    var notify: seq<Action<T>> := [NotifyProducer(item)];
    assert notify[1..] == [];
    var t := Step(s, notify[0]);
    assert CanRun(t, notify[1..]) && Run(s, notify) == t;
    assert item in s.waitingProducers ==> t.wokenProducers[item] > 0;
  }
}
