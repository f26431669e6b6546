/** The ring buffer of the asynchronous logger, and the backtracer that replays what it kept. */
module CircularQueue {
  /** A bounded queue that makes room by dropping its oldest item. */
  function Pushed<T>(items: seq<T>, capacity: nat, item: T): (r: seq<T>)
    requires |items| <= capacity
    ensures |r| <= capacity
  {
    if |items| < capacity then items + [item] else (items + [item])[1..]
  }

  lemma NextIndex(i: nat, n: nat)
    requires i < n
    ensures (i + 1) % n == if i + 1 == n then 0 else i + 1
  {
  }

  lemma WrapIndex(i: nat, n: nat)
    requires i < 2 * n
    ensures i % n == if i < n then i else i - n
  {
    if i >= n {
      assert i == n + (i - n);
    }
  }

  /** The items of a ring `v` between `head` and `tail`. */
  function View<T>(v: seq<T>, head: nat, tail: nat): (s: seq<T>)
    requires head <= |v| && tail <= |v|
    ensures |s| == if head <= tail then tail - head else |v| - (head - tail)
  {
    if head <= tail then v[head..tail] else v[head..] + v[..tail]
  }

  /** Writing at `tail` and advancing it appends, and reaching `head` drops the oldest item. */
  lemma PushView<T>(v: seq<T>, head: nat, tail: nat, item: T)
    requires head < |v| && tail < |v|
    ensures var tail' := (tail + 1) % |v|;
            var items := View(v, head, tail) + [item];
            if tail' == head then View(v[tail := item], (head + 1) % |v|, tail') == items[1..]
            else View(v[tail := item], head, tail') == items
  {
    NextIndex(tail, |v|);
    NextIndex(head, |v|);
  }

  class CircularQ<T(0)> {
    var maxItems: nat       // one more than the capacity; 0 in a disabled queue
    var head: nat
    var tail: nat
    var overrunCounter: nat
    var v: array<T>

    ghost predicate Valid()
      reads this
    {
      && v.Length == maxItems
      && (if maxItems == 0 then head == tail == 0 else head < maxItems && tail < maxItems)
    }

    ghost predicate Enabled()
      reads this
    {
      maxItems > 0
    }

    function Capacity(): nat
      requires Valid()
      reads this
    {
      if maxItems == 0 then 0 else maxItems - 1
    }

    /** The stored items, oldest first. */
    function Contents(): (s: seq<T>)
      requires Valid()
      reads this, v
      ensures |s| <= Capacity()
    {
      View(v[..], head, tail)
    }

    constructor (capacity: nat)
      ensures Valid() && Enabled() && fresh(v)
      ensures Capacity() == capacity && Contents() == [] && overrunCounter == 0
    {
      maxItems := capacity + 1;
      head, tail, overrunCounter := 0, 0, 0;
      v := new T[capacity + 1];
    }

    constructor Disabled()
      ensures Valid() && !Enabled() && fresh(v) && overrunCounter == 0
    {
      maxItems, head, tail, overrunCounter := 0, 0, 0, 0;
      v := new T[0];
    }

    method PushBack(item: T)
      requires Valid()
      modifies this`head, this`tail, this`overrunCounter, v
      ensures Valid()
      ensures Contents() == if Enabled() then Pushed(old(Contents()), Capacity(), item) else old(Contents())
      ensures overrunCounter
           == old(overrunCounter) + if Enabled() && |old(Contents())| == Capacity() then 1 else 0
    {
      if maxItems > 0 {
        PushView(v[..], head, tail, item);
        NextIndex(tail, maxItems);
        NextIndex(head, maxItems);
        ghost var was := v[..];
        v[tail] := item;
        assert v[..] == was[tail := item];
        tail := (tail + 1) % maxItems;
        if tail == head {
          head := (head + 1) % maxItems;
          overrunCounter := overrunCounter + 1;
        }
      }
    }

    method Front() returns (item: T)
      requires Valid() && Contents() != []
      ensures item == Contents()[0]
    {
      item := v[head];
    }

    method PopFront()
      requires Valid() && Contents() != []
      modifies this`head
      ensures Valid() && Contents() == old(Contents())[1..]
    {
      NextIndex(head, maxItems);
      head := (head + 1) % maxItems;
    }

    method Size() returns (n: nat)
      requires Valid()
      ensures n == |Contents()|
    {
      n := if tail >= head then tail - head else maxItems - (head - tail);
    }

    method At(i: nat) returns (item: T)
      requires Valid() && i < |Contents()|
      ensures item == Contents()[i]
    {
      WrapIndex(head + i, maxItems);
      item := v[(head + i) % maxItems];
    }

    method IsEmpty() returns (r: bool)
      requires Valid()
      ensures r == (Contents() == [])
    {
      r := tail == head;
    }

    method IsFull() returns (r: bool)
      requires Valid()
      ensures r == (Enabled() && |Contents()| == Capacity())
    {
      if maxItems > 0 {
        NextIndex(tail, maxItems);
        return (tail + 1) % maxItems == head;
      }
      return false;
    }

    /** Takes over everything from `other`, which is left disabled. */
    method MoveFrom(other: CircularQ<T>)
      requires other.Valid() && other != this
      modifies this, other
      ensures Valid() && Contents() == old(other.Contents()) && overrunCounter == old(other.overrunCounter)
      ensures Capacity() == old(other.Capacity()) && (Enabled() <==> old(other.Enabled()))
      ensures other.Valid() && !other.Enabled() && other.Contents() == [] && other.overrunCounter == 0
      ensures fresh(other.v) && v == old(other.v)
    {
      maxItems, head, tail, overrunCounter, v := other.maxItems, other.head, other.tail, other.overrunCounter, other.v;
      other.maxItems, other.head, other.tail, other.overrunCounter := 0, 0, 0, 0;
      other.v := new T[0];
    }
  }

  // ----- The backtracer -----

  /** The last `n` of `s`. */
  function LastOf<T>(s: seq<T>, n: nat): seq<T> {
    if |s| <= n then s else s[|s| - n..]
  }

  /** One more message: keeping the last `n` of all messages needs only the last `n` so far. */
  lemma PushedIsLast<T>(s: seq<T>, n: nat, item: T)
    ensures Pushed(LastOf(s, n), n, item) == LastOf(s + [item], n)
  {
  }

  lemma MoveOne<T>(a: seq<T>, b: seq<T>)
    requires b != []
    ensures (a + [b[0]]) + b[1..] == a + b
  {
  }

  class Backtracer<Msg(0)> {
    var enabled: bool
    var messages: CircularQ<Msg>
    ghost var logged: seq<Msg>  // everything pushed since `Enable`

    /** The ring buffer holds exactly the last messages, as many as fit. */
    ghost predicate Valid()
      reads this, messages, messages.v
    {
      && messages.Valid()
      && messages.Contents() == if messages.Enabled() then LastOf(logged, messages.Capacity()) else []
    }

    constructor ()
      ensures Valid() && fresh(messages) && fresh(messages.v) && !enabled
    {
      enabled := false;
      messages := new CircularQ<Msg>.Disabled();
      logged := [];
    }

    method Enable(size: nat)
      modifies this
      ensures Valid() && fresh(messages) && fresh(messages.v) && enabled
      ensures logged == [] && messages.Enabled() && messages.Capacity() == size
    {
      enabled := true;
      messages := new CircularQ<Msg>(size);
      logged := [];
    }

    /** What was kept can still be replayed. */
    method Disable()
      requires Valid()
      modifies this`enabled
      ensures Valid() && !enabled
      ensures logged == old(logged) && messages.Contents() == old(messages.Contents())
    {
      enabled := false;
    }

    method PushBack(msg: Msg)
      requires Valid()
      modifies this`logged, messages, messages.v
      ensures Valid() && messages == old(messages) && messages.v == old(messages.v)
      ensures logged == old(logged) + [msg]
      ensures messages.Enabled() == old(messages.Enabled()) && messages.Capacity() == old(messages.Capacity())
    {
      PushedIsLast(logged, messages.Capacity(), msg);
      messages.PushBack(msg);
      logged := logged + [msg];
    }

    /** Hands every kept message to the callback, oldest first: exactly the last ones pushed, as many as
        the backtracer was enabled for. `calls` are the arguments of the callback's calls. */
    method ForeachPop() returns (calls: seq<Msg>)
      requires Valid()
      modifies this`logged, messages
      ensures calls == if old(messages.Enabled()) then LastOf(old(logged), old(messages.Capacity())) else []
      ensures Valid() && messages.Contents() == [] && logged == []
      ensures messages.Enabled() == old(messages.Enabled()) && messages.Capacity() == old(messages.Capacity())
    {
      ghost var kept := messages.Contents();
      calls := [];
      var empty := messages.IsEmpty();
      while !empty
        modifies messages`head
        invariant messages.Valid() && calls + messages.Contents() == kept
        invariant empty == (messages.Contents() == [])
        decreases |messages.Contents()|
      {
        var front := messages.Front();
        MoveOne(calls, messages.Contents());
        calls := calls + [front];
        messages.PopFront();
        empty := messages.IsEmpty();
      }
      logged := [];
    }
  }
}
