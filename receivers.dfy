/**
 * The per-receiver bookkeeping (Receiver.java): an arrival-ordered queue of pending
 * message ids and a lookup map from id to message. Each function gives the entry
 * after one of the receiver's operations; the dispatcher stores it back into its
 * registry.
 */
module Receivers {
  import opened Wrappers
  import opened Messages
  import opened Collections

  datatype Receiver = Receiver(id: int, queue: seq<string>, messages: map<string, MessageRecord>)

  /** The queue holds each id once, exactly the ids of the map, all addressed to this receiver. */
  ghost predicate Valid(r: Receiver)
  {
    && NoDuplicates(r.queue)
    && (forall x :: x in r.messages <==> x in r.queue)
    && (forall x :: x in r.messages ==> r.messages[x].id == x && r.messages[x].receiverId == r.id)
  }

  /** A new receiver with nothing pending. */
  function New(id: int): (r: Receiver)
    ensures r.id == id && r.queue == [] && r.messages == map[]
    ensures Valid(r)
  {
    Receiver(id, [], map[])
  }

  /** addMessage: the message goes into the map and to the tail of the queue. */
  function AddMessage(r: Receiver, m: MessageRecord): (r': Receiver)
    ensures r'.id == r.id && r'.queue == r.queue + [m.id]
    ensures r'.messages.Keys == r.messages.Keys + {m.id} && r'.messages[m.id] == m
    ensures r'.messages == r.messages[m.id := m]
    ensures Valid(r) && m.id !in r.messages && m.receiverId == r.id ==> Valid(r')
  {
    Receiver(r.id, r.queue + [m.id], r.messages[m.id := m])
  }

  /**
   * addMessage does not check that the id is new: adding a message the receiver
   * already holds queues its id a second time.
   */
  lemma AddHeldBreaksValid(r: Receiver, m: MessageRecord)
    requires Valid(r) && m.id in r.messages
    ensures !NoDuplicates(AddMessage(r, m).queue)
    ensures !Valid(AddMessage(r, m))
  {
    var q := AddMessage(r, m).queue;
    var i :| 0 <= i < |r.queue| && r.queue[i] == m.id;
    assert q[i] == q[|q| - 1] && i < |q| - 1;
  }

  /**
   * getNextMessage: on an empty queue nothing and the receiver unchanged; otherwise
   * the message at the head, taken out of both the queue and the map.
   */
  function Poll(r: Receiver): (res: (Option<MessageRecord>, Receiver))
    requires Valid(r)
    ensures Valid(res.1) && res.1.id == r.id
    ensures r.queue == [] <==> res.0.None?
    ensures r.queue == [] ==> res.1 == r
    ensures r.queue != [] ==>
              && res.0.value.id == r.queue[0] && res.0.value == r.messages[r.queue[0]]
              && res.1.queue == r.queue[1..]
              && res.1.messages.Keys == r.messages.Keys - {r.queue[0]}
              && forall x :: x in res.1.messages ==> res.1.messages[x] == r.messages[x]
  {
    if r.queue == [] then (None, r)
    else
      var x := r.queue[0];
      assert forall y :: y in r.queue[1..] <==> y in r.queue && y != x;
      (Some(r.messages[x]), Receiver(r.id, r.queue[1..], r.messages - {x}))
  }

  /**
   * deleteMessage: the message with id `x` leaves the map and the queue; the other
   * queued ids keep their relative order.
   */
  function Delete(r: Receiver, x: string): (r': Receiver)
    requires Valid(r)
    ensures Valid(r') && r'.id == r.id
    ensures x !in r'.messages && r'.messages == r.messages - {x}
    ensures x !in r.messages ==> r' == r
    ensures r'.queue == RemoveId(r.queue, x)
  {
    DeleteValid(r, x);
    RemoveIdShape(r.queue, x);
    Receiver(r.id, RemoveId(r.queue, x), r.messages - {x})
  }

  /** Removing one id from both the queue and the map keeps a receiver valid. */
  lemma DeleteValid(r: Receiver, x: string)
    requires Valid(r)
    ensures Valid(Receiver(r.id, RemoveId(r.queue, x), r.messages - {x}))
  {
    var q', ms' := RemoveId(r.queue, x), r.messages - {x};
    RemoveIdDistinct(r.queue, x);
    forall y
      ensures y in ms' <==> y in q'
    {
      assert y in ms' <==> y in r.messages && y != x;
    }
  }

  /** getNextMessage takes the message at the head exactly as getMessage would take it by id. */
  lemma PollTakesHead(r: Receiver)
    requires Valid(r) && r.queue != []
    ensures Poll(r).0 == Take(r, r.queue[0]).0
    ensures Poll(r).1 == Take(r, r.queue[0]).1 == Delete(r, r.queue[0])
  {
    assert RemoveId(r.queue, r.queue[0]) == r.queue[1..];
  }

  /**
   * getMessage: the message with id `x` taken out of map and queue, or nothing and
   * the receiver unchanged when no such message is pending here.
   */
  function Take(r: Receiver, x: string): (res: (Option<MessageRecord>, Receiver))
    requires Valid(r)
    ensures Valid(res.1) && res.1.id == r.id
    ensures res.0.Some? <==> x in r.messages
    ensures x !in r.messages ==> res.1 == r
    ensures x in r.messages ==> res.0.value == r.messages[x] && res.1 == Delete(r, x)
  {
    if x in r.messages then (Some(r.messages[x]), Delete(r, x)) else (None, r)
  }

  /** cleanup: whether both map and queue were empty; both are emptied. */
  function Cleanup(r: Receiver): (res: (bool, Receiver))
    ensures res.1 == New(r.id)
    ensures Valid(r) ==> (res.0 <==> r.queue == []) && (res.0 <==> r.messages == map[])
  {
    assert Valid(r) && r.queue != [] ==> r.queue[0] in r.messages;
    (r.messages == map[] && r.queue == [], New(r.id))
  }

  /** The messages repeated getNextMessage calls return, in order, until one returns nothing. */
  function Drain(r: Receiver): seq<MessageRecord>
    requires Valid(r)
    decreases |r.queue|
  {
    var p := Poll(r);
    if p.0.None? then [] else [p.0.value] + Drain(p.1)
  }

  /** Draining yields as many messages as are queued. */
  lemma {:induction false} DrainLength(r: Receiver)
    requires Valid(r)
    ensures |Drain(r)| == |r.queue|
    decreases |r.queue|
  {
    if r.queue != [] {
      DrainLength(Poll(r).1);
    }
  }

  /** The `i`-th message drained is the one queued `i`-th. */
  lemma {:induction false} DrainAt(r: Receiver, i: int)
    requires Valid(r) && 0 <= i < |r.queue|
    ensures |Drain(r)| == |r.queue| && Drain(r)[i] == r.messages[r.queue[i]]
    decreases i
  {
    DrainLength(r);
    var p := Poll(r);
    assert Drain(r) == [p.0.value] + Drain(p.1);
    if i > 0 {
      DrainAt(p.1, i - 1);
      assert p.1.queue[i - 1] == r.queue[i];
    }
  }

  /** Draining yields the queued messages in queue order. */
  lemma DrainFollowsQueue(r: Receiver)
    requires Valid(r)
    ensures |Drain(r)| == |r.queue|
    ensures forall i :: 0 <= i < |r.queue| ==> Drain(r)[i] == r.messages[r.queue[i]] && Drain(r)[i].id == r.queue[i]
  {
    DrainLength(r);
    forall i | 0 <= i < |r.queue|
      ensures Drain(r)[i] == r.messages[r.queue[i]] && Drain(r)[i].id == r.queue[i]
    {
      DrainAt(r, i);
      assert r.queue[i] in r.messages;
    }
  }

  /** Draining yields the ids of the queue, in order. */
  lemma DrainIds(r: Receiver)
    requires Valid(r)
    ensures Ids(Drain(r)) == r.queue
  {
    DrainFollowsQueue(r);
  }

  /** Draining yields exactly the messages held, each once under its own id. */
  lemma DrainHolds(r: Receiver)
    requires Valid(r)
    ensures forall m :: m in Drain(r) <==> m.id in r.messages && r.messages[m.id] == m
  {
    DrainFollowsQueue(r);
    var d := Drain(r);
    forall m ensures m in d <==> m.id in r.messages && r.messages[m.id] == m {
      if m.id in r.messages && r.messages[m.id] == m {
        assert m.id in r.queue;
        var i :| 0 <= i < |r.queue| && r.queue[i] == m.id;
        assert d[i] == m;
      }
    }
  }

  /** Polling a non-empty receiver commutes with adding a message at the tail. */
  lemma PollAfterAdd(r: Receiver, m: MessageRecord)
    requires Valid(r) && m.id !in r.messages && m.receiverId == r.id && r.queue != []
    ensures Poll(AddMessage(r, m)).0 == Poll(r).0
    ensures Poll(AddMessage(r, m)).1 == AddMessage(Poll(r).1, m)
  {
    var r' := AddMessage(r, m);
    assert r'.queue[1..] == r.queue[1..] + [m.id];
    assert r.queue[0] in r.messages;
    assert r'.messages - {r.queue[0]} == (r.messages - {r.queue[0]})[m.id := m];
  }

  /**
   * FIFO, one step: adding a message to a receiver makes it the last one repeated
   * getNextMessage calls return, after all that was queued before.
   */
  lemma {:induction false} DrainAfterAdd(r: Receiver, m: MessageRecord)
    requires Valid(r) && m.id !in r.messages && m.receiverId == r.id
    ensures Valid(AddMessage(r, m))
    ensures Drain(AddMessage(r, m)) == Drain(r) + [m]
    decreases |r.queue|
  {
    var r' := AddMessage(r, m);
    var p' := Poll(r');
    if r.queue == [] {
      assert p'.1.queue == [];
      assert Drain(r') == [m] + Drain(p'.1);
    } else {
      var p := Poll(r);
      PollAfterAdd(r, m);
      DrainAfterAdd(p.1, m);
      calc {
        Drain(r');
        [p.0.value] + Drain(AddMessage(p.1, m));
        [p.0.value] + (Drain(p.1) + [m]);
        { Regroup([p.0.value], Drain(p.1), [m]); }
        ([p.0.value] + Drain(p.1)) + [m];
        Drain(r) + [m];
      }
    }
  }

  /** The receiver after messages `ms` have been added one after another. */
  function AddAll(r: Receiver, ms: seq<MessageRecord>): Receiver
    decreases |ms|
  {
    if ms == [] then r else AddAll(AddMessage(r, ms[0]), ms[1..])
  }

  /**
   * `ms` may be added to `r` one after another: each is addressed to it and its id is
   * new to the receiver as built so far (so new to `r` and to the earlier ones).
   */
  ghost predicate Addable(r: Receiver, ms: seq<MessageRecord>)
    decreases |ms|
  {
    ms == [] || (ms[0].id !in r.messages && ms[0].receiverId == r.id && Addable(AddMessage(r, ms[0]), ms[1..]))
  }

  /**
   * FIFO delivery: after `ms` are added to a receiver, repeated getNextMessage calls
   * return what was already queued and then exactly `ms`, in the order they were added.
   */
  lemma {:induction false} FifoDelivery(r: Receiver, ms: seq<MessageRecord>)
    requires Valid(r) && Addable(r, ms)
    ensures Valid(AddAll(r, ms))
    ensures Drain(AddAll(r, ms)) == Drain(r) + ms
    decreases |ms|
  {
    if ms != [] {
      var r1 := AddMessage(r, ms[0]);
      DrainAfterAdd(r, ms[0]);
      FifoDelivery(r1, ms[1..]);
      calc {
        Drain(AddAll(r, ms));
        Drain(AddAll(r1, ms[1..]));
        (Drain(r) + [ms[0]]) + ms[1..];
        { Regroup(Drain(r), [ms[0]], ms[1..]); }
        Drain(r) + ([ms[0]] + ms[1..]);
        { HeadTail(ms); }
        Drain(r) + ms;
      }
    }
  }

  /**
   * Deleting a message (a withdrawal by its sender) leaves the others to be delivered
   * in their original relative order.
   */
  lemma DeleteKeepsOrder(r: Receiver, x: string)
    requires Valid(r)
    ensures Ids(Drain(Delete(r, x))) == RemoveId(Ids(Drain(r)), x)
    ensures forall m :: m in Drain(Delete(r, x)) ==> m in Drain(r) && m.id != x
  {
    var d := Delete(r, x);
    DrainIds(r);
    DrainIds(d);
    DrainHolds(r);
    DrainHolds(d);
  }

  /** A message taken by id is never returned again by getNextMessage. */
  lemma TakenNotDrained(r: Receiver, x: string)
    requires Valid(r)
    ensures forall m :: m in Drain(Take(r, x).1) ==> m.id != x
  {
    DrainHolds(Take(r, x).1);
  }
}
