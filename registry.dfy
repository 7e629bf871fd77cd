/**
 * The two registries of the dispatcher, identity -> Sender and identity -> Receiver,
 * and what keeps them consistent with each other and with the durable log.
 * The dispatcher's methods preserve these facts; the lemmas here prove one
 * operation's step at a time on plain map values.
 */
module Registry {
  import opened Messages
  import Senders
  import Receivers
  import DurableLog

  type SenderMap = map<int, Senders.Sender>
  type ReceiverMap = map<int, Receivers.Receiver>

  /** The Sender registered under `k`, or the one `computeIfAbsent` would create. */
  function SenderEntry(ss: SenderMap, k: int): Senders.Sender
  {
    if k in ss then ss[k] else Senders.New(k)
  }

  /** The Receiver registered under `k`, or the one `computeIfAbsent` would create. */
  function ReceiverEntry(rs: ReceiverMap, k: int): Receivers.Receiver
  {
    if k in rs then rs[k] else Receivers.New(k)
  }

  /** Receiver `k`'s queue of pending ids (empty for an identity with no Receiver yet). */
  function QueueOf(rs: ReceiverMap, k: int): seq<string>
  {
    if k in rs then rs[k].queue else []
  }

  /** Receiver `k`'s map of pending messages (empty for an identity with no Receiver yet). */
  function MessagesOf(rs: ReceiverMap, k: int): map<string, MessageRecord>
  {
    if k in rs then rs[k].messages else map[]
  }

  /** Sender `k`'s map of pending messages (empty for an identity with no Sender yet). */
  function PendingOf(ss: SenderMap, k: int): map<string, MessageRecord>
  {
    if k in ss then ss[k].pending else map[]
  }

  /** `m` is pending, as this very record, at the Sender it names. */
  ghost predicate PendingAt(ss: SenderMap, m: MessageRecord)
  {
    m.senderId in ss && m.id in ss[m.senderId].pending && ss[m.senderId].pending[m.id] == m
  }

  /** `m` is held, as this very record, by the Receiver it names. */
  ghost predicate QueuedAt(rs: ReceiverMap, m: MessageRecord)
  {
    m.receiverId in rs && m.id in rs[m.receiverId].messages && rs[m.receiverId].messages[m.id] == m
  }

  /** Every Sender is registered under its own identity and is internally consistent. */
  ghost predicate SendersWellFormed(ss: SenderMap)
  {
    forall k :: k in ss ==> ss[k].id == k && Senders.Valid(ss[k])
  }

  /** Every Receiver is registered under its own identity and is internally consistent. */
  ghost predicate ReceiversWellFormed(rs: ReceiverMap)
  {
    forall k :: k in rs ==> rs[k].id == k && Receivers.Valid(rs[k])
  }

  /** Every message a Receiver holds is pending at its Sender. */
  ghost predicate ReceivedAreSent(ss: SenderMap, rs: ReceiverMap)
  {
    forall k, x :: k in rs && x in rs[k].messages ==> PendingAt(ss, rs[k].messages[x])
  }

  /** Every message a Sender has pending is held by its Receiver. */
  ghost predicate SentAreReceived(ss: SenderMap, rs: ReceiverMap)
  {
    forall k, x :: k in ss && x in ss[k].pending ==> QueuedAt(rs, ss[k].pending[x])
  }

  /** The registries agree with each other in both directions. */
  ghost predicate Consistent(ss: SenderMap, rs: ReceiverMap)
  {
    SendersWellFormed(ss) && ReceiversWellFormed(rs) && ReceivedAreSent(ss, rs) && SentAreReceived(ss, rs)
  }

  /**
   * isAwaiting: a message is awaiting at its Sender exactly when some Receiver
   * still holds it as a message from that Sender.
   */
  lemma AwaitingIffHeld(ss: SenderMap, rs: ReceiverMap, sid: int, x: string)
    requires sid in ss
    ensures Consistent(ss, rs) ==>
              (Senders.IsAwaiting(ss[sid], x) <==>
               exists rid :: rid in rs && x in rs[rid].messages && rs[rid].messages[x].senderId == sid)
  {
    if Consistent(ss, rs) && Senders.IsAwaiting(ss[sid], x) {
      var m := ss[sid].pending[x];
      assert QueuedAt(rs, m);
      assert m.id == x && m.senderId == sid;
    }
    if Consistent(ss, rs) && exists rid :: rid in rs && x in rs[rid].messages && rs[rid].messages[x].senderId == sid {
      var rid :| rid in rs && x in rs[rid].messages && rs[rid].messages[x].senderId == sid;
      assert PendingAt(ss, rs[rid].messages[x]);
      assert rs[rid].messages[x].id == x;
    }
  }

  /** No Sender and no Receiver holds message id `x`. */
  ghost predicate NotLive(ss: SenderMap, rs: ReceiverMap, x: string)
  {
    && (forall k :: k in ss ==> x !in ss[k].pending)
    && (forall k :: k in rs ==> x !in rs[k].messages)
  }

  /** Registering a Sender for an identity (new and empty if absent) keeps the registries consistent. */
  lemma RegisterSenderConsistent(ss: SenderMap, rs: ReceiverMap, s: int)
    requires Consistent(ss, rs)
    ensures Consistent(ss[s := SenderEntry(ss, s)], rs)
    ensures forall x :: NotLive(ss, rs, x) ==> NotLive(ss[s := SenderEntry(ss, s)], rs, x)
  {
    if s in ss {
      assert ss[s := SenderEntry(ss, s)] == ss;
    } else {
      var ss' := ss[s := Senders.New(s)];
      assert SendersWellFormed(ss') by {
        forall k | k in ss' ensures ss'[k].id == k && Senders.Valid(ss'[k]) {
          if k != s { assert ss'[k] == ss[k]; }
        }
      }
      assert ReceivedAreSent(ss', rs) by {
        forall k, x | k in rs && x in rs[k].messages ensures PendingAt(ss', rs[k].messages[x]) {
          assert PendingAt(ss, rs[k].messages[x]);
        }
      }
      assert SentAreReceived(ss', rs) by {
        forall k, x | k in ss' && x in ss'[k].pending ensures QueuedAt(rs, ss'[k].pending[x]) {
          assert k != s;
          assert ss'[k] == ss[k];
        }
      }
    }
  }

  /** Registering a Receiver for an identity (new and empty if absent) keeps the registries consistent. */
  lemma RegisterReceiverConsistent(ss: SenderMap, rs: ReceiverMap, r: int)
    requires Consistent(ss, rs)
    ensures Consistent(ss, rs[r := ReceiverEntry(rs, r)])
    ensures forall x :: NotLive(ss, rs, x) ==> NotLive(ss, rs[r := ReceiverEntry(rs, r)], x)
  {
    if r in rs {
      assert rs[r := ReceiverEntry(rs, r)] == rs;
    } else {
      var rs' := rs[r := Receivers.New(r)];
      assert ReceiversWellFormed(rs') by {
        forall k | k in rs' ensures rs'[k].id == k && Receivers.Valid(rs'[k]) {
          if k != r { assert rs'[k] == rs[k]; }
        }
      }
      assert ReceivedAreSent(ss, rs') by {
        forall k, x | k in rs' && x in rs'[k].messages ensures PendingAt(ss, rs'[k].messages[x]) {
          assert k != r;
          assert rs'[k] == rs[k];
        }
      }
      assert SentAreReceived(ss, rs') by {
        forall k, x | k in ss && x in ss[k].pending ensures QueuedAt(rs', ss[k].pending[x]) {
          assert QueuedAt(rs, ss[k].pending[x]);
        }
      }
    }
  }

  /** Changing a Sender's callback does not touch any message bookkeeping. */
  lemma SetCallbackConsistent(ss: SenderMap, rs: ReceiverMap, s: int, cb: Senders.Callback)
    requires Consistent(ss, rs) && s in ss
    ensures Consistent(ss[s := Senders.SetCallback(ss[s], cb)], rs)
  {
    var ss' := ss[s := Senders.SetCallback(ss[s], cb)];
    assert forall k :: k in ss' ==> ss'[k].pending == ss[k].pending && ss'[k].id == ss[k].id;
    assert SendersWellFormed(ss') by {
      forall k | k in ss' ensures ss'[k].id == k && Senders.Valid(ss'[k]) {
        assert Senders.Valid(ss[k]);
      }
    }
    assert ReceivedAreSent(ss', rs) by {
      forall k, x | k in rs && x in rs[k].messages ensures PendingAt(ss', rs[k].messages[x]) {
        assert PendingAt(ss, rs[k].messages[x]);
      }
    }
    assert SentAreReceived(ss', rs) by {
      forall k, x | k in ss' && x in ss'[k].pending ensures QueuedAt(rs, ss'[k].pending[x]) {
        assert ss'[k].pending[x] == ss[k].pending[x];
      }
    }
  }

  /** Sending a message with an unused id to registered parties keeps the registries consistent. */
  lemma SendConsistent(ss: SenderMap, rs: ReceiverMap, m: MessageRecord)
    requires Consistent(ss, rs) && NotLive(ss, rs, m.id)
    requires m.senderId in ss && m.receiverId in rs
    ensures Consistent(ss[m.senderId := Senders.AddMessage(ss[m.senderId], m)],
                       rs[m.receiverId := Receivers.AddMessage(rs[m.receiverId], m)])
  {
    SendWellFormed(ss, rs, m);
    SendReceivedAreSent(ss, rs, m);
    SendSentAreReceived(ss, rs, m);
  }

  /** The entries a send extends keep their shape. */
  lemma SendWellFormed(ss: SenderMap, rs: ReceiverMap, m: MessageRecord)
    requires SendersWellFormed(ss) && ReceiversWellFormed(rs)
    requires m.senderId in ss && m.receiverId in rs && m.id !in rs[m.receiverId].messages
    ensures SendersWellFormed(ss[m.senderId := Senders.AddMessage(ss[m.senderId], m)])
    ensures ReceiversWellFormed(rs[m.receiverId := Receivers.AddMessage(rs[m.receiverId], m)])
  {
    var ss' := ss[m.senderId := Senders.AddMessage(ss[m.senderId], m)];
    var rs' := rs[m.receiverId := Receivers.AddMessage(rs[m.receiverId], m)];
    forall k | k in ss' ensures ss'[k].id == k && Senders.Valid(ss'[k]) {
      if k != m.senderId { assert ss'[k] == ss[k]; }
    }
    forall k | k in rs' ensures rs'[k].id == k && Receivers.Valid(rs'[k]) {
      if k != m.receiverId { assert rs'[k] == rs[k]; }
    }
  }

  /** After a send every message a Receiver holds, the new one included, is pending at its Sender. */
  lemma SendReceivedAreSent(ss: SenderMap, rs: ReceiverMap, m: MessageRecord)
    requires ReceivedAreSent(ss, rs) && NotLive(ss, rs, m.id) && m.senderId in ss && m.receiverId in rs
    ensures ReceivedAreSent(ss[m.senderId := Senders.AddMessage(ss[m.senderId], m)],
                            rs[m.receiverId := Receivers.AddMessage(rs[m.receiverId], m)])
  {
    var ss' := ss[m.senderId := Senders.AddMessage(ss[m.senderId], m)];
    var rs' := rs[m.receiverId := Receivers.AddMessage(rs[m.receiverId], m)];
    forall k, x | k in rs' && x in rs'[k].messages
      ensures PendingAt(ss', rs'[k].messages[x])
    {
      if !(k == m.receiverId && x == m.id) {
        var n := rs[k].messages[x];
        assert x in rs[k].messages && rs'[k].messages[x] == n;
        assert PendingAt(ss, n);
        assert n.id in ss[n.senderId].pending;
      }
    }
  }

  /** After a send every message a Sender has pending, the new one included, is held by its Receiver. */
  lemma SendSentAreReceived(ss: SenderMap, rs: ReceiverMap, m: MessageRecord)
    requires SentAreReceived(ss, rs) && NotLive(ss, rs, m.id) && m.senderId in ss && m.receiverId in rs
    ensures SentAreReceived(ss[m.senderId := Senders.AddMessage(ss[m.senderId], m)],
                            rs[m.receiverId := Receivers.AddMessage(rs[m.receiverId], m)])
  {
    var ss' := ss[m.senderId := Senders.AddMessage(ss[m.senderId], m)];
    var rs' := rs[m.receiverId := Receivers.AddMessage(rs[m.receiverId], m)];
    forall k, x | k in ss' && x in ss'[k].pending
      ensures QueuedAt(rs', ss'[k].pending[x])
    {
      if !(k == m.senderId && x == m.id) {
        var n := ss[k].pending[x];
        assert x in ss[k].pending && ss'[k].pending[x] == n;
        assert QueuedAt(rs, n);
        assert n.id in rs[n.receiverId].messages;
      }
    }
  }

  /** The entries that remain after taking `m` out of its Sender and Receiver keep their shape. */
  lemma RemoveWellFormed(ss: SenderMap, rs: ReceiverMap, m: MessageRecord)
    requires SendersWellFormed(ss) && ReceiversWellFormed(rs)
    requires m.senderId in ss && m.receiverId in rs
    ensures SendersWellFormed(ss[m.senderId := Senders.DeleteMessage(ss[m.senderId], m.id).1])
    ensures ReceiversWellFormed(rs[m.receiverId := Receivers.Delete(rs[m.receiverId], m.id)])
  {
    var ss' := ss[m.senderId := Senders.DeleteMessage(ss[m.senderId], m.id).1];
    var rs' := rs[m.receiverId := Receivers.Delete(rs[m.receiverId], m.id)];
    forall k | k in ss' ensures ss'[k].id == k && Senders.Valid(ss'[k]) {
      if k != m.senderId { assert ss'[k] == ss[k]; }
    }
    forall k | k in rs' ensures rs'[k].id == k && Receivers.Valid(rs'[k]) {
      if k != m.receiverId { assert rs'[k] == rs[k]; }
    }
  }

  /** After a removal every message still held by a Receiver is still pending at its Sender. */
  lemma RemoveReceivedAreSent(ss: SenderMap, rs: ReceiverMap, m: MessageRecord)
    requires ReceiversWellFormed(rs) && ReceivedAreSent(ss, rs) && PendingAt(ss, m) && QueuedAt(rs, m)
    ensures ReceivedAreSent(ss[m.senderId := Senders.DeleteMessage(ss[m.senderId], m.id).1],
                            rs[m.receiverId := Receivers.Delete(rs[m.receiverId], m.id)])
  {
    var ss' := ss[m.senderId := Senders.DeleteMessage(ss[m.senderId], m.id).1];
    var rs' := rs[m.receiverId := Receivers.Delete(rs[m.receiverId], m.id)];
    forall k, x | k in rs' && x in rs'[k].messages
      ensures PendingAt(ss', rs'[k].messages[x])
    {
      var m2 := rs[k].messages[x];
      assert rs'[k].messages[x] == m2;
      assert PendingAt(ss, m2);
      assert Receivers.Valid(rs[k]);
      if x == m.id {
        assert k != m.receiverId;
        assert m2.receiverId == k;
        assert m2.senderId != m.senderId;
      }
    }
  }

  /** After a removal every message still pending at a Sender is still held by its Receiver. */
  lemma RemoveSentAreReceived(ss: SenderMap, rs: ReceiverMap, m: MessageRecord)
    requires SendersWellFormed(ss) && ReceiversWellFormed(rs) && SentAreReceived(ss, rs)
    requires PendingAt(ss, m) && QueuedAt(rs, m)
    ensures SentAreReceived(ss[m.senderId := Senders.DeleteMessage(ss[m.senderId], m.id).1],
                            rs[m.receiverId := Receivers.Delete(rs[m.receiverId], m.id)])
  {
    var ss' := ss[m.senderId := Senders.DeleteMessage(ss[m.senderId], m.id).1];
    var rs' := rs[m.receiverId := Receivers.Delete(rs[m.receiverId], m.id)];
    forall k, x | k in ss' && x in ss'[k].pending
      ensures QueuedAt(rs', ss'[k].pending[x])
    {
      var m2 := ss[k].pending[x];
      assert ss'[k].pending[x] == m2;
      assert QueuedAt(rs, m2);
      assert Senders.Valid(ss[k]);
      if x == m.id {
        assert k != m.senderId;
        assert m2.senderId == k;
        assert m2.receiverId != m.receiverId;
      }
    }
  }

  /**
   * Taking a message out of its Receiver and its Sender (a retrieval or a
   * withdrawal) keeps the registries consistent.
   */
  lemma RemoveConsistent(ss: SenderMap, rs: ReceiverMap, m: MessageRecord)
    requires Consistent(ss, rs) && PendingAt(ss, m) && QueuedAt(rs, m)
    ensures Consistent(ss[m.senderId := Senders.DeleteMessage(ss[m.senderId], m.id).1],
                       rs[m.receiverId := Receivers.Delete(rs[m.receiverId], m.id)])
  {
    RemoveWellFormed(ss, rs, m);
    RemoveReceivedAreSent(ss, rs, m);
    RemoveSentAreReceived(ss, rs, m);
  }

  /**
   * The durable log holds exactly the pending messages: each Receiver's queue is
   * the ids addressed to it in serial order, and each Receiver's and each Sender's
   * map is the rows addressed to it or sent by it.
   */
  ghost predicate Mirrors(ss: SenderMap, rs: ReceiverMap, log: seq<MessageRecord>)
  {
    QueuesMirror(rs, log) && MessagesMirror(rs, log) && PendingMirror(ss, log)
  }

  /** Each Receiver's queue is the ids of the rows addressed to it, in serial order. */
  ghost predicate QueuesMirror(rs: ReceiverMap, log: seq<MessageRecord>)
  {
    forall k :: QueueOf(rs, k) == DurableLog.IdsTo(log, k)
  }

  /** Each Receiver's map is the rows addressed to it. */
  ghost predicate MessagesMirror(rs: ReceiverMap, log: seq<MessageRecord>)
  {
    forall k :: MessagesOf(rs, k) == DurableLog.KeyedBy(log, DurableLog.ReceiverOf, k)
  }

  /** Each Sender's pending map is the rows it sent. */
  ghost predicate PendingMirror(ss: SenderMap, log: seq<MessageRecord>)
  {
    forall k :: PendingOf(ss, k) == DurableLog.KeyedBy(log, DurableLog.SenderOf, k)
  }

  /** Registering an empty Sender does not change what the log mirrors. */
  lemma RegisterSenderMirrors(ss: SenderMap, rs: ReceiverMap, log: seq<MessageRecord>, s: int)
    requires Mirrors(ss, rs, log)
    ensures Mirrors(ss[s := SenderEntry(ss, s)], rs, log)
  {
    var ss' := ss[s := SenderEntry(ss, s)];
    assert forall k :: PendingOf(ss', k) == PendingOf(ss, k);
  }

  /** Registering an empty Receiver does not change what the log mirrors. */
  lemma RegisterReceiverMirrors(ss: SenderMap, rs: ReceiverMap, log: seq<MessageRecord>, r: int)
    requires Mirrors(ss, rs, log)
    ensures Mirrors(ss, rs[r := ReceiverEntry(rs, r)], log)
  {
    var rs' := rs[r := ReceiverEntry(rs, r)];
    assert forall k :: QueueOf(rs', k) == QueueOf(rs, k);
    assert forall k :: MessagesOf(rs', k) == MessagesOf(rs, k);
  }

  /** Appending a row extends the queue rebuilt for identity `k` by that row's id when it is addressed to `k`. */
  lemma AppendQueueAt(q0: seq<string>, q: seq<string>, log: seq<MessageRecord>, m: MessageRecord, k: int)
    requires q == q0 + DurableLog.IdsTo(log, k)
    ensures (if m.receiverId == k then q + [m.id] else q) == q0 + DurableLog.IdsTo(log + [m], k)
  {
    DurableLog.IdsToAppend(log, m, k);
  }

  /** Appending a row adds it to the map rebuilt for identity `k` when it is keyed under `k`. */
  lemma AppendKeyedAt(p0: map<string, MessageRecord>, p: map<string, MessageRecord>, log: seq<MessageRecord>,
                      key: MessageRecord -> int, m: MessageRecord, k: int)
    requires p == p0 + DurableLog.KeyedBy(log, key, k)
    ensures (if key(m) == k then p[m.id := m] else p) == p0 + DurableLog.KeyedBy(log + [m], key, k)
  {
    DurableLog.KeyedByAppend(log, key, m, k);
  }

  /** A send that is also appended to the log keeps the log mirroring the registries. */
  lemma SendMirrors(ss: SenderMap, rs: ReceiverMap, log: seq<MessageRecord>, m: MessageRecord)
    requires Mirrors(ss, rs, log) && m.senderId in ss && m.receiverId in rs
    ensures Mirrors(ss[m.senderId := Senders.AddMessage(ss[m.senderId], m)],
                    rs[m.receiverId := Receivers.AddMessage(rs[m.receiverId], m)], log + [m])
  {
    var ss' := ss[m.senderId := Senders.AddMessage(ss[m.senderId], m)];
    var rs' := rs[m.receiverId := Receivers.AddMessage(rs[m.receiverId], m)];
    forall k ensures QueueOf(rs', k) == DurableLog.IdsTo(log + [m], k) {
      DurableLog.IdsToAppend(log, m, k);
    }
    forall k ensures MessagesOf(rs', k) == DurableLog.KeyedBy(log + [m], DurableLog.ReceiverOf, k) {
      DurableLog.KeyedByAppend(log, DurableLog.ReceiverOf, m, k);
    }
    forall k ensures PendingOf(ss', k) == DurableLog.KeyedBy(log + [m], DurableLog.SenderOf, k) {
      DurableLog.KeyedByAppend(log, DurableLog.SenderOf, m, k);
    }
  }

  /** A message id is keyed under one identity at most. */
  lemma KeyedByUnique(log: seq<MessageRecord>, key: MessageRecord -> int, x: string, k1: int, k2: int)
    requires DurableLog.Valid(log)
    requires x in DurableLog.KeyedBy(log, key, k1) && x in DurableLog.KeyedBy(log, key, k2)
    ensures k1 == k2
  {
    DurableLog.KeyedBySound(log, key, k1);
    DurableLog.KeyedBySound(log, key, k2);
    var m1, m2 := DurableLog.KeyedBy(log, key, k1)[x], DurableLog.KeyedBy(log, key, k2)[x];
    var i :| 0 <= i < |log| && log[i] == m1;
    var j :| 0 <= j < |log| && log[j] == m2;
    assert log[i].id == log[j].id;
  }

  /**
   * Forgetting row `x`, keyed under `owner`, removes it from the map rebuilt for
   * `owner` and leaves every other identity's map as it was.
   */
  lemma ForgetKeyedAt(p: map<string, MessageRecord>, log: seq<MessageRecord>, key: MessageRecord -> int,
                      x: string, k: int, owner: int)
    requires DurableLog.Valid(log)
    requires p == DurableLog.KeyedBy(log, key, k) && x in DurableLog.KeyedBy(log, key, owner)
    ensures (if k == owner then p - {x} else p) == DurableLog.KeyedBy(DurableLog.Forget(log, x), key, k)
  {
    DurableLog.ForgetKeyedBy(log, key, x, k);
    if k != owner {
      if x in p {
        KeyedByUnique(log, key, x, k, owner);
      }
      assert p - {x} == p;
    }
  }

  /**
   * Forgetting row `x`, addressed to `owner`, removes its id from the queue rebuilt
   * for `owner` and leaves every other identity's queue as it was.
   */
  lemma ForgetQueueAt(q: seq<string>, p: map<string, MessageRecord>, log: seq<MessageRecord>,
                      x: string, k: int, owner: int)
    requires DurableLog.Valid(log)
    requires q == DurableLog.IdsTo(log, k) && p == DurableLog.KeyedBy(log, DurableLog.ReceiverOf, k)
    requires x in q ==> x in p
    requires x in DurableLog.KeyedBy(log, DurableLog.ReceiverOf, owner)
    ensures (if k == owner then RemoveId(q, x) else q) == DurableLog.IdsTo(DurableLog.Forget(log, x), k)
  {
    DurableLog.ForgetIdsTo(log, x, k);
    if k != owner {
      if x in p {
        KeyedByUnique(log, DurableLog.ReceiverOf, x, k, owner);
      }
      RemoveIdShape(q, x);
    }
  }

  /** Every id in a Receiver's queue is also in its map. */
  lemma QueuedIdsHeld(rs: ReceiverMap, k: int, x: string)
    requires ReceiversWellFormed(rs)
    ensures x in QueueOf(rs, k) ==> x in MessagesOf(rs, k)
  {
    if k in rs {
      assert Receivers.Valid(rs[k]);
    }
  }

  /** Forgetting a retrieved or withdrawn row keeps every queue mirrored. */
  lemma RemoveQueuesMirror(rs: ReceiverMap, log: seq<MessageRecord>, m: MessageRecord)
    requires QueuesMirror(rs, log) && MessagesMirror(rs, log) && DurableLog.Valid(log)
    requires ReceiversWellFormed(rs) && QueuedAt(rs, m)
    ensures QueuesMirror(rs[m.receiverId := Receivers.Delete(rs[m.receiverId], m.id)], DurableLog.Forget(log, m.id))
  {
    var x := m.id;
    var rs' := rs[m.receiverId := Receivers.Delete(rs[m.receiverId], x)];
    assert x in DurableLog.KeyedBy(log, DurableLog.ReceiverOf, m.receiverId) by {
      assert MessagesOf(rs, m.receiverId) == DurableLog.KeyedBy(log, DurableLog.ReceiverOf, m.receiverId);
    }
    forall k ensures QueueOf(rs', k) == DurableLog.IdsTo(DurableLog.Forget(log, x), k) {
      QueuedIdsHeld(rs, k, x);
      ForgetQueueAt(QueueOf(rs, k), MessagesOf(rs, k), log, x, k, m.receiverId);
    }
  }

  /** Forgetting a retrieved or withdrawn row keeps every Receiver's map mirrored. */
  lemma RemoveMessagesMirror(rs: ReceiverMap, log: seq<MessageRecord>, m: MessageRecord)
    requires MessagesMirror(rs, log) && DurableLog.Valid(log)
    requires ReceiversWellFormed(rs) && QueuedAt(rs, m)
    ensures MessagesMirror(rs[m.receiverId := Receivers.Delete(rs[m.receiverId], m.id)], DurableLog.Forget(log, m.id))
  {
    var x := m.id;
    var rs' := rs[m.receiverId := Receivers.Delete(rs[m.receiverId], x)];
    assert x in DurableLog.KeyedBy(log, DurableLog.ReceiverOf, m.receiverId) by {
      assert MessagesOf(rs, m.receiverId) == DurableLog.KeyedBy(log, DurableLog.ReceiverOf, m.receiverId);
    }
    forall k ensures MessagesOf(rs', k) == DurableLog.KeyedBy(DurableLog.Forget(log, x), DurableLog.ReceiverOf, k) {
      ForgetKeyedAt(MessagesOf(rs, k), log, DurableLog.ReceiverOf, x, k, m.receiverId);
    }
  }

  /** Forgetting a retrieved or withdrawn row keeps every Sender's pending map mirrored. */
  lemma RemovePendingMirror(ss: SenderMap, log: seq<MessageRecord>, m: MessageRecord)
    requires PendingMirror(ss, log) && DurableLog.Valid(log) && PendingAt(ss, m)
    ensures PendingMirror(ss[m.senderId := Senders.DeleteMessage(ss[m.senderId], m.id).1], DurableLog.Forget(log, m.id))
  {
    var x := m.id;
    var ss' := ss[m.senderId := Senders.DeleteMessage(ss[m.senderId], x).1];
    assert x in DurableLog.KeyedBy(log, DurableLog.SenderOf, m.senderId) by {
      assert PendingOf(ss, m.senderId) == DurableLog.KeyedBy(log, DurableLog.SenderOf, m.senderId);
    }
    forall k ensures PendingOf(ss', k) == DurableLog.KeyedBy(DurableLog.Forget(log, x), DurableLog.SenderOf, k) {
      ForgetKeyedAt(PendingOf(ss, k), log, DurableLog.SenderOf, x, k, m.senderId);
    }
  }

  /** A retrieval or withdrawal that also forgets the row keeps the log mirroring the registries. */
  lemma RemoveMirrors(ss: SenderMap, rs: ReceiverMap, log: seq<MessageRecord>, m: MessageRecord)
    requires Mirrors(ss, rs, log) && DurableLog.Valid(log)
    requires ReceiversWellFormed(rs) && PendingAt(ss, m) && QueuedAt(rs, m)
    ensures Mirrors(ss[m.senderId := Senders.DeleteMessage(ss[m.senderId], m.id).1],
                    rs[m.receiverId := Receivers.Delete(rs[m.receiverId], m.id)],
                    DurableLog.Forget(log, m.id))
  {
    RemoveQueuesMirror(rs, log, m);
    RemoveMessagesMirror(rs, log, m);
    RemovePendingMirror(ss, log, m);
  }

  /** The identities that the log's rows are addressed to. */
  function ReceiverIds(log: seq<MessageRecord>): set<int>
  {
    set i | 0 <= i < |log| :: log[i].receiverId
  }

  /** The identities that sent the log's rows. */
  function SenderIds(log: seq<MessageRecord>): set<int>
  {
    set i | 0 <= i < |log| :: log[i].senderId
  }

  /** Each Receiver's queue and map extend the ones before the replay by the rows addressed to it. */
  ghost predicate ReplayedReceivers(rs0: ReceiverMap, log: seq<MessageRecord>, rs: ReceiverMap)
  {
    && rs.Keys == rs0.Keys + ReceiverIds(log)
    && (forall k :: QueueOf(rs, k) == QueueOf(rs0, k) + DurableLog.IdsTo(log, k))
    && (forall k :: MessagesOf(rs, k) == MessagesOf(rs0, k) + DurableLog.KeyedBy(log, DurableLog.ReceiverOf, k))
  }

  /** Each Sender's pending map extends the one before the replay by the rows it sent; callbacks are kept. */
  ghost predicate ReplayedSenders(ss0: SenderMap, log: seq<MessageRecord>, ss: SenderMap)
  {
    && ss.Keys == ss0.Keys + SenderIds(log)
    && (forall k :: PendingOf(ss, k) == PendingOf(ss0, k) + DurableLog.KeyedBy(log, DurableLog.SenderOf, k))
    && (forall k :: k in ss ==> ss[k].callback == if k in ss0 then ss0[k].callback else Wrappers.None)
  }

  /**
   * The registries after replaying the rows `log` on top of `ss0`/`rs0`: each row
   * appended to its Receiver's queue and map and added to its Sender's pending map,
   * a Sender and a Receiver registered for every identity a row names, and no
   * callback changed (new Senders have none).
   */
  ghost predicate Replayed(ss0: SenderMap, rs0: ReceiverMap, log: seq<MessageRecord>, ss: SenderMap, rs: ReceiverMap)
  {
    ReplayedSenders(ss0, log, ss) && ReplayedReceivers(rs0, log, rs)
  }

  /** Appending a row adds its two parties to the identities the rows name. */
  lemma PartiesAppend(log: seq<MessageRecord>, m: MessageRecord)
    ensures SenderIds(log + [m]) == SenderIds(log) + {m.senderId}
    ensures ReceiverIds(log + [m]) == ReceiverIds(log) + {m.receiverId}
  {
    var log' := log + [m];
    assert forall i :: 0 <= i < |log| ==> log'[i] == log[i];
    assert log'[|log|] == m;
  }

  /** Receiver `k`'s queue after row `m` is added to the Receiver it names. */
  lemma QueueAfterAdd(rs: ReceiverMap, m: MessageRecord, k: int)
    ensures QueueOf(rs[m.receiverId := Receivers.AddMessage(ReceiverEntry(rs, m.receiverId), m)], k)
            == if m.receiverId == k then QueueOf(rs, k) + [m.id] else QueueOf(rs, k)
  {
  }

  /** Receiver `k`'s map after row `m` is added to the Receiver it names. */
  lemma MessagesAfterAdd(rs: ReceiverMap, m: MessageRecord, k: int)
    ensures MessagesOf(rs[m.receiverId := Receivers.AddMessage(ReceiverEntry(rs, m.receiverId), m)], k)
            == if m.receiverId == k then MessagesOf(rs, k)[m.id := m] else MessagesOf(rs, k)
  {
  }

  /** Sender `k`'s pending map after row `m` is added to the Sender it names. */
  lemma PendingAfterAdd(ss: SenderMap, m: MessageRecord, k: int)
    ensures PendingOf(ss[m.senderId := Senders.AddMessage(SenderEntry(ss, m.senderId), m)], k)
            == if m.senderId == k then PendingOf(ss, k)[m.id := m] else PendingOf(ss, k)
  {
  }

  /** Replaying one more row extends the Receivers by that row. */
  lemma ReplayReceiversStep(rs0: ReceiverMap, log: seq<MessageRecord>, rs: ReceiverMap, m: MessageRecord)
    requires ReplayedReceivers(rs0, log, rs)
    ensures ReplayedReceivers(rs0, log + [m], rs[m.receiverId := Receivers.AddMessage(ReceiverEntry(rs, m.receiverId), m)])
  {
    ReplayKeysStep(rs0, log, rs, m);
    ReplayQueuesStep(rs0, log, rs, m);
    ReplayMessagesStep(rs0, log, rs, m);
  }

  lemma ReplayKeysStep(rs0: ReceiverMap, log: seq<MessageRecord>, rs: ReceiverMap, m: MessageRecord)
    requires rs.Keys == rs0.Keys + ReceiverIds(log)
    ensures rs[m.receiverId := Receivers.AddMessage(ReceiverEntry(rs, m.receiverId), m)].Keys
            == rs0.Keys + ReceiverIds(log + [m])
  {
    PartiesAppend(log, m);
  }

  lemma ReplayQueuesStep(rs0: ReceiverMap, log: seq<MessageRecord>, rs: ReceiverMap, m: MessageRecord)
    requires forall k :: QueueOf(rs, k) == QueueOf(rs0, k) + DurableLog.IdsTo(log, k)
    ensures var rs' := rs[m.receiverId := Receivers.AddMessage(ReceiverEntry(rs, m.receiverId), m)];
            forall k :: QueueOf(rs', k) == QueueOf(rs0, k) + DurableLog.IdsTo(log + [m], k)
  {
    var rs' := rs[m.receiverId := Receivers.AddMessage(ReceiverEntry(rs, m.receiverId), m)];
    forall k ensures QueueOf(rs', k) == QueueOf(rs0, k) + DurableLog.IdsTo(log + [m], k) {
      QueueAfterAdd(rs, m, k);
      AppendQueueAt(QueueOf(rs0, k), QueueOf(rs, k), log, m, k);
    }
  }

  lemma ReplayMessagesStep(rs0: ReceiverMap, log: seq<MessageRecord>, rs: ReceiverMap, m: MessageRecord)
    requires forall k :: MessagesOf(rs, k) == MessagesOf(rs0, k) + DurableLog.KeyedBy(log, DurableLog.ReceiverOf, k)
    ensures var rs' := rs[m.receiverId := Receivers.AddMessage(ReceiverEntry(rs, m.receiverId), m)];
            forall k :: MessagesOf(rs', k) == MessagesOf(rs0, k) + DurableLog.KeyedBy(log + [m], DurableLog.ReceiverOf, k)
  {
    var rs' := rs[m.receiverId := Receivers.AddMessage(ReceiverEntry(rs, m.receiverId), m)];
    forall k ensures MessagesOf(rs', k) == MessagesOf(rs0, k) + DurableLog.KeyedBy(log + [m], DurableLog.ReceiverOf, k) {
      MessagesAfterAdd(rs, m, k);
      AppendKeyedAt(MessagesOf(rs0, k), MessagesOf(rs, k), log, DurableLog.ReceiverOf, m, k);
    }
  }

  /** Replaying one more row extends the Senders by that row. */
  lemma ReplaySendersStep(ss0: SenderMap, log: seq<MessageRecord>, ss: SenderMap, m: MessageRecord)
    requires ReplayedSenders(ss0, log, ss)
    ensures ReplayedSenders(ss0, log + [m], ss[m.senderId := Senders.AddMessage(SenderEntry(ss, m.senderId), m)])
  {
    var ss' := ss[m.senderId := Senders.AddMessage(SenderEntry(ss, m.senderId), m)];
    PartiesAppend(log, m);
    forall k
      ensures PendingOf(ss', k) == PendingOf(ss0, k) + DurableLog.KeyedBy(log + [m], DurableLog.SenderOf, k)
    {
      PendingAfterAdd(ss, m, k);
      AppendKeyedAt(PendingOf(ss0, k), PendingOf(ss, k), log, DurableLog.SenderOf, m, k);
    }
  }

  /** Before any row is replayed the registries are what they were. */
  lemma ReplayStart(ss: SenderMap, rs: ReceiverMap)
    ensures Replayed(ss, rs, [], ss, rs)
  {
    assert SenderIds([]) == {} && ReceiverIds([]) == {};
    forall k
      ensures QueueOf(rs, k) == QueueOf(rs, k) + DurableLog.IdsTo([], k)
      ensures MessagesOf(rs, k) == MessagesOf(rs, k) + DurableLog.KeyedBy([], DurableLog.ReceiverOf, k)
      ensures PendingOf(ss, k) == PendingOf(ss, k) + DurableLog.KeyedBy([], DurableLog.SenderOf, k)
    {
      assert QueueOf(rs, k) + [] == QueueOf(rs, k);
    }
  }

  /** Replaying the whole log into empty registries makes them mirror the log. */
  lemma ReplayedFromEmpty(log: seq<MessageRecord>, ss: SenderMap, rs: ReceiverMap)
    requires Replayed(map[], map[], log, ss, rs)
    ensures Mirrors(ss, rs, log)
  {
    forall k ensures QueueOf(rs, k) == DurableLog.IdsTo(log, k) {
      assert QueueOf(rs, k) == [] + DurableLog.IdsTo(log, k);
    }
    forall k ensures MessagesOf(rs, k) == DurableLog.KeyedBy(log, DurableLog.ReceiverOf, k) {
      assert MessagesOf(rs, k) == map[] + DurableLog.KeyedBy(log, DurableLog.ReceiverOf, k);
    }
    forall k ensures PendingOf(ss, k) == DurableLog.KeyedBy(log, DurableLog.SenderOf, k) {
      assert PendingOf(ss, k) == map[] + DurableLog.KeyedBy(log, DurableLog.SenderOf, k);
    }
  }

  /** No Sender awaits anything and every Receiver's queue and map are empty. */
  ghost predicate AllIdle(ss: SenderMap, rs: ReceiverMap)
  {
    && (forall k :: k in ss ==> ss[k].pending == map[])
    && (forall k :: k in rs ==> rs[k].queue == [] && rs[k].messages == map[])
  }

  /** When the log mirrors consistent registries, nothing is pending exactly when the log is empty. */
  lemma IdleIffEmpty(ss: SenderMap, rs: ReceiverMap, log: seq<MessageRecord>)
    requires Consistent(ss, rs) && Mirrors(ss, rs, log) && DurableLog.Valid(log)
    ensures AllIdle(ss, rs) <==> log == []
  {
    if log == [] {
      forall k | k in ss ensures ss[k].pending == map[] {
        assert PendingOf(ss, k) == DurableLog.KeyedBy([], DurableLog.SenderOf, k);
      }
      forall k | k in rs ensures rs[k].queue == [] && rs[k].messages == map[] {
        assert QueueOf(rs, k) == DurableLog.IdsTo([], k);
        assert MessagesOf(rs, k) == DurableLog.KeyedBy([], DurableLog.ReceiverOf, k);
      }
    } else {
      var m := log[0];
      DurableLog.KeyedByComplete(log, DurableLog.SenderOf, m.senderId);
      assert m.id in PendingOf(ss, m.senderId);
      assert m.senderId in ss && ss[m.senderId].pending != map[];
    }
  }

  /** Empty registries are consistent. */
  lemma EmptyConsistent()
    ensures Consistent(map[], map[])
  {
  }
}
