/**
 * The message dispatcher (Dispatcher.java) together with the operations that
 * Sender.java and Receiver.java perform on it.
 *
 * The source keeps its state in static fields; here it is the one `Dispatcher`
 * object. The Sender and Receiver objects are the entries of its two registries,
 * and a message's link to its Sender or Receiver is the registry key it names.
 * The durable store behind the entity manager is the field `store`, kept in
 * ascending serial order, and `persistent` says whether an entity manager is set.
 */
module Dispatching {
  import opened Wrappers
  import opened Messages
  import Senders
  import Receivers
  import DurableLog
  import opened Registry
  import opened Collections

  /** Why a token-based registration was refused. */
  datatype DispatchError =
    | NotInitialized   // init was never called (IllegalStateException)
    | InvalidToken     // the token does not decode to a user id (SignatureException)

  class Dispatcher {
    /** The token service set by init: a token's user id, or None for a token that does not decode. */
    var resolver: Option<string -> Option<int>>
    /** Whether init was given a persistence provider. */
    var persistent: bool
    /** The rows of the durable message table, in serial order. */
    var store: seq<MessageRecord>
    /** The serial the store will give the next persisted row. */
    var nextSerial: int
    var senders: SenderMap
    var receivers: ReceiverMap
    /** Every reception event delivered to a callback so far, in order. */
    var receipts: seq<Senders.Receipt>

    /** Both registries agree with each other, and the store is ordered by serial with distinct ids. */
    ghost predicate Valid()
      reads this
    {
      Consistent(senders, receivers) && StoreValid(store, nextSerial)
    }

    /** Persistence is on and the store holds exactly the pending messages. */
    ghost predicate Mirrored()
      reads this
    {
      persistent && Mirrors(senders, receivers, store)
    }

    /** `x` is used by no pending message and no stored row. */
    ghost predicate Fresh(x: string)
      reads this
    {
      NotLive(senders, receivers, x) && x !in Ids(store)
    }

    /** A dispatcher before init, over a durable store that already holds `log`. */
    constructor (log: seq<MessageRecord>)
      requires DurableLog.Valid(log)
      ensures Valid()
      ensures resolver.None? && !persistent && store == log
      ensures senders == map[] && receivers == map[] && receipts == []
    {
      resolver := None;
      persistent := false;
      store := log;
      nextSerial := if log == [] then 1 else log[|log| - 1].serial + 1;
      senders := map[];
      receivers := map[];
      receipts := [];
      new;
      assert forall i :: 0 <= i < |log| ==> log[i].serial <= log[|log| - 1].serial;
      assert forall m :: m in log ==> m.serial < nextSerial;
    }

    /**
     * init: installs the token service and, given a persistence provider, replays
     * the stored rows into the registries. The replay adds to what is registered,
     * so the stored ids must not be pending already (the source's way is cleanup
     * before a second init).
     */
    method Init(resolve: string -> Option<int>, usePersistence: bool)
      requires Valid()
      requires usePersistence ==> forall m :: m in store ==> NotLive(senders, receivers, m.id)
      modifies this
      ensures Valid()
      ensures resolver == Some(resolve) && persistent == (old(persistent) || usePersistence)
      ensures store == old(store) && nextSerial == old(nextSerial) && receipts == old(receipts)
      ensures !usePersistence ==> senders == old(senders) && receivers == old(receivers)
      ensures usePersistence ==> Replayed(old(senders), old(receivers), store, senders, receivers)
      ensures usePersistence && old(senders) == map[] && old(receivers) == map[] ==> Mirrored()
    {
      resolver := Some(resolve);
      if usePersistence {
        RestoreFromPersistence();
        persistent := true;
        if old(senders) == map[] && old(receivers) == map[] {
          ReplayedFromEmpty(store, senders, receivers);
        }
      }
    }

    /**
     * restoreFromPersistence: every stored row, in serial order, registers its
     * Sender and Receiver and is added to both, without being persisted again.
     */
    method RestoreFromPersistence()
      requires Valid()
      requires forall j :: 0 <= j < |store| ==> NotLive(senders, receivers, store[j].id)
      modifies this
      ensures Valid()
      ensures Replayed(old(senders), old(receivers), store, senders, receivers)
      ensures store == old(store) && nextSerial == old(nextSerial) && receipts == old(receipts)
      ensures resolver == old(resolver) && persistent == old(persistent)
    {
      ghost var ss0, rs0 := senders, receivers;
      var log := store;
      ReplayStart(ss0, rs0);
      var i := 0;
      while i < |log|
        invariant 0 <= i <= |log|
        invariant Valid()
        invariant store == log && nextSerial == old(nextSerial) && receipts == old(receipts)
        invariant resolver == old(resolver) && persistent == old(persistent)
        invariant Replayed(ss0, rs0, log[..i], senders, receivers)
        invariant forall j :: i <= j < |log| ==> NotLive(senders, receivers, log[j].id)
      {
        ghost var ss, rs := senders, receivers;
        ReplayAdvance(ss0, rs0, log, i, ss, rs);
        ReplayRow(log[i]);
        i := i + 1;
      }
      assert log[..i] == log;
    }

    /** One row of the replay: its Sender and Receiver are registered and it is added to both. */
    method ReplayRow(m: MessageRecord)
      requires Valid() && NotLive(senders, receivers, m.id)
      modifies this
      ensures Valid()
      ensures (senders, receivers) == AddRow(old(senders), old(receivers), m)
      ensures store == old(store) && nextSerial == old(nextSerial) && receipts == old(receipts)
      ensures resolver == old(resolver) && persistent == old(persistent)
    {
      AddRowConsistent(senders, receivers, m);
      var s := CreateSender(m.senderId);
      var r := CreateReceiver(m.receiverId);
      // setSender / setReceiver on the row only re-link it to the registry keys it already names.
      senders := senders[m.senderId := Senders.AddMessage(s, m)];
      receivers := receivers[m.receiverId := Receivers.AddMessage(r, m)];
      UpdateTwice(old(senders), m.senderId, s, Senders.AddMessage(s, m));
      UpdateTwice(old(receivers), m.receiverId, r, Receivers.AddMessage(r, m));
    }

    /** createSender(int): the Sender registered under `id`, created empty if there is none. */
    method CreateSender(id: int) returns (s: Senders.Sender)
      requires Valid()
      modifies this
      ensures Valid()
      ensures id in senders && s == senders[id] && s == SenderEntry(old(senders), id)
      ensures senders == old(senders)[id := SenderEntry(old(senders), id)]
      ensures id in old(senders) ==> senders == old(senders)
      ensures receivers == old(receivers) && store == old(store) && nextSerial == old(nextSerial)
      ensures receipts == old(receipts) && resolver == old(resolver) && persistent == old(persistent)
      ensures old(Mirrored()) ==> Mirrored()
    {
      RegisterSenderConsistent(senders, receivers, id);
      if Mirrored() {
        RegisterSenderMirrors(senders, receivers, store, id);
      }
      if id !in senders {
        senders := senders[id := Senders.New(id)];
      }
      s := senders[id];
    }

    /** createReceiver(int): the Receiver registered under `id`, created empty if there is none. */
    method CreateReceiver(id: int) returns (r: Receivers.Receiver)
      requires Valid()
      modifies this
      ensures Valid()
      ensures id in receivers && r == receivers[id] && r == ReceiverEntry(old(receivers), id)
      ensures receivers == old(receivers)[id := ReceiverEntry(old(receivers), id)]
      ensures id in old(receivers) ==> receivers == old(receivers)
      ensures senders == old(senders) && store == old(store) && nextSerial == old(nextSerial)
      ensures receipts == old(receipts) && resolver == old(resolver) && persistent == old(persistent)
      ensures forall x :: old(Fresh(x)) ==> Fresh(x)
      ensures old(Mirrored()) ==> Mirrored()
    {
      RegisterReceiverConsistent(senders, receivers, id);
      if Mirrored() {
        RegisterReceiverMirrors(senders, receivers, store, id);
      }
      if id !in receivers {
        receivers := receivers[id := Receivers.New(id)];
      }
      r := receivers[id];
    }

    /** Sender.setCallback: the Sender's callback is replaced; nothing else changes. */
    method SetCallback(id: int, cb: Senders.Callback)
      requires Valid() && id in senders
      modifies this
      ensures Valid()
      ensures senders == old(senders)[id := Senders.SetCallback(old(senders)[id], cb)]
      ensures senders[id].callback == Some(cb) && senders[id].pending == old(senders)[id].pending
      ensures receivers == old(receivers) && store == old(store) && nextSerial == old(nextSerial)
      ensures receipts == old(receipts) && resolver == old(resolver) && persistent == old(persistent)
      ensures old(Mirrored()) ==> Mirrored()
    {
      SetCallbackConsistent(senders, receivers, id, cb);
      senders := senders[id := Senders.SetCallback(senders[id], cb)];
      assert forall k :: PendingOf(senders, k) == PendingOf(old(senders), k);
    }

    /**
     * createSender(String, callback): refused before init or for a token that does
     * not decode; otherwise the token's Sender, created if needed, with its callback
     * replaced when one is given and kept when none is.
     */
    method CreateSenderWithToken(jwt: string, cb: Option<Senders.Callback>) returns (r: Result<int, DispatchError>)
      requires Valid()
      modifies this
      ensures Valid()
      ensures receivers == old(receivers) && store == old(store) && nextSerial == old(nextSerial)
      ensures receipts == old(receipts) && resolver == old(resolver) && persistent == old(persistent)
      ensures resolver.None? ==> r == Err(NotInitialized) && senders == old(senders)
      ensures resolver.Some? && resolver.value(jwt).None? ==> r == Err(InvalidToken) && senders == old(senders)
      ensures resolver.Some? && resolver.value(jwt).Some? ==>
                var id := resolver.value(jwt).value;
                && r == Ok(id)
                && senders.Keys == old(senders).Keys + {id}
                && senders[id].pending == SenderEntry(old(senders), id).pending
                && senders[id].callback == (if cb.Some? then cb else SenderEntry(old(senders), id).callback)
                && forall k :: k in old(senders) && k != id ==> senders[k] == old(senders)[k]
      ensures old(Mirrored()) ==> Mirrored()
    {
      if resolver.None? {
        return Err(NotInitialized);
      }
      var uid := resolver.value(jwt);
      if uid.None? {
        return Err(InvalidToken);
      }
      var _ := CreateSender(uid.value);
      if cb.Some? {
        SetCallback(uid.value, cb.value);
      }
      r := Ok(uid.value);
    }

    /** createReceiver(String): refused before init or for a token that does not decode; otherwise the token's Receiver. */
    method CreateReceiverWithToken(jwt: string) returns (r: Result<int, DispatchError>)
      requires Valid()
      modifies this
      ensures Valid()
      ensures senders == old(senders) && store == old(store) && nextSerial == old(nextSerial)
      ensures receipts == old(receipts) && resolver == old(resolver) && persistent == old(persistent)
      ensures resolver.None? ==> r == Err(NotInitialized) && receivers == old(receivers)
      ensures resolver.Some? && resolver.value(jwt).None? ==> r == Err(InvalidToken) && receivers == old(receivers)
      ensures resolver.Some? && resolver.value(jwt).Some? ==>
                var id := resolver.value(jwt).value;
                r == Ok(id) && receivers == old(receivers)[id := ReceiverEntry(old(receivers), id)]
      ensures old(Mirrored()) ==> Mirrored()
    {
      if resolver.None? {
        return Err(NotInitialized);
      }
      var uid := resolver.value(jwt);
      if uid.None? {
        return Err(InvalidToken);
      }
      var _ := CreateReceiver(uid.value);
      r := Ok(uid.value);
    }

    /** Sender.isAwaiting: whether message `x` is still pending at Sender `sid`. */
    predicate IsAwaiting(sid: int, x: string)
      reads this
      requires sid in senders
      ensures Valid() ==>
                (IsAwaiting(sid, x) <==>
                 exists rid :: rid in receivers && x in receivers[rid].messages && receivers[rid].messages[x].senderId == sid)
    {
      Registry.AwaitingIffHeld(senders, receivers, sid, x);
      Senders.IsAwaiting(senders[sid], x)
    }

    /**
     * Sender.sendMessage: the message is stamped with the fresh id `id` (the source
     * draws a random UUID), linked to its Sender and to the Receiver of `rid`
     * (created if needed), given its receipt flag and a serial when persistence is
     * on, and then sits pending at the Sender and at the tail of the Receiver's
     * queue, exactly as replaying its stored row would place it.
     */
    method SendMessage(sid: int, msg: Message, rid: int, needsReceipt: bool, id: string) returns (r: string)
      requires Valid() && sid in senders && Fresh(id)
      modifies this, msg
      ensures Valid()
      ensures r == id
      ensures msg.View() == old(msg.View()).(
                serial := if persistent then old(nextSerial) else old(msg.serial),
                messageId := Some(id), senderId := sid, sender := Some(sid),
                receiverId := rid, receiver := Some(rid), needsReceipt := needsReceipt)
      ensures (senders, receivers) == AddRow(old(senders), old(receivers), msg.Snapshot())
      ensures store == (if persistent then old(store) + [msg.Snapshot()] else old(store))
      ensures nextSerial == (if persistent then old(nextSerial) + 1 else old(nextSerial))
      ensures receipts == old(receipts) && resolver == old(resolver) && persistent == old(persistent)
      ensures IsAwaiting(sid, id)
      ensures rid in receivers && receivers[rid].queue == QueueOf(old(receivers), rid) + [id]
      ensures old(Mirrored()) ==> Mirrored()
    {
      var rcv := CreateReceiver(rid);
      Stamp(msg, id, sid, rid, needsReceipt);
      // The store assigns the serial on persist; the registries record the message with it.
      Persist(msg);
      var m := msg.Snapshot();
      SendKeepsValid(old(senders), old(receivers), old(store), old(nextSerial), m, persistent);
      senders := senders[sid := Senders.AddMessage(senders[sid], m)];
      receivers := receivers[rid := Receivers.AddMessage(rcv, m)];
      UpdateTwice(old(receivers), rid, rcv, Receivers.AddMessage(rcv, m));
      r := id;
    }

    /**
     * Sender.retreivedMessage: the message stops being pending at its Sender, and
     * its callback gets one reception event when the message asked for a receipt.
     */
    method RetrievedMessage(m: MessageRecord)
      requires m.senderId in senders
      modifies this
      ensures senders == old(senders)[m.senderId := Senders.Retrieved(old(senders)[m.senderId], m).0]
      ensures receipts == old(receipts) + Senders.Retrieved(old(senders)[m.senderId], m).1
      ensures receivers == old(receivers) && store == old(store) && nextSerial == old(nextSerial)
      ensures resolver == old(resolver) && persistent == old(persistent)
    {
      var t := Senders.Retrieved(senders[m.senderId], m);
      senders := senders[m.senderId := t.0];
      receipts := receipts + t.1;
    }

    /**
     * Receiver.getNextMessage: nothing when the queue is empty; otherwise the
     * message at its head, taken out of the Receiver and the Sender, with the
     * Sender's receipt and the stored row removed.
     */
    method GetNextMessage(rid: int) returns (r: Option<MessageRecord>)
      requires Valid() && rid in receivers
      modifies this
      ensures Valid()
      ensures r.None? <==> old(receivers)[rid].queue == []
      ensures r == Receivers.Poll(old(receivers)[rid]).0
      ensures r.None? ==> senders == old(senders) && receivers == old(receivers)
                          && store == old(store) && receipts == old(receipts)
      ensures r.Some? ==>
                && r.value.id == old(receivers)[rid].queue[0]
                && r.value.senderId in old(senders)
                && (senders, receivers) == Removal(old(senders), old(receivers), r.value)
                && receipts == old(receipts) + Senders.Retrieved(old(senders)[r.value.senderId], r.value).1
                && store == (if persistent then DurableLog.Forget(old(store), r.value.id) else old(store))
      ensures nextSerial == old(nextSerial) && resolver == old(resolver) && persistent == old(persistent)
      ensures old(Mirrored()) ==> Mirrored()
    {
      var p := Receivers.Poll(receivers[rid]);
      if p.0.Some? {
        var m := p.0.value;
        Receivers.PollTakesHead(receivers[rid]);
        HeldIsRemovable(senders, receivers, rid, m.id);
        RemovalKeepsValid(senders, receivers, store, nextSerial, m, persistent);
        receivers := receivers[rid := p.1];
        RetrievedMessage(m);
        Remove(m);
      }
      r := p.0;
    }

    /**
     * Receiver.getMessage: nothing when message `x` is not pending here; otherwise
     * that message, taken out of the Receiver and the Sender, with the Sender's
     * receipt and the stored row removed.
     */
    method GetMessage(rid: int, x: string) returns (r: Option<MessageRecord>)
      requires Valid() && rid in receivers
      modifies this
      ensures Valid()
      ensures r.Some? <==> x in old(receivers)[rid].messages
      ensures r == Receivers.Take(old(receivers)[rid], x).0
      ensures r.None? ==> senders == old(senders) && receivers == old(receivers)
                          && store == old(store) && receipts == old(receipts)
      ensures r.Some? ==>
                && r.value.id == x
                && r.value.senderId in old(senders)
                && (senders, receivers) == Removal(old(senders), old(receivers), r.value)
                && receipts == old(receipts) + Senders.Retrieved(old(senders)[r.value.senderId], r.value).1
                && store == (if persistent then DurableLog.Forget(old(store), x) else old(store))
      ensures nextSerial == old(nextSerial) && resolver == old(resolver) && persistent == old(persistent)
      ensures old(Mirrored()) ==> Mirrored()
    {
      var t := Receivers.Take(receivers[rid], x);
      if t.0.Some? {
        var m := t.0.value;
        HeldIsRemovable(senders, receivers, rid, x);
        RemovalKeepsValid(senders, receivers, store, nextSerial, m, persistent);
        receivers := receivers[rid := t.1];
        RetrievedMessage(m);
        Remove(m);
      }
      r := t.0;
    }

    /** Receiver.deleteMessage: the message leaves its Receiver's map and queue, and its stored row is removed. */
    method ReceiverDeleteMessage(m: MessageRecord)
      requires m.receiverId in receivers && Receivers.Valid(receivers[m.receiverId])
      modifies this
      ensures receivers == old(receivers)[m.receiverId := Receivers.Delete(old(receivers)[m.receiverId], m.id)]
      ensures store == if persistent then DurableLog.Forget(old(store), m.id) else old(store)
      ensures senders == old(senders) && receipts == old(receipts) && nextSerial == old(nextSerial)
      ensures resolver == old(resolver) && persistent == old(persistent)
    {
      receivers := receivers[m.receiverId := Receivers.Delete(receivers[m.receiverId], m.id)];
      Remove(m);
    }

    /**
     * Sender.removeMessage: false and nothing changed when message `x` is not
     * pending at Sender `sid`; otherwise true, with the message taken out of the
     * Sender and its Receiver and its stored row removed, and no receipt.
     */
    method RemoveMessage(sid: int, x: string) returns (b: bool)
      requires Valid() && sid in senders
      modifies this
      ensures Valid()
      ensures b == old(IsAwaiting(sid, x))
      ensures !b ==> senders == old(senders) && receivers == old(receivers) && store == old(store)
      ensures b ==>
                var m := old(senders)[sid].pending[x];
                && m.id == x && m.senderId == sid
                && (senders, receivers) == Removal(old(senders), old(receivers), m)
                && store == (if persistent then DurableLog.Forget(old(store), x) else old(store))
      ensures sid in senders && !IsAwaiting(sid, x)
      ensures receipts == old(receipts) && nextSerial == old(nextSerial)
      ensures resolver == old(resolver) && persistent == old(persistent)
      ensures old(Mirrored()) ==> Mirrored()
    {
      var d := Senders.DeleteMessage(senders[sid], x);
      if d.0.None? {
        assert d.1.pending == senders[sid].pending;
        senders := senders[sid := d.1];
        assert senders == old(senders);
        return false;
      }
      var m := d.0.value;
      PendingIsRemovable(senders, receivers, sid, x);
      RemovalKeepsValid(senders, receivers, store, nextSerial, m, persistent);
      senders := senders[sid := d.1];
      ReceiverDeleteMessage(m);
      b := true;
    }

    /**
     * cleanup: reports whether no Sender had anything pending and, only if so,
     * whether every Receiver's map and queue were empty (the second check is not
     * made once the first fails); then empties both registries. The stored rows
     * are left for a later init to replay.
     */
    method Cleanup() returns (allEmpty: bool)
      requires Valid()
      modifies this
      ensures Valid()
      ensures allEmpty <==> AllIdle(old(senders), old(receivers))
      ensures senders == map[] && receivers == map[]
      ensures store == old(store) && nextSerial == old(nextSerial) && receipts == old(receipts)
      ensures resolver == old(resolver) && persistent == old(persistent)
    {
      // The source commits and closes the entity manager here; the rows it holds stay.
      allEmpty := AllIdleScan(senders, receivers);
      senders := map[];
      receivers := map[];
      EmptyConsistent();
    }

    /** persist: with persistence on, the store gives the message the next serial and keeps its row; otherwise nothing. */
    method Persist(msg: Message)
      requires msg.messageId.Some?
      modifies this, msg
      ensures persistent ==> msg.View() == old(msg.View()).(serial := old(nextSerial))
      ensures persistent ==> store == old(store) + [msg.Snapshot()] && nextSerial == old(nextSerial) + 1
      ensures !persistent ==> msg.View() == old(msg.View()) && store == old(store) && nextSerial == old(nextSerial)
      ensures senders == old(senders) && receivers == old(receivers) && receipts == old(receipts)
      ensures resolver == old(resolver) && persistent == old(persistent)
    {
      if persistent {
        msg.SetSerial(nextSerial);
        store := store + [msg.Snapshot()];
        nextSerial := nextSerial + 1;
      }
    }

    /** remove: with persistence on, the row of the message leaves the store; otherwise nothing. */
    method Remove(m: MessageRecord)
      modifies this
      ensures store == if persistent then DurableLog.Forget(old(store), m.id) else old(store)
      ensures senders == old(senders) && receivers == old(receivers) && receipts == old(receipts)
      ensures resolver == old(resolver) && persistent == old(persistent) && nextSerial == old(nextSerial)
    {
      if persistent {
        store := DurableLog.Forget(store, m.id);
      }
    }
  }

  /** The stamping at the start of Sender.sendMessage: id, Sender link, Receiver link and receipt flag. */
  method Stamp(msg: Message, id: string, sid: int, rid: int, needsReceipt: bool)
    modifies msg
    ensures msg.View() == old(msg.View()).(messageId := Some(id), senderId := sid, sender := Some(sid),
                                           receiverId := rid, receiver := Some(rid), needsReceipt := needsReceipt)
  {
    msg.SetMessageId(id);
    msg.SetSender(sid);
    msg.SetReceiver(rid);
    msg.SetNeedsReceipt(needsReceipt);
  }

  /** The durable store is ordered by serial with distinct ids, and every serial is below the next one. */
  ghost predicate StoreValid(log: seq<MessageRecord>, n: int)
  {
    DurableLog.Valid(log) && forall m :: m in log ==> m.serial < n
  }

  /** The registries after message `m` is taken out of its Receiver and its Sender. */
  function Removal(ss: SenderMap, rs: ReceiverMap, m: MessageRecord): (SenderMap, ReceiverMap)
    requires m.receiverId in rs && Receivers.Valid(rs[m.receiverId])
  {
    (ss[m.senderId := Senders.DeleteMessage(SenderEntry(ss, m.senderId), m.id).1],
     rs[m.receiverId := Receivers.Delete(rs[m.receiverId], m.id)])
  }

  /** A message a Receiver holds is pending at its Sender and held under its own id. */
  lemma HeldIsRemovable(ss: SenderMap, rs: ReceiverMap, rid: int, x: string)
    requires Consistent(ss, rs) && rid in rs && x in rs[rid].messages
    ensures PendingAt(ss, rs[rid].messages[x]) && QueuedAt(rs, rs[rid].messages[x])
    ensures rs[rid].messages[x].id == x && rs[rid].messages[x].receiverId == rid
  {
    assert Receivers.Valid(rs[rid]);
  }

  /** A message pending at a Sender is held by its Receiver and pending under its own id. */
  lemma PendingIsRemovable(ss: SenderMap, rs: ReceiverMap, sid: int, x: string)
    requires Consistent(ss, rs) && sid in ss && x in ss[sid].pending
    ensures PendingAt(ss, ss[sid].pending[x]) && QueuedAt(rs, ss[sid].pending[x])
    ensures ss[sid].pending[x].id == x && ss[sid].pending[x].senderId == sid
  {
    assert Senders.Valid(ss[sid]);
  }

  /** Taking a pending message out of both parties, and its row out of the store, keeps the dispatcher valid and mirrored. */
  lemma RemovalKeepsValid(ss: SenderMap, rs: ReceiverMap, log: seq<MessageRecord>, n: int, m: MessageRecord, persistent: bool)
    requires Consistent(ss, rs) && StoreValid(log, n) && PendingAt(ss, m) && QueuedAt(rs, m)
    ensures Receivers.Valid(rs[m.receiverId])
    ensures Consistent(Removal(ss, rs, m).0, Removal(ss, rs, m).1)
    ensures StoreValid(if persistent then DurableLog.Forget(log, m.id) else log, n)
    ensures persistent && Mirrors(ss, rs, log) ==>
              Mirrors(Removal(ss, rs, m).0, Removal(ss, rs, m).1, DurableLog.Forget(log, m.id))
  {
    RemoveConsistent(ss, rs, m);
    DurableLog.ForgetValid(log, m.id);
    DurableLog.ForgetRows(log, m.id);
    if persistent && Mirrors(ss, rs, log) {
      RemoveMirrors(ss, rs, log, m);
    }
  }

  /** Sending a message with an unused id keeps the dispatcher valid and, when persisted, mirrored. */
  lemma SendKeepsValid(ss: SenderMap, rs: ReceiverMap, log: seq<MessageRecord>, n: int, m: MessageRecord, persistent: bool)
    requires Consistent(ss, rs) && StoreValid(log, n) && NotLive(ss, rs, m.id) && m.id !in Ids(log)
    requires m.senderId in ss && (persistent ==> m.serial == n)
    ensures Consistent(AddRow(ss, rs, m).0, AddRow(ss, rs, m).1)
    ensures persistent ==> StoreValid(log + [m], n + 1)
    ensures persistent && Mirrors(ss, rs, log) ==> Mirrors(AddRow(ss, rs, m).0, AddRow(ss, rs, m).1, log + [m])
  {
    AddRowConsistent(ss, rs, m);
    if persistent {
      DurableLog.AppendValid(log, m);
      if Mirrors(ss, rs, log) {
        RegisterReceiverMirrors(ss, rs, log, m.receiverId);
        var rs1 := rs[m.receiverId := ReceiverEntry(rs, m.receiverId)];
        SendMirrors(ss, rs1, log, m);
        UpdateTwice(rs, m.receiverId, ReceiverEntry(rs, m.receiverId), Receivers.AddMessage(ReceiverEntry(rs, m.receiverId), m));
      }
    }
  }

  /** The scan of cleanup: the Senders first, then the Receivers only if every Sender was idle. */
  method AllIdleScan(ss: SenderMap, rs: ReceiverMap) returns (idle: bool)
    requires ReceiversWellFormed(rs)
    ensures idle <==> AllIdle(ss, rs)
  {
    idle := SendersIdle(ss);
    if idle {
      idle := ReceiversIdle(rs);
    }
  }

  /**
   * The Senders' half of cleanup: each Sender in turn reports whether it had
   * nothing pending, stopping at the first that had something.
   */
  method SendersIdle(ss: SenderMap) returns (idle: bool)
    ensures idle <==> forall k :: k in ss ==> ss[k].pending == map[]
  {
    idle := true;
    var todo := ss.Keys;
    while idle && todo != {}
      invariant todo <= ss.Keys
      invariant idle <==> forall k :: k in ss && k !in todo ==> ss[k].pending == map[]
      decreases |todo|
    {
      ghost var w := Pick(todo);
      var k :| k in todo;
      var c := Senders.Cleanup(ss[k]);
      idle := c.0;
      if !idle {
        ghost var x :| Senders.IsAwaiting(ss[k], x);
      }
      todo := todo - {k};
    }
  }

  /**
   * The Receivers' half of cleanup: each Receiver in turn reports whether its map
   * and queue were empty, stopping at the first that was not.
   */
  method ReceiversIdle(rs: ReceiverMap) returns (idle: bool)
    requires forall k :: k in rs ==> Receivers.Valid(rs[k])
    ensures idle <==> forall k :: k in rs ==> rs[k].queue == [] && rs[k].messages == map[]
  {
    idle := true;
    var todo := rs.Keys;
    while idle && todo != {}
      invariant todo <= rs.Keys
      invariant idle <==> forall k :: k in rs && k !in todo ==> rs[k].queue == [] && rs[k].messages == map[]
      decreases |todo|
    {
      ghost var w := Pick(todo);
      var k :| k in todo;
      var c := Receivers.Cleanup(rs[k]);
      idle := c.0;
      todo := todo - {k};
    }
  }

  /** The registries after registering the parties of row `m` and adding it to both. */
  function AddRow(ss: SenderMap, rs: ReceiverMap, m: MessageRecord): (SenderMap, ReceiverMap)
  {
    (ss[m.senderId := Senders.AddMessage(SenderEntry(ss, m.senderId), m)],
     rs[m.receiverId := Receivers.AddMessage(ReceiverEntry(rs, m.receiverId), m)])
  }

  /** Replaying a row whose id is unused keeps the registries consistent. */
  lemma AddRowConsistent(ss: SenderMap, rs: ReceiverMap, m: MessageRecord)
    requires Consistent(ss, rs) && NotLive(ss, rs, m.id)
    ensures Consistent(AddRow(ss, rs, m).0, AddRow(ss, rs, m).1)
  {
    RegisterSenderConsistent(ss, rs, m.senderId);
    var ss1 := ss[m.senderId := SenderEntry(ss, m.senderId)];
    RegisterReceiverConsistent(ss1, rs, m.receiverId);
    var rs1 := rs[m.receiverId := ReceiverEntry(rs, m.receiverId)];
    SendConsistent(ss1, rs1, m);
    assert ss1[m.senderId := Senders.AddMessage(ss1[m.senderId], m)] == AddRow(ss, rs, m).0;
    assert rs1[m.receiverId := Receivers.AddMessage(rs1[m.receiverId], m)] == AddRow(ss, rs, m).1;
  }

  /** Replaying a row leaves every other id unused if it was unused. */
  lemma AddRowNotLive(ss: SenderMap, rs: ReceiverMap, m: MessageRecord, y: string)
    requires NotLive(ss, rs, y) && y != m.id
    ensures NotLive(AddRow(ss, rs, m).0, AddRow(ss, rs, m).1, y)
  {
    var ss', rs' := AddRow(ss, rs, m).0, AddRow(ss, rs, m).1;
    forall k | k in ss' ensures y !in ss'[k].pending {
      if k != m.senderId { assert ss'[k] == ss[k]; }
    }
    forall k | k in rs' ensures y !in rs'[k].messages {
      if k != m.receiverId { assert rs'[k] == rs[k]; }
    }
  }

  /** Replaying row `i` extends the replay of the rows before it. */
  lemma AddRowReplayed(ssI: SenderMap, rsI: ReceiverMap, log: seq<MessageRecord>, i: int, ss: SenderMap, rs: ReceiverMap)
    requires 0 <= i < |log|
    requires Replayed(ssI, rsI, log[..i], ss, rs)
    ensures Replayed(ssI, rsI, log[..i + 1], AddRow(ss, rs, log[i]).0, AddRow(ss, rs, log[i]).1)
  {
    assert log[..i + 1] == log[..i] + [log[i]];
    ReplayedAppend(ssI, rsI, log[..i], ss, rs, log[i]);
  }

  /** Replaying one more row extends the replay by that row. */
  lemma ReplayedAppend(ssI: SenderMap, rsI: ReceiverMap, p: seq<MessageRecord>, ss: SenderMap, rs: ReceiverMap, m: MessageRecord)
    requires Replayed(ssI, rsI, p, ss, rs)
    ensures Replayed(ssI, rsI, p + [m], AddRow(ss, rs, m).0, AddRow(ss, rs, m).1)
  {
    ReplaySendersStep(ssI, p, ss, m);
    ReplayReceiversStep(rsI, p, rs, m);
  }

  /** The replay loop advances over row `i`: one more row replayed, the later rows' ids still unused. */
  lemma ReplayAdvance(ssI: SenderMap, rsI: ReceiverMap, log: seq<MessageRecord>, i: int, ss: SenderMap, rs: ReceiverMap)
    requires 0 <= i < |log| && DurableLog.Valid(log)
    requires Replayed(ssI, rsI, log[..i], ss, rs)
    requires forall j :: i <= j < |log| ==> NotLive(ss, rs, log[j].id)
    ensures Replayed(ssI, rsI, log[..i + 1], AddRow(ss, rs, log[i]).0, AddRow(ss, rs, log[i]).1)
    ensures forall j :: i + 1 <= j < |log| ==> NotLive(AddRow(ss, rs, log[i]).0, AddRow(ss, rs, log[i]).1, log[j].id)
  {
    AddRowReplayed(ssI, rsI, log, i, ss, rs);
    forall j | i + 1 <= j < |log|
      ensures NotLive(AddRow(ss, rs, log[i]).0, AddRow(ss, rs, log[i]).1, log[j].id)
    {
      AddRowNotLive(ss, rs, log[i], log[j].id);
    }
  }

  /**
   * cleanup followed by init with persistence, as a restart does: every Receiver's
   * queue and map and every Sender's pending map come back as they were, and
   * cleanup reported true exactly when nothing was stored.
   */
  method Restart(d: Dispatcher, resolve: string -> Option<int>) returns (allEmpty: bool)
    requires d.Valid() && d.Mirrored()
    modifies d
    ensures d.Valid() && d.Mirrored()
    ensures allEmpty <==> old(d.store) == []
    ensures d.store == old(d.store) && d.resolver == Some(resolve)
    ensures forall k :: QueueOf(d.receivers, k) == old(QueueOf(d.receivers, k))
    ensures forall k :: MessagesOf(d.receivers, k) == old(MessagesOf(d.receivers, k))
    ensures forall k :: PendingOf(d.senders, k) == old(PendingOf(d.senders, k))
    ensures forall k :: k in d.senders ==> d.senders[k].callback.None?
  {
    IdleIffEmpty(d.senders, d.receivers, d.store);
    allEmpty := d.Cleanup();
    d.Init(resolve, true);
  }
}
