/**
 * The per-sender bookkeeping (Sender.java): the map of messages this sender has sent
 * that are still pending, and the optional reception callback. Each function gives
 * the entry after one of the sender's operations; the dispatcher stores it back into
 * its registry.
 */
module Senders {
  import opened Wrappers
  import opened Messages

  /** A reception callback object, known by an opaque handle. */
  type Callback = int

  /** One invocation of a callback's `receptionEvent` with a retrieved message. */
  datatype Receipt = Receipt(callback: Callback, message: MessageRecord)

  datatype Sender = Sender(id: int, callback: Option<Callback>, pending: map<string, MessageRecord>)

  /** Every pending message is keyed by its own id and was sent by this sender. */
  ghost predicate Valid(s: Sender)
  {
    forall x :: x in s.pending ==> s.pending[x].id == x && s.pending[x].senderId == s.id
  }

  /** A new sender: nothing pending, no callback. */
  function New(id: int): (s: Sender)
    ensures s.id == id && s.callback.None? && s.pending == map[]
    ensures Valid(s) && forall x :: !IsAwaiting(s, x)
  {
    Sender(id, None, map[])
  }

  /** setCallback: the callback replaces any earlier one; nothing else changes. */
  function SetCallback(s: Sender, cb: Callback): (s': Sender)
    ensures s'.callback == Some(cb) && s'.id == s.id && s'.pending == s.pending
  {
    s.(callback := Some(cb))
  }

  /** isAwaiting: whether the message is still pending for this sender. */
  predicate IsAwaiting(s: Sender, x: string)
  {
    x in s.pending
  }

  /** addMessage: the message becomes pending under its id. */
  function AddMessage(s: Sender, m: MessageRecord): (s': Sender)
    ensures IsAwaiting(s', m.id) && s'.pending[m.id] == m
    ensures s'.pending == s.pending[m.id := m]
    ensures forall x :: x != m.id ==> (IsAwaiting(s', x) <==> IsAwaiting(s, x))
    ensures s'.id == s.id && s'.callback == s.callback
    ensures Valid(s) && m.senderId == s.id ==> Valid(s')
  {
    s.(pending := s.pending[m.id := m])
  }

  /** deleteMessage: the pending message with id `x`, if any, removed from the map. */
  function DeleteMessage(s: Sender, x: string): (res: (Option<MessageRecord>, Sender))
    ensures res.0.Some? <==> IsAwaiting(s, x)
    ensures res.0.Some? ==> res.0.value == s.pending[x]
    ensures !IsAwaiting(res.1, x)
    ensures forall y :: y != x ==> (IsAwaiting(res.1, y) <==> IsAwaiting(s, y))
    ensures res.1.pending == s.pending - {x} && res.1.id == s.id && res.1.callback == s.callback
    ensures Valid(s) ==> Valid(res.1)
  {
    if x in s.pending then (Some(s.pending[x]), s.(pending := s.pending - {x}))
    else (None, s)
  }

  /**
   * retreivedMessage: the message is no longer pending, and the callback is invoked
   * with it exactly when the message asked for a receipt and a callback is set.
   */
  function Retrieved(s: Sender, m: MessageRecord): (res: (Sender, seq<Receipt>))
    ensures !IsAwaiting(res.0, m.id)
    ensures res.0 == DeleteMessage(s, m.id).1
    ensures |res.1| <= 1
    ensures res.1 != [] <==> m.needsReceipt && s.callback.Some?
    ensures res.1 != [] ==> res.1[0] == Receipt(s.callback.value, m)
  {
    var (_, s') := DeleteMessage(s, m.id);
    if m.needsReceipt && s.callback.Some? then (s', [Receipt(s.callback.value, m)]) else (s', [])
  }

  /** cleanup: whether nothing was pending; the pending map is emptied. */
  function Cleanup(s: Sender): (res: (bool, Sender))
    ensures !res.0 <==> exists x :: IsAwaiting(s, x)
    ensures res.1.pending == map[] && res.1.id == s.id && res.1.callback == s.callback
  {
    if s.pending == map[] then (true, s)
    else
      var x :| x in s.pending;
      assert IsAwaiting(s, x);
      (false, s.(pending := map[]))
  }

  /** The sender and the receipts after messages `ms` have been retrieved one after another. */
  function RetrieveAll(s: Sender, ms: seq<MessageRecord>): (Sender, seq<Receipt>)
    decreases |ms|
  {
    if ms == [] then (s, [])
    else
      var first := Retrieved(s, ms[0]);
      var rest := RetrieveAll(first.0, ms[1..]);
      (rest.0, first.1 + rest.1)
  }

  /** The messages among `ms` that asked for a receipt, in order. */
  function ReceiptRequested(ms: seq<MessageRecord>): (r: seq<MessageRecord>)
    ensures forall m :: m in r <==> m in ms && m.needsReceipt
  {
    if ms == [] then []
    else (if ms[0].needsReceipt then [ms[0]] else []) + ReceiptRequested(ms[1..])
  }

  /**
   * Receipts over a run of retrievals: a sender with a callback sees one reception
   * event per retrieved message that asked for a receipt, in retrieval order, and
   * none for the others; a sender without a callback sees none.
   */
  lemma {:induction false} RetrieveAllReceipts(s: Sender, ms: seq<MessageRecord>)
    ensures RetrieveAll(s, ms).1 ==
              if s.callback.None? then [] else ReceiptsFor(s.callback.value, ReceiptRequested(ms))
    ensures RetrieveAll(s, ms).0.callback == s.callback && RetrieveAll(s, ms).0.id == s.id
    decreases |ms|
  {
    if ms != [] {
      var first := Retrieved(s, ms[0]);
      RetrieveAllReceipts(first.0, ms[1..]);
      var head := if ms[0].needsReceipt then [ms[0]] else [];
      assert ReceiptRequested(ms) == head + ReceiptRequested(ms[1..]);
      if s.callback.Some? {
        var cb := s.callback.value;
        ReceiptsForAppend(cb, head, ReceiptRequested(ms[1..]));
        assert first.1 == ReceiptsFor(cb, head);
      } else {
        assert first.1 == [];
      }
    }
  }

  /**
   * Retrieving messages `ms` leaves none of them pending and every other message
   * exactly as pending as before.
   */
  lemma {:induction false} RetrieveAllPending(s: Sender, ms: seq<MessageRecord>)
    ensures forall x :: IsAwaiting(RetrieveAll(s, ms).0, x) <==> IsAwaiting(s, x) && x !in Ids(ms)
    decreases |ms|
  {
    if ms != [] {
      var first := Retrieved(s, ms[0]);
      RetrieveAllPending(first.0, ms[1..]);
      assert Ids(ms) == [ms[0].id] + Ids(ms[1..]);
    }
  }

  /** The receipts a callback `cb` gets for the messages `ms`. */
  function ReceiptsFor(cb: Callback, ms: seq<MessageRecord>): seq<Receipt>
  {
    seq(|ms|, i requires 0 <= i < |ms| => Receipt(cb, ms[i]))
  }

  lemma ReceiptsForAppend(cb: Callback, a: seq<MessageRecord>, b: seq<MessageRecord>)
    ensures ReceiptsFor(cb, a + b) == ReceiptsFor(cb, a) + ReceiptsFor(cb, b)
  {
    assert |ReceiptsFor(cb, a + b)| == |ReceiptsFor(cb, a) + ReceiptsFor(cb, b)|;
  }
}
