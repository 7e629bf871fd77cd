/**
 * A message and its metadata (Message.java).
 *
 * `Message` is the mutable object a sender fills in and hands to `sendMessage`;
 * `MessageRecord` is the value the registries and the durable log keep once the
 * message has been stamped and sent.
 */
module Messages {
  import opened Wrappers

  /** The fields of a sent message, as the registries and the durable log hold them. */
  datatype MessageRecord = MessageRecord(
    serial: int,                  // order number given by the durable log (0 if never persisted)
    id: string,                   // the message id, assigned at send
    senderId: int,
    receiverId: int,
    needsReceipt: bool,
    subject: Option<string>,      // None stands for a subject never set (Java null)
    params: map<string, string>)

  /** Everything a `Message` object holds, as one value. */
  datatype MessageView = MessageView(
    serial: int,
    messageId: Option<string>,
    senderId: int,
    receiverId: int,
    needsReceipt: bool,
    subject: Option<string>,
    params: map<string, string>,
    sender: Option<int>,
    receiver: Option<int>)

  class Message {
    var serial: int
    var messageId: Option<string>
    var senderId: int
    var receiverId: int
    var needsReceipt: bool
    var subject: Option<string>
    var params: map<string, string>
    /** The link to the current Sender, kept as its registry key. */
    var sender: Option<int>
    /** The link to the current Receiver, kept as its registry key. */
    var receiver: Option<int>

    ghost function View(): MessageView
      reads this
    {
      MessageView(serial, messageId, senderId, receiverId, needsReceipt, subject, params, sender, receiver)
    }

    /** A new message: no id, no links, no subject and an empty parameter table. */
    constructor ()
      ensures View() == MessageView(0, None, 0, 0, false, None, map[], None, None)
      ensures GetParams() == map[]
    {
      serial, messageId, senderId, receiverId := 0, None, 0, 0;
      needsReceipt, subject, params := false, None, map[];
      sender, receiver := None, None;
    }

    function GetSerial(): int reads this { serial }
    function GetMessageId(): Option<string> reads this { messageId }
    function GetSenderId(): int reads this { senderId }
    function GetReceiverId(): int reads this { receiverId }
    function GetSender(): Option<int> reads this { sender }
    function GetReceiver(): Option<int> reads this { receiver }
    function IsNeedsReceipt(): bool reads this { needsReceipt }
    function GetSubject(): Option<string> reads this { subject }
    function GetParams(): map<string, string> reads this { params }

    /** The parameter stored under `key`, or None (Java null) when there is none. */
    function GetParam(key: string): (r: Option<string>)
      reads this
      ensures r.None? <==> key !in params
      ensures r.Some? ==> key in params && params[key] == r.value
    {
      if key in params then Some(params[key]) else None
    }

    method SetSerial(s: int)
      modifies this
      ensures GetSerial() == s
      ensures View() == old(View()).(serial := s)
    {
      serial := s;
    }

    method SetMessageId(id: string)
      modifies this
      ensures GetMessageId() == Some(id)
      ensures View() == old(View()).(messageId := Some(id))
    {
      messageId := Some(id);
    }

    method SetSenderId(id: int)
      modifies this
      ensures GetSenderId() == id
      ensures View() == old(View()).(senderId := id)
    {
      senderId := id;
    }

    method SetReceiverId(id: int)
      modifies this
      ensures GetReceiverId() == id
      ensures View() == old(View()).(receiverId := id)
    {
      receiverId := id;
    }

    /** Links the message to the Sender registered under `s` and copies its id. */
    method SetSender(s: int)
      modifies this
      ensures GetSender() == Some(s) && GetSenderId() == s
      ensures View() == old(View()).(sender := Some(s), senderId := s)
    {
      sender := Some(s);
      senderId := s;
    }

    /** Links the message to the Receiver registered under `r` and copies its id. */
    method SetReceiver(r: int)
      modifies this
      ensures GetReceiver() == Some(r) && GetReceiverId() == r
      ensures View() == old(View()).(receiver := Some(r), receiverId := r)
    {
      receiver := Some(r);
      receiverId := r;
    }

    method SetNeedsReceipt(b: bool)
      modifies this
      ensures IsNeedsReceipt() == b
      ensures View() == old(View()).(needsReceipt := b)
    {
      needsReceipt := b;
    }

    method SetSubject(s: Option<string>)
      modifies this
      ensures GetSubject() == s
      ensures View() == old(View()).(subject := s)
    {
      subject := s;
    }

    /** Adds or overwrites one parameter; every other key keeps its value. */
    method PutParam(key: string, value: string)
      modifies this
      ensures GetParam(key) == Some(value)
      ensures forall k :: k != key ==> GetParam(k) == old(GetParam(k))
      ensures View() == old(View()).(params := old(params)[key := value])
    {
      params := params[key := value];
    }

    /** The record of this message once it has an id. */
    function Snapshot(): MessageRecord
      reads this
      requires messageId.Some?
    {
      MessageRecord(serial, messageId.value, senderId, receiverId, needsReceipt, subject, params)
    }
  }

  /** Params after a sequence of puts, the later put of a key winning. */
  function PutAll(p: map<string, string>, puts: seq<(string, string)>): map<string, string>
    decreases |puts|
  {
    if puts == [] then p else PutAll(p[puts[0].0 := puts[0].1], puts[1..])
  }

  /** No put after position `i` touches the key put at `i`. */
  ghost predicate LastPutOf(puts: seq<(string, string)>, i: int)
    requires 0 <= i < |puts|
  {
    forall j :: i < j < |puts| ==> puts[j].0 != puts[i].0
  }

  /**
   * What a sequence of `putParam` calls leaves under a key: the value of its last
   * put, or what was there before if it was never put.
   */
  lemma {:induction false} PutAllLastWins(p: map<string, string>, puts: seq<(string, string)>, key: string)
    ensures key in PutAll(p, puts) <==> key in p || exists i :: 0 <= i < |puts| && puts[i].0 == key
    ensures (forall i :: 0 <= i < |puts| ==> puts[i].0 != key) ==>
              key in PutAll(p, puts) ==> PutAll(p, puts)[key] == p[key]
    ensures forall i :: 0 <= i < |puts| && puts[i].0 == key && LastPutOf(puts, i) ==>
              key in PutAll(p, puts) && PutAll(p, puts)[key] == puts[i].1
    decreases |puts|
  {
    if puts != [] {
      PutAllLastWins(p[puts[0].0 := puts[0].1], puts[1..], key);
      assert forall i :: 1 <= i < |puts| ==> puts[i] == puts[1..][i - 1];
    }
  }

  /** The ids of a sequence of records, collected from the back; they line up position by position. */
  function Ids(ms: seq<MessageRecord>): (r: seq<string>)
    ensures |r| == |ms| && forall i :: 0 <= i < |ms| ==> r[i] == ms[i].id
    decreases |ms|
  {
    if ms == [] then [] else Ids(ms[..|ms| - 1]) + [ms[|ms| - 1].id]
  }

  predicate NoDuplicates<T(==)>(q: seq<T>)
  {
    forall i, j :: 0 <= i < j < |q| ==> q[i] != q[j]
  }

  /** Position of the first occurrence of `x` in `q`. */
  function IndexOf<T(==)>(q: seq<T>, x: T): (i: nat)
    requires x in q
    ensures i < |q| && q[i] == x && x !in q[..i]
  {
    if q[0] == x then 0 else 1 + IndexOf(q[1..], x)
  }

  /**
   * `q` without the first occurrence of `x`, the others in their original order
   * (what `ConcurrentLinkedQueue.remove` does to a queue).
   */
  function RemoveId<T(==)>(q: seq<T>, x: T): seq<T>
  {
    if q == [] then []
    else if q[0] == x then q[1..]
    else [q[0]] + RemoveId(q[1..], x)
  }

  /** The result of `RemoveId`: the queue unchanged if `x` is absent, else cut around its first occurrence. */
  lemma {:induction false} RemoveIdShape<T>(q: seq<T>, x: T)
    ensures x !in q ==> RemoveId(q, x) == q
    ensures x in q ==> RemoveId(q, x) == q[..IndexOf(q, x)] + q[IndexOf(q, x) + 1..]
  {
    if q != [] && q[0] != x {
      RemoveIdShape(q[1..], x);
      assert x in q <==> x in q[1..];
      if x in q {
        var j := IndexOf(q[1..], x);
        assert q[..j + 1] == [q[0]] + q[1..][..j];
        assert q[j + 2..] == q[1..][j + 1..];
      } else {
        assert q == [q[0]] + q[1..];
      }
    }
  }

  /** Removing an id from a duplicate-free queue removes exactly that id and keeps it duplicate-free. */
  lemma RemoveIdDistinct<T>(q: seq<T>, x: T)
    requires NoDuplicates(q)
    ensures NoDuplicates(RemoveId(q, x))
    ensures forall y :: y in RemoveId(q, x) <==> y in q && y != x
  {
    RemoveIdShape(q, x);
    if x in q {
      var i := IndexOf(q, x);
      var r := RemoveId(q, x);
      assert forall a :: 0 <= a < |r| ==> r[a] == if a < i then q[a] else q[a + 1];
      forall y
        ensures y in r <==> y in q && y != x
      {
        if y in q && y != x {
          var b :| 0 <= b < |q| && q[b] == y;
          assert r[if b < i then b else b - 1] == y;
        }
      }
    }
  }

  /** Removing from a concatenation removes from the part that holds the first occurrence. */
  lemma {:induction false} RemoveIdAppend<T>(a: seq<T>, b: seq<T>, x: T)
    ensures RemoveId(a + b, x) == if x in a then RemoveId(a, x) + b else a + RemoveId(b, x)
    decreases |a|
  {
    if a != [] {
      assert (a + b)[1..] == a[1..] + b;
      RemoveIdAppend(a[1..], b, x);
      assert x in a <==> a[0] == x || x in a[1..];
    } else {
      assert a + b == b;
    }
  }
}
