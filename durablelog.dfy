/**
 * The durable message log behind Dispatcher.persist / Dispatcher.remove and the replay
 * in Dispatcher.restoreFromPersistence. The log is a sequence of rows kept in the
 * order the query `ORDER BY serial` returns them.
 */
module DurableLog {
  import opened Messages

  /** Serials strictly ascending and message ids distinct. */
  ghost predicate Valid(log: seq<MessageRecord>)
  {
    && (forall i, j :: 0 <= i < j < |log| ==> log[i].serial < log[j].serial)
    && (forall i, j :: 0 <= i < j < |log| ==> log[i].id != log[j].id)
  }

  /** Appending a row whose serial is above every serial so far keeps the log valid. */
  lemma AppendValid(log: seq<MessageRecord>, m: MessageRecord)
    requires Valid(log)
    requires forall i :: 0 <= i < |log| ==> log[i].serial < m.serial
    requires m.id !in Ids(log)
    ensures Valid(log + [m])
  {
    assert forall i :: 0 <= i < |log| ==> Ids(log)[i] != m.id;
  }

  /** The log without the row of message `x`. */
  function Forget(log: seq<MessageRecord>, x: string): seq<MessageRecord>
  {
    if log == [] then []
    else
      var n := |log| - 1;
      Forget(log[..n], x) + (if log[n].id == x then [] else [log[n]])
  }

  /** The rows left are those of the log except the row of `x`. */
  lemma {:induction false} ForgetRows(log: seq<MessageRecord>, x: string)
    ensures forall m :: m in Forget(log, x) <==> m in log && m.id != x
  {
    if log != [] {
      var n := |log| - 1;
      ForgetRows(log[..n], x);
      assert log == log[..n] + [log[n]];
    }
  }

  /**
   * When `x` is the id of row `k` only, as in a valid log, its row is cut out
   * where it stands: the rows before it and the rows after it stay, in order.
   */
  lemma {:induction false} ForgetAt(log: seq<MessageRecord>, x: string, k: int)
    requires 0 <= k < |log| && log[k].id == x
    requires forall i :: 0 <= i < |log| && i != k ==> log[i].id != x
    ensures Forget(log, x) == log[..k] + log[k + 1..]
    decreases |log|
  {
    var n := |log| - 1;
    var p := log[..n];
    if k == n {
      assert x !in Ids(p) by {
        assert forall i :: 0 <= i < |p| ==> Ids(p)[i] == log[i].id;
      }
      ForgetAbsent(p, x);
      assert log[..k] + log[k + 1..] == p;
    } else {
      ForgetAt(p, x, k);
      assert log[..k] + log[k + 1..] == p[..k] + p[k + 1..] + [log[n]];
    }
  }

  /** Forgetting a row keeps the log valid. */
  lemma {:induction false} ForgetValid(log: seq<MessageRecord>, x: string)
    requires Valid(log)
    ensures Valid(Forget(log, x))
  {
    if log != [] {
      var n := |log| - 1;
      ForgetValid(log[..n], x);
      ForgetRows(log[..n], x);
      var f := Forget(log[..n], x);
      if log[n].id != x {
        forall i | 0 <= i < |f|
          ensures f[i].serial < log[n].serial && f[i].id != log[n].id
        {
          assert f[i] in log[..n];
        }
      }
    }
  }

  /** Forgetting a message that has no row leaves the log as it is. */
  lemma {:induction false} ForgetAbsent(log: seq<MessageRecord>, x: string)
    requires x !in Ids(log)
    ensures Forget(log, x) == log
  {
    if log != [] {
      var n := |log| - 1;
      assert Ids(log[..n]) == Ids(log)[..n];
      ForgetAbsent(log[..n], x);
      assert Ids(log)[n] == log[n].id;
      assert log == log[..n] + [log[n]];
    }
  }

  /** The ids of the rows addressed to receiver `k`, in log order. */
  function IdsTo(log: seq<MessageRecord>, k: int): (r: seq<string>)
    ensures forall y :: y in r ==> y in Ids(log)
  {
    if log == [] then []
    else
      var n := |log| - 1;
      assert Ids(log[..n]) == Ids(log)[..n];
      IdsTo(log[..n], k) + (if log[n].receiverId == k then [log[n].id] else [])
  }

  /** The rows whose `key` is `k`, by message id. */
  function KeyedBy(log: seq<MessageRecord>, key: MessageRecord -> int, k: int): map<string, MessageRecord>
  {
    if log == [] then map[]
    else
      var n := |log| - 1;
      var pre := KeyedBy(log[..n], key, k);
      if key(log[n]) == k then pre[log[n].id := log[n]] else pre
  }

  function ReceiverOf(m: MessageRecord): int { m.receiverId }
  function SenderOf(m: MessageRecord): int { m.senderId }

  /** Every entry of the map is a row of the log, stored under its id, whose key is `k`. */
  lemma {:induction false} KeyedBySound(log: seq<MessageRecord>, key: MessageRecord -> int, k: int)
    ensures forall y :: y in KeyedBy(log, key, k) ==>
              var m := KeyedBy(log, key, k)[y]; m in log && m.id == y && key(m) == k
  {
    if log != [] {
      var n := |log| - 1;
      KeyedBySound(log[..n], key, k);
      assert log == log[..n] + [log[n]];
    }
  }

  lemma IdsToAppend(log: seq<MessageRecord>, m: MessageRecord, k: int)
    ensures IdsTo(log + [m], k) == IdsTo(log, k) + (if m.receiverId == k then [m.id] else [])
  {
    assert (log + [m])[..|log|] == log;
  }

  lemma KeyedByAppend(log: seq<MessageRecord>, key: MessageRecord -> int, m: MessageRecord, k: int)
    ensures KeyedBy(log + [m], key, k) == if key(m) == k then KeyedBy(log, key, k)[m.id := m] else KeyedBy(log, key, k)
  {
    assert (log + [m])[..|log|] == log;
  }

  /** Every row addressed to `k` is in the map, and (ids being distinct) is the one stored under its id. */
  lemma {:induction false} KeyedByComplete(log: seq<MessageRecord>, key: MessageRecord -> int, k: int)
    requires Valid(log)
    ensures forall i :: 0 <= i < |log| && key(log[i]) == k ==>
              log[i].id in KeyedBy(log, key, k) && KeyedBy(log, key, k)[log[i].id] == log[i]
  {
    if log != [] {
      var n := |log| - 1;
      KeyedByComplete(log[..n], key, k);
      forall i | 0 <= i < n && key(log[i]) == k
        ensures log[i].id in KeyedBy(log, key, k) && KeyedBy(log, key, k)[log[i].id] == log[i]
      {
        assert log[..n][i] == log[i];
        assert log[i].id != log[n].id;
      }
    }
  }

  lemma RowIdInIds(log: seq<MessageRecord>, m: MessageRecord)
    requires m in log
    ensures m.id in Ids(log)
  {
    var j :| 0 <= j < |log| && log[j] == m;
    assert Ids(log)[j] == m.id;
  }

  lemma ValidInit(log: seq<MessageRecord>)
    requires Valid(log) && log != []
    ensures Valid(log[..|log| - 1])
    ensures log[|log| - 1].id !in Ids(log[..|log| - 1])
    ensures log == log[..|log| - 1] + [log[|log| - 1]]
  {
    var n := |log| - 1;
    assert forall i :: 0 <= i < n ==> Ids(log[..n])[i] == log[i].id != log[n].id;
  }

  /** Forgetting message `x` takes it out of every receiver's ids and nothing else. */
  lemma {:induction false} ForgetIdsTo(log: seq<MessageRecord>, x: string, k: int)
    requires Valid(log)
    ensures IdsTo(Forget(log, x), k) == RemoveId(IdsTo(log, k), x)
  {
    if log != [] {
      var n := |log| - 1;
      var init, last := log[..n], log[n];
      ValidInit(log);
      ForgetIdsTo(init, x, k);
      var tail := if last.receiverId == k then [last.id] else [];
      var pre := IdsTo(init, k);
      assert IdsTo(log, k) == pre + tail;
      RemoveIdAppend(pre, tail, x);
      if last.id == x {
        assert x !in pre;
        ForgetAbsent(init, x);
        assert Forget(log, x) == init;
        RemoveIdShape(pre, x);
        assert RemoveId(tail, x) == [];
      } else {
        assert Forget(log, x) == Forget(init, x) + [last];
        IdsToAppend(Forget(init, x), last, k);
        RemoveIdShape(tail, x);
        assert RemoveId(tail, x) == tail;
        if x !in pre {
          RemoveIdShape(pre, x);
        }
      }
    }
  }

  /** Forgetting message `x` takes it out of every keyed map and nothing else. */
  lemma {:induction false} ForgetKeyedBy(log: seq<MessageRecord>, key: MessageRecord -> int, x: string, k: int)
    requires Valid(log)
    ensures KeyedBy(Forget(log, x), key, k) == KeyedBy(log, key, k) - {x}
  {
    if log != [] {
      var n := |log| - 1;
      ValidInit(log);
      ForgetKeyedBy(log[..n], key, x, k);
      if log[n].id == x {
        ForgetKeyedByLastRow(log, key, k);
      } else {
        ForgetKeyedByOtherRow(log, key, x, k);
      }
    }
  }

  /** The case where the last row is the one forgotten. */
  lemma ForgetKeyedByLastRow(log: seq<MessageRecord>, key: MessageRecord -> int, k: int)
    requires Valid(log) && log != []
    ensures KeyedBy(Forget(log, log[|log| - 1].id), key, k) == KeyedBy(log, key, k) - {log[|log| - 1].id}
  {
    var n := |log| - 1;
    var init, x := log[..n], log[n].id;
    ValidInit(log);
    var pre := KeyedBy(init, key, k);
    assert x !in pre by {
      KeyedBySound(init, key, k);
      if x in pre {
        RowIdInIds(init, pre[x]);
      }
    }
    ForgetAbsent(init, x);
    assert Forget(log, x) == init;
    assert pre - {x} == pre;
    assert KeyedBy(log, key, k) - {x} == pre;
  }

  /** The inductive step when the last row is kept. */
  lemma ForgetKeyedByOtherRow(log: seq<MessageRecord>, key: MessageRecord -> int, x: string, k: int)
    requires log != [] && log[|log| - 1].id != x
    requires KeyedBy(Forget(log[..|log| - 1], x), key, k) == KeyedBy(log[..|log| - 1], key, k) - {x}
    ensures KeyedBy(Forget(log, x), key, k) == KeyedBy(log, key, k) - {x}
  {
    var n := |log| - 1;
    var init, last := log[..n], log[n];
    var pre := KeyedBy(init, key, k);
    var f := Forget(init, x);
    assert Forget(log, x) == f + [last];
    KeyedByAppend(f, key, last, k);
    if key(last) == k {
      assert KeyedBy(log, key, k) == pre[last.id := last];
      assert (pre - {x})[last.id := last] == pre[last.id := last] - {x};
    } else {
      assert KeyedBy(log, key, k) == pre;
    }
  }
}
