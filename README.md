# MessageDispatcher — a verified model of the in-memory dispatch core

MessageDispatcher is a small Java library that passes messages between
*senders* and *receivers*, each identified by an integer id. A caller
resolves an identity token to an id, obtains a `Sender` or `Receiver` for
that id (created on first use), and then:

- a sender sends a `Message` to a receiver id. The message gets a fresh
  unique id, a link to both parties and a flag saying whether a receipt is
  wanted. It stays *pending* at the sender until it is retrieved or
  withdrawn;
- a receiver takes messages from the head of its FIFO queue
  (`getNextMessage`), or by id (`getMessage`). Retrieving a message
  removes it from both parties. If the message asked for a receipt and
  the sender has a callback, the callback is invoked;
- a sender may withdraw a pending message (`removeMessage`). This does not
  invoke the callback;
- with persistence switched on, every message in flight is also kept in a
  durable store. `init` replays the store in serial order into the
  registries, and `cleanup` empties the registries and reports whether
  anything was still in flight.

This project models that core in Dafny and proves its properties:

| file | module | what it models |
|---|---|---|
| `wrappers.dfy` | `Wrappers` | `Option` and `Result` |
| `collections.dfy` | `Collections` | general facts about sequences, sets and maps used by the proofs |
| `messages.dfy` | `Messages` | the mutable `Message` entity (class `Message`), its parameter table, and the record that is dispatched and stored (`MessageRecord`) |
| `senders.dfy` | `Senders` | one sender's state: callback and pending map; receipts |
| `receivers.dfy` | `Receivers` | one receiver's state: message map and FIFO queue; FIFO delivery |
| `durablelog.dfy` | `DurableLog` | the durable store as a sequence of rows in serial order |
| `registry.dfy` | `Registry` | the two registries and their cross-consistency; the store mirroring them; replay |
| `dispatcher.dfy` | `Dispatching` | the `Dispatcher` class: fields for the registries, store, resolver and receipts, and every public operation as a method |

`Dispatching.Dispatcher.Valid()` is the invariant that every public
operation of the dispatcher keeps. The internal steps `RetrievedMessage`,
`ReceiverDeleteMessage`, `Persist` and `Remove` each change one part of the
state, and the public operations that call them re-establish it. It has
three parts:

- every receiver's queue and map hold the same ids, and each id is queued
  once;
- a message is pending at its sender exactly when it is held by its
  receiver;
- the store is in strictly increasing serial order with distinct ids, below
  the next serial.

`Mirrored()` adds that the registries hold exactly the stored rows. It
holds whenever persistence is on from the start, except between `cleanup`
and the next `init` with persistence: `cleanup` empties the registries and
keeps the store, and the next `init` with persistence restores the mirror
(`Dispatching.Restart`).

## Model

| member | source | states |
|---|---|---|
| Messages.Message.constructor | src/main/java/com/zvil/md/Message.java:46-48 | A new message has no id, no serial, no parties, no subject, no receipt request and an empty parameter table |
| Messages.Message.GetParam | src/main/java/com/zvil/md/Message.java:134-136 | Yields the value stored under the key, and nothing exactly when the key was never put |
| Messages.Message.SetSerial | src/main/java/com/zvil/md/Message.java:56-58 | The serial becomes the given one and every other field is unchanged |
| Messages.Message.SetMessageId | src/main/java/com/zvil/md/Message.java:60-62 | The message id becomes the given one and every other field is unchanged |
| Messages.Message.SetSenderId | src/main/java/com/zvil/md/Message.java:72-74 | Only the sender id changes |
| Messages.Message.SetReceiverId | src/main/java/com/zvil/md/Message.java:76-78 | Only the receiver id changes |
| Messages.Message.SetSender | src/main/java/com/zvil/md/Message.java:84-87 | Linking a sender also sets the sender id to that sender's id; nothing else changes |
| Messages.Message.SetReceiver | src/main/java/com/zvil/md/Message.java:93-96 | Linking a receiver also sets the receiver id to that receiver's id; nothing else changes |
| Messages.Message.SetNeedsReceipt | src/main/java/com/zvil/md/Message.java:102-104 | Only the receipt flag changes |
| Messages.Message.SetSubject | src/main/java/com/zvil/md/Message.java:116-118 | Only the subject changes |
| Messages.Message.PutParam | src/main/java/com/zvil/md/Message.java:125-127 | Afterwards the key yields the new value, every other key yields what it did before, and no other field changes |
| Messages.PutAllLastWins | src/main/java/com/zvil/md/Message.java:125-136 | After any run of puts, a key yields the value of its last put, or its earlier value if it was never put |
| Dispatching.Dispatcher.IsAwaiting | src/main/java/com/zvil/md/Sender.java:56-58 | In a valid dispatcher, a message is awaiting at its sender exactly when some receiver still holds it as a message from that sender |
| Registry.AwaitingIffHeld | src/main/java/com/zvil/md/Sender.java:56-58 | With consistent registries, a message is awaiting at its sender exactly when some receiver still holds it as a message from that sender |
| Senders.New | src/main/java/com/zvil/md/Sender.java:18-21 | A new sender has the given id, no callback and nothing awaiting |
| Senders.SetCallback | src/main/java/com/zvil/md/Sender.java:23-25 | The callback becomes the given one, replacing any earlier one; id and pending messages are unchanged |
| Senders.AddMessage | src/main/java/com/zvil/md/Sender.java:77-79 | The message becomes pending under its id, replacing any record there, and every other pending record is kept as it was |
| Senders.DeleteMessage | src/main/java/com/zvil/md/Sender.java:86-88 | Yields the pending message exactly when the id was pending; afterwards the id is not pending and every other id is unchanged |
| Senders.Retrieved | src/main/java/com/zvil/md/Sender.java:95-99 | The message stops pending; one receipt carrying the callback and the message is issued iff the message asked for one and a callback is set, none otherwise |
| Senders.Cleanup | src/main/java/com/zvil/md/Sender.java:105-109 | Reports true iff nothing was pending; afterwards nothing is pending, and the id and callback are kept |
| Senders.RetrieveAllReceipts | src/main/java/com/zvil/md/Sender.java:95-99 | Retrieving a run of messages issues receipts for exactly the messages that asked for one, in retrieval order, and none when no callback is set |
| Senders.RetrieveAllPending | src/main/java/com/zvil/md/Sender.java:95-99 | After retrieving a run of messages none of them is pending, and every other id keeps its status |
| Receivers.New | src/main/java/com/zvil/md/Receiver.java:15-19 | A new receiver has the given id and an empty queue and map |
| Receivers.AddMessage | src/main/java/com/zvil/md/Receiver.java:67-70 | The message is held under its id, every other held record is kept as it was, and its id is appended at the tail; a message with a new id addressed to this receiver keeps the receiver valid |
| Receivers.AddHeldBreaksValid | src/main/java/com/zvil/md/Receiver.java:67-70 | Adding a message whose id is already held queues that id twice, so the receiver is no longer valid |
| Receivers.Poll | src/main/java/com/zvil/md/Receiver.java:29-37 | An empty queue yields nothing and changes nothing; otherwise yields the message at the head, which leaves both queue and map while the rest is unchanged, and the receiver stays valid |
| Receivers.Take | src/main/java/com/zvil/md/Receiver.java:44-52 | Yields a message iff the id is held, namely the held message, and then removes it from map and queue; an unknown id changes nothing |
| Receivers.Delete | src/main/java/com/zvil/md/Receiver.java:76-80 | The id leaves the map, and the queue loses exactly that id with the order of the others kept; the receiver stays valid |
| Receivers.Cleanup | src/main/java/com/zvil/md/Receiver.java:86-91 | For a valid receiver, reports true iff the queue is empty iff the map is empty; afterwards both are empty |
| Receivers.PollTakesHead | src/main/java/com/zvil/md/Receiver.java:29-52 | Taking the next message is the same as taking the head id by id |
| Receivers.DrainFollowsQueue | src/main/java/com/zvil/md/Receiver.java:29-37 | Repeatedly taking the next message yields one message per queued id, the i-th being the message held under the i-th queued id |
| Receivers.DrainHolds | src/main/java/com/zvil/md/Receiver.java:29-37 | Draining yields exactly the held messages |
| Receivers.PollAfterAdd | src/main/java/com/zvil/md/Receiver.java:29-37 | Adding at the tail of a non-empty queue does not change which message is taken next |
| Receivers.DrainAfterAdd | src/main/java/com/zvil/md/Receiver.java:67-70 | A message added to a receiver is delivered after every message already queued |
| Receivers.FifoDelivery | src/test/java/com/zvil/md/test/TestDispatcher.java:74-78 | Messages added one after another to a receiver are delivered after what was already queued, in the order they were added |
| Receivers.DeleteKeepsOrder | src/main/java/com/zvil/md/Receiver.java:76-80 | After one message is removed, the others are delivered in their original relative order and the removed one never is |
| Receivers.TakenNotDrained | src/main/java/com/zvil/md/Receiver.java:44-52 | A message taken by id is never delivered afterwards |
| DurableLog.AppendValid | src/main/java/com/zvil/md/Dispatcher.java:105-109 | Persisting a row whose id is new, with the next serial, keeps the store in increasing serial order with distinct ids |
| DurableLog.ForgetRows | src/main/java/com/zvil/md/Dispatcher.java:115-118 | Removing an id deletes exactly the rows with that id; every other row stays |
| DurableLog.ForgetAt | src/main/java/com/zvil/md/Dispatcher.java:115-118 | When only row k carries the id, as in a valid store, removing it cuts out that row where it stands: the rows before and after it stay, in their order |
| DurableLog.ForgetValid | src/main/java/com/zvil/md/Dispatcher.java:115-118 | Removing a row keeps the store ordered and distinct |
| DurableLog.ForgetAbsent | src/main/java/com/zvil/md/Dispatcher.java:115-118 | Removing an id that has no row leaves the store unchanged |
| Registry.RegisterSenderConsistent | src/main/java/com/zvil/md/Dispatcher.java:74-76 | Getting or creating a sender keeps the registries consistent |
| Registry.RegisterReceiverConsistent | src/main/java/com/zvil/md/Dispatcher.java:97-99 | Getting or creating a receiver keeps the registries consistent |
| Registry.SetCallbackConsistent | src/main/java/com/zvil/md/Sender.java:23-25 | Replacing a callback keeps the registries consistent |
| Registry.SendConsistent | src/main/java/com/zvil/md/Sender.java:39-49 | Sending a message with a new id, pending at the sender and queued at the receiver, keeps the registries consistent |
| Registry.RemoveConsistent | src/main/java/com/zvil/md/Sender.java:65-71 | Removing a message from both parties keeps the registries consistent |
| Registry.SendMirrors | src/main/java/com/zvil/md/Receiver.java:58-61 | Sending a message and persisting it keeps the store mirroring the registries |
| Registry.RemoveMirrors | src/main/java/com/zvil/md/Receiver.java:76-80 | Removing a message from both parties and from the store keeps the store mirroring the registries |
| Registry.ReplayedFromEmpty | src/main/java/com/zvil/md/Dispatcher.java:37-49 | Replaying a store into empty registries makes them mirror it: each receiver queues its rows' ids in serial order, and each party holds exactly its rows |
| Registry.IdleIffEmpty | src/main/java/com/zvil/md/Dispatcher.java:127-138 | When the registries mirror the store, every party is idle iff the store is empty |
| Dispatching.Dispatcher.constructor | src/main/java/com/zvil/md/Dispatcher.java:16-21 | Before initialisation there is no resolver, persistence is off and both registries are empty |
| Dispatching.Dispatcher.Init | src/main/java/com/zvil/md/Dispatcher.java:28-35 | Installs the resolver; with persistence it replays the store into the registries, and from empty registries the result mirrors the store; without it the registries are unchanged |
| Dispatching.Dispatcher.RestoreFromPersistence | src/main/java/com/zvil/md/Dispatcher.java:37-49 | Replays every stored row, in serial order, into the registries and keeps the invariant; the store is not written to |
| Dispatching.Dispatcher.ReplayRow | src/main/java/com/zvil/md/Dispatcher.java:41-47 | One stored row becomes pending at its sender and queued at its receiver, both created if missing, without persisting it again |
| Dispatching.Dispatcher.CreateSender | src/main/java/com/zvil/md/Dispatcher.java:74-76 | Returns the registered sender for the id, creating it only if absent; an existing sender is left unchanged |
| Dispatching.Dispatcher.CreateReceiver | src/main/java/com/zvil/md/Dispatcher.java:97-99 | Returns the registered receiver for the id, creating it only if absent; an existing receiver is left unchanged |
| Dispatching.Dispatcher.SetCallback | src/main/java/com/zvil/md/Sender.java:23-25 | The sender's callback becomes the given one and its pending messages are kept |
| Dispatching.Dispatcher.CreateSenderWithToken | src/main/java/com/zvil/md/Dispatcher.java:62-72 | Fails before initialisation and on an unresolvable token without changing anything; otherwise returns the resolved id with the sender registered, its callback replaced when one is given and kept when none is |
| Dispatching.Dispatcher.CreateReceiverWithToken | src/main/java/com/zvil/md/Dispatcher.java:88-95 | Fails before initialisation and on an unresolvable token without changing anything; otherwise returns the resolved id with the receiver registered |
| Dispatching.Dispatcher.SendMessage | src/main/java/com/zvil/md/Sender.java:39-49 | Stamps the message with its fresh id, both parties and the receipt flag; creates the receiver if needed; the id becomes awaiting at the sender and is appended to the receiver's queue; the row is persisted with the next serial iff persistence is on |
| Dispatching.Dispatcher.RetrievedMessage | src/main/java/com/zvil/md/Sender.java:95-99 | The message stops pending at its sender and the receipt, if any, is appended to the receipts |
| Dispatching.Dispatcher.GetNextMessage | src/main/java/com/zvil/md/Receiver.java:29-37 | Yields nothing iff the queue is empty; otherwise the head message, which leaves the receiver, the sender and the store, with a receipt when it asked for one |
| Dispatching.Dispatcher.GetMessage | src/main/java/com/zvil/md/Receiver.java:44-52 | Yields a message iff the id is held by the receiver; then it leaves the receiver, the sender and the store, with a receipt when it asked for one |
| Dispatching.Dispatcher.ReceiverDeleteMessage | src/main/java/com/zvil/md/Receiver.java:76-80 | The message leaves the receiver's map and queue, and its row leaves the store when persistence is on |
| Dispatching.Dispatcher.RemoveMessage | src/main/java/com/zvil/md/Sender.java:65-71 | Returns true iff the id was awaiting; then the message leaves both parties and the store, with no receipt; afterwards the id is not awaiting |
| Dispatching.Dispatcher.Cleanup | src/main/java/com/zvil/md/Dispatcher.java:127-138 | Reports true iff every sender had nothing pending and every receiver had an empty queue and map; afterwards both registries are empty |
| Dispatching.Dispatcher.Persist | src/main/java/com/zvil/md/Dispatcher.java:105-109 | With persistence the message receives the next serial and is appended to the store; without it nothing changes |
| Dispatching.Dispatcher.Remove | src/main/java/com/zvil/md/Dispatcher.java:115-118 | With persistence the message's row leaves the store; without it nothing changes |
| Dispatching.Stamp | src/main/java/com/zvil/md/Sender.java:40-45 | The message gets its id, both parties and the receipt flag, and nothing else changes |
| Dispatching.AllIdleScan | src/main/java/com/zvil/md/Dispatcher.java:132-134 | The scan reports true iff all senders and all receivers are idle; it checks receivers only when all senders were idle |
| Dispatching.SendersIdle | src/main/java/com/zvil/md/Dispatcher.java:133-133 | Reports true iff no sender has anything pending |
| Dispatching.ReceiversIdle | src/main/java/com/zvil/md/Dispatcher.java:134-134 | Reports true iff every receiver's queue and map are empty |
| Dispatching.AddRowConsistent | src/main/java/com/zvil/md/Dispatcher.java:41-47 | Replaying a row whose id is not live keeps the registries consistent |
| Dispatching.SendKeepsValid | src/main/java/com/zvil/md/Receiver.java:58-61 | Sending and persisting a fresh message keeps the registries consistent, the store ordered and the mirror intact |
| Dispatching.RemovalKeepsValid | src/main/java/com/zvil/md/Receiver.java:29-37 | Taking a held message out of both parties and the store keeps the registries consistent, the store ordered and the mirror intact |
| Dispatching.Restart | src/test/java/com/zvil/md/test/TestDispatcher.java:214-245 | Cleanup followed by init with persistence restores every receiver's queue and map and every sender's pending map exactly; cleanup reports true iff the store was empty; callbacks are not restored |

## Left out

- Token decoding: the resolver is a function parameter given to `Init`. `JwtService.java` is not part of this model.
- The JPA entity manager, its transactions, its JPQL query and closing it are left out. The store is a sequence field, and a row's serial comes from a counter.
- `Dispatching.Dispatcher.Cleanup`: in the source, cleanup closes the entity manager but leaves it set. It is replaced only by the next `init` that is given a persistence provider; an `init` without one leaves the closed manager set (Dispatcher.java:30-31). Until then every use of it fails. Persisting a new message fails. Removing a row when a message is retrieved or withdrawn fails. A second `cleanup` fails when it commits on the closed manager (Dispatcher.java:128-130), before the registries are cleared. In the model persistence, once on, stays on, the store stays usable, and `Cleanup` always succeeds.
- A store that cannot be opened, which makes `init` throw, is not modelled.
- Concurrency is left out: concurrent maps and queues, and the atomicity of get-or-create. Every operation is one atomic step.
- Message id generation (`Message.generateMessageID`, a random UUID) is left out. The id is a parameter of `SendMessage` that must be fresh.
- Callback invocation is an appended `Receipt` (callback handle, message). The callback object is an opaque handle, and `ReceptionCallbackInterface.java` is not part of this model.
- Senders and receivers are values in the registries, and callers address them by id. A `Sender` or `Receiver` object kept by a caller across `cleanup` is not modelled.
- Registries and store keep a snapshot (`MessageRecord`) of the message taken at send. Later changes through the caller's `Message` object are not reflected. That includes the live map that `getParams` returns.
- In the source, sending adds the message to the sender, then to the receiver, then persists it. The model persists first so that the snapshot carries its serial. Because the Java objects are shared, the final state is the same.
- The serial is an unbounded integer rather than a 64-bit `long`.
- `Dispatching.Dispatcher.Init`: requires that no stored id is already live. Calling it twice without `cleanup` is excluded (see Findings).
- `Dispatching.Dispatcher.RetrievedMessage`: does not require the dispatcher invariant, because it only updates the sender. The callers that keep the invariant are `GetNextMessage` and `GetMessage`.
- Messages.Message.PutParam: the parameter table maps strings to strings, so the null key and null values that the source's `HashMap` accepts are not modelled. In the source, after `putParam(k, null)`, `getParam(k)` returns null although `k` was put; in the model every put key yields a value.
- The plain getters of `Message` (`getSerial`, `getSenderID`, `getSubject`, `getParams` and the rest) read one field and carry no contract.
- The callback is replaced on every `createSender` with a non-null callback, as the code does; the model does not keep a first callback.
- Withdrawing a message with `removeMessage` invokes no callback, as the code does.
- `Dispatcher.cleanup` stops calling the parties' `cleanup` at the first one that is not idle. Both registries are cleared anyway and no party outlives them in the model, so the entries it skips are not observable.

## Findings

| source | as written | input that shows it | evidently intended | confidence | as-written member | corrected member |
|---|---|---|---|---|---|---|
| src/main/java/com/zvil/md/Dispatcher.java:28-49 | `init` with persistence replays every stored row into whatever is already registered, and `Receiver.addMessage` appends without checking the id | `init` with persistence called twice, without `cleanup` in between, over a store holding one row | the second replay leaves each id queued once (re-initialise only after `cleanup`) | low, not executed | Receivers.AddHeldBreaksValid | Dispatching.Dispatcher.Init |
