/**
 * One WebSocket session.  Its strand runs one handler at a time: an incoming
 * message, the completion of a write, or a posted callback; broker events may
 * arrive from any thread and only post.  Every run is a sequence of these.
 */
module WsSession {
  import opened Wrappers

  datatype Message<O, P> =
    | ConnectionAck
    | Pong
    | NotInitialized
    | EmptyQuery(op: O)
    | Next(op: O, payload: P)
    | Complete(op: O)
    | Terminate

  /** A subscribe carries the initial response when there is an executor, and the topic when there is one. */
  datatype Incoming<O, P, S> =
    | Unreadable
    | ConnectionInit
    | Ping
    | Subscribe(op: O, emptyQuery: bool, response: Option<P>, subscription: Option<S>)
    | CompleteOp(op: O)
    | UnknownType

  /** The message makes the session subscribe at the broker. */
  predicate Subscribes<O, P, S>(initialized: bool, m: Incoming<O, P, S>) {
    m.Subscribe? && initialized && !m.emptyQuery && m.subscription.Some?
  }

  ghost predicate AckBefore<O, P>(ms: seq<Message<O, P>>, i: nat) {
    exists j :: 0 <= j < i && j < |ms| && ms[j].ConnectionAck?
  }

  /** No `next` comes before the first acknowledgement. */
  ghost predicate NextsAfterAck<O, P>(ms: seq<Message<O, P>>) {
    forall i :: 0 <= i < |ms| && ms[i].Next? ==> AckBefore(ms, i)
  }

  /** Writing, the front of the queue is the message last handed to the socket. */
  ghost predicate InStep<O, P>(
      enqueued: seq<Message<O, P>>, handed: seq<Message<O, P>>, queue: seq<Message<O, P>>, writing: bool) {
    && |handed| <= |enqueued| && handed == enqueued[..|handed|]
    && (writing ==> |handed| > 0)
    && queue == enqueued[if writing then |handed| - 1 else |handed|..]
  }

  /** What was handed over, followed by what is still to be written, is what was enqueued, in order. */
  lemma HandedThenQueue<O, P>(
      enqueued: seq<Message<O, P>>, handed: seq<Message<O, P>>, queue: seq<Message<O, P>>, writing: bool)
    requires InStep(enqueued, handed, queue, writing)
    ensures writing ==> queue != [] && queue[0] == handed[|handed| - 1]
    ensures handed + (if writing then queue[1..] else queue) == enqueued
  {
  }

  /** What the client sees has the property as well. */
  lemma PrefixKeepsOrder<O, P>(ms: seq<Message<O, P>>, n: nat)
    requires NextsAfterAck(ms) && n <= |ms|
    ensures NextsAfterAck(ms[..n])
  {
    forall i | 0 <= i < n && ms[..n][i].Next? ensures AckBefore(ms[..n], i) {
      assert ms[i].Next?;
      assert AckBefore(ms, i);
      var j :| 0 <= j < i && j < |ms| && ms[j].ConnectionAck?;
      assert ms[..n][j].ConnectionAck?;
    }
  }

  lemma Appended<O, P>(ms: seq<Message<O, P>>, m: Message<O, P>)
    requires NextsAfterAck(ms) && (m.Next? ==> AckBefore(ms, |ms|))
    ensures NextsAfterAck(ms + [m])
    ensures m.ConnectionAck? || AckBefore(ms, |ms|) ==> AckBefore(ms + [m], |ms| + 1)
  {
    var r := ms + [m];
    forall i | 0 <= i < |r| && r[i].Next? ensures AckBefore(r, i) {
      assert i < |ms| ==> ms[i].Next?;
      assert AckBefore(ms, i);
      var j :| 0 <= j < i && j < |ms| && ms[j].ConnectionAck?;
      assert r[j].ConnectionAck?;
    }
    if m.ConnectionAck? {
      assert r[|ms|].ConnectionAck?;
    } else if AckBefore(ms, |ms|) {
      var j :| 0 <= j < |ms| && ms[j].ConnectionAck?;
      assert r[j].ConnectionAck?;
    }
  }

  /** Every live subscription can still be ended by its operation. */
  ghost predicate AllListed<O, S>(live: map<S, O>, subIds: map<O, S>) {
    forall s :: s in live ==> live[s] in subIds && subIds[live[s]] == s
  }

  /** A live subscription that no operation lists. */
  ghost predicate OutOfReach<O, S>(live: map<S, O>, subIds: map<O, S>, s: S) {
    s in live && forall op :: op in subIds ==> subIds[op] != s
  }

  /** Each operation lists a subscription of its own, live or dropped by the broker, and live ones were issued. */
  ghost predicate ListsItsOwn<O, S>(issued: map<S, O>, live: map<S, O>, subIds: map<O, S>) {
    && (forall op :: op in subIds ==> subIds[op] in issued && issued[subIds[op]] == op)
    && (forall s :: s in live ==> s in issued && issued[s] == live[s])
  }

  predicate HasLive<O(==), S(==)>(live: map<S, O>, subIds: map<O, S>, op: O) { op in subIds && subIds[op] in live }

  lemma AfterSubscribe<O, S>(issued: map<S, O>, live: map<S, O>, subIds: map<O, S>, op: O, s: S)
    requires ListsItsOwn(issued, live, subIds) && s !in issued
    ensures ListsItsOwn(issued[s := op], live[s := op], subIds[op := s])
    ensures AllListed(live, subIds) ==>
              (AllListed(live[s := op], subIds[op := s]) <==> !HasLive(live, subIds, op))
    ensures HasLive(live, subIds, op) ==> OutOfReach(live[s := op], subIds[op := s], subIds[op])
    ensures forall t :: OutOfReach(live, subIds, t) ==> OutOfReach(live[s := op], subIds[op := s], t)
  {
    if HasLive(live, subIds, op) {
      var first := subIds[op];
      assert live[first] == op && first != s;
      assert forall other :: other in subIds && other != op ==> subIds[other] != first;
      assert first in live[s := op] && live[s := op][first] == op && subIds[op := s][op] == s;
    }
  }

  lemma AfterComplete<O, S>(issued: map<S, O>, live: map<S, O>, subIds: map<O, S>, op: O)
    requires ListsItsOwn(issued, live, subIds)
    ensures
      var live' := if op in subIds then live - {subIds[op]} else live;
      && ListsItsOwn(issued, live', subIds - {op})
      && (AllListed(live, subIds) ==> AllListed(live', subIds - {op}) && forall s :: s in live' ==> live'[s] != op)
      && (forall t :: OutOfReach(live, subIds, t) ==> OutOfReach(live', subIds - {op}, t))
  {
  }

  class WsSession<O(!new,==), P(!new), S(!new,==)> {
    var sendQueue: seq<Message<O, P>>
    var writing: bool
    var initialized: bool
    var subIds: map<O, S>
    /** The callbacks waiting on the strand, by the message each will send. */
    var posted: seq<Message<O, P>>

    /** History of the send side. */
    ghost var enqueued: seq<Message<O, P>>
    ghost var handed: seq<Message<O, P>>
    ghost var outstanding: nat
    ghost var writeFailed: bool

    /** The broker's view of this session. */
    ghost var live: map<S, O>
    ghost var issued: map<S, O>
    ghost var everSubscribed: set<O>

    ghost predicate SendSide()
      reads this
    {
      && InStep(enqueued, handed, sendQueue, writing)
      && outstanding == (if writing then 1 else 0)
      && (!writing && sendQueue != [] ==> writeFailed)
    }

    ghost predicate Protocol()
      reads this
    {
      && NextsAfterAck(enqueued)
      && (initialized ==> AckBefore(enqueued, |enqueued|))
      && (everSubscribed != {} ==> initialized)
      && (forall m :: m in posted && m.Next? ==> m.op in everSubscribed)
    }

    ghost predicate Subscriptions()
      reads this
    {
      && ListsItsOwn(issued, live, subIds)
      && (forall s :: s in issued ==> issued[s] in everSubscribed)
    }

    ghost predicate Valid()
      reads this
    {
      SendSide() && Protocol() && Subscriptions()
    }

    ghost predicate Tracked()
      reads this
    {
      AllListed(live, subIds)
    }

    constructor ()
      ensures Valid() && Tracked() && enqueued == [] && !initialized && !writeFailed && live == issued == map[]
    {
      sendQueue, writing, initialized, subIds := [], false, false, map[];
      enqueued, handed, outstanding, writeFailed := [], [], 0, false;
      posted, live, issued, everSubscribed := [], map[], map[], {};
    }

    /**
     * In every reachable state: what was handed to the socket and what is still
     * queued are together what was enqueued; the client sees no `next` before an
     * acknowledgement; without write errors, an idle session has sent everything.
     */
    lemma WhatTheClientSees()
      requires Valid()
      ensures handed + (if writing then sendQueue[1..] else sendQueue) == enqueued
      ensures NextsAfterAck(handed) && outstanding <= 1
      ensures outstanding == 0 && !writeFailed ==> handed == enqueued
    {
      HandedThenQueue(enqueued, handed, sendQueue, writing);
      PrefixKeepsOrder(enqueued, |handed|);
    }

    // ------------------------------------------------------------ Send helpers

    method EnqueueRaw(m: Message<O, P>)
      requires SendSide() && NextsAfterAck(enqueued)
      requires m.Next? ==> AckBefore(enqueued, |enqueued|)
      modifies this`sendQueue, this`writing, this`enqueued, this`handed, this`outstanding
      ensures SendSide() && NextsAfterAck(enqueued) && enqueued == old(enqueued) + [m] && writing
      ensures m.ConnectionAck? || old(AckBefore(enqueued, |enqueued|)) ==> AckBefore(enqueued, |enqueued|)
    {
      Appended(enqueued, m);
      sendQueue := sendQueue + [m];
      enqueued := enqueued + [m];
      if !writing { DoWriteNext(); }
    }

    /** Hands the front of the queue to the socket; never while a write is outstanding. */
    method DoWriteNext()
      requires sendQueue != [] && outstanding == 0
      requires InStep(enqueued, handed, sendQueue, false)
      modifies this`writing, this`handed, this`outstanding
      ensures InStep(enqueued, handed, sendQueue, writing) && writing && outstanding == 1
      ensures handed == old(handed) + [sendQueue[0]]
    {
      writing := true;
      handed := handed + [sendQueue[0]];
      outstanding := outstanding + 1;
    }

    /** A write completes; after an error the rest of the queue waits for the next message. */
    method OnWrite(error: bool)
      requires Valid() && outstanding == 1
      modifies this`sendQueue, this`writing, this`handed, this`outstanding, this`writeFailed
      ensures Valid() && sendQueue == old(sendQueue)[1..] && writeFailed == (old(writeFailed) || error)
      ensures handed == if error || sendQueue == [] then old(handed) else old(handed) + [sendQueue[0]]
    {
      sendQueue := sendQueue[1..];
      outstanding := outstanding - 1;
      writeFailed := writeFailed || error;
      if error || sendQueue == [] {
        writing := false;
        return;
      }
      DoWriteNext();
    }

    // --------------------------------------------------------- Incoming messages

    method HandleMessage(m: Incoming<O, P, S>)
      requires Valid()
      // The broker gives no id twice.
      requires m.Subscribe? && m.subscription.Some? ==> m.subscription.value !in issued
      modifies this
      ensures Valid() && posted == old(posted)
      // What each message is answered with.
      ensures m.ConnectionInit? ==> enqueued == old(enqueued) + [ConnectionAck]
      ensures m.Ping? ==> enqueued == old(enqueued) + [Pong]
      ensures m.Subscribe? && !old(initialized) ==> enqueued == old(enqueued) + [NotInitialized]
      ensures m.Subscribe? && old(initialized) && m.emptyQuery ==> enqueued == old(enqueued) + [EmptyQuery(m.op)]
      ensures m.Subscribe? && old(initialized) && !m.emptyQuery && m.response.Some? ==>
                enqueued == old(enqueued) + [Next(m.op, m.response.value)]
      ensures m.Subscribe? && old(initialized) && !m.emptyQuery && m.response.None? ==> enqueued == old(enqueued)
      ensures m.CompleteOp? ==> enqueued == old(enqueued) + [Complete(m.op)]
      ensures m.Unreadable? || m.UnknownType? ==> enqueued == old(enqueued)
      ensures initialized == (old(initialized) || m.ConnectionInit?)
      // What it starts and ends.
      ensures m.Subscribe? && old(initialized) && !m.emptyQuery && m.subscription.Some? ==>
                subIds == old(subIds)[m.op := m.subscription.value] && live == old(live)[m.subscription.value := m.op]
      ensures issued ==
                if Subscribes(old(initialized), m) then old(issued)[m.subscription.value := m.op] else old(issued)
      ensures m.CompleteOp? ==> subIds == old(subIds) - {m.op}
      ensures m.CompleteOp? ==> live == if m.op in old(subIds) then old(live) - {old(subIds)[m.op]} else old(live)
      ensures m.Subscribe? && (!old(initialized) || m.emptyQuery || m.subscription.None?) ==>
                subIds == old(subIds) && live == old(live)
      ensures !m.Subscribe? && !m.CompleteOp? ==> subIds == old(subIds) && live == old(live)
      // Subscriptions stay reachable exactly as long as no operation with a live one is subscribed again.
      ensures old(Tracked()) ==>
                (Tracked() <==> !(Subscribes(old(initialized), m) && HasLive(old(live), old(subIds), m.op)))
      // Subscribing it again puts its first subscription out of reach, and no message brings one back.
      ensures Subscribes(old(initialized), m) && HasLive(old(live), old(subIds), m.op) ==>
                OutOfReach(live, subIds, old(subIds)[m.op])
      ensures forall s :: OutOfReach(old(live), old(subIds), s) ==> OutOfReach(live, subIds, s)
      // Completing an operation then ends all it had subscribed.
      ensures old(Tracked()) && m.CompleteOp? ==> forall s :: s in live ==> live[s] != m.op
    {
      ghost var issued0, live0, subIds0 := issued, live, subIds;
      match m
      case ConnectionInit =>
        initialized := true;
        EnqueueRaw(ConnectionAck);
      case Ping =>
        EnqueueRaw(Pong);
      case Subscribe(op, emptyQuery, response, subscription) =>
        if !initialized {
          EnqueueRaw(NotInitialized);
          return;
        }
        HandleSubscribe(op, emptyQuery, response, subscription);
        if Subscribes(true, m) { AfterSubscribe(issued0, live0, subIds0, op, subscription.value); }
      case CompleteOp(op) =>
        if op in subIds {
          live := live - {subIds[op]};
          subIds := subIds - {op};
        }
        assert subIds == subIds0 - {op};
        AfterComplete(issued0, live0, subIds0, op);
        EnqueueRaw(Complete(op));
      case _ =>
    }

    method HandleSubscribe(op: O, emptyQuery: bool, response: Option<P>, subscription: Option<S>)
      requires Valid() && initialized && (subscription.Some? ==> subscription.value !in issued)
      modifies this
      ensures Valid() && initialized && posted == old(posted)
      ensures enqueued == old(enqueued) + if emptyQuery then [EmptyQuery(op)]
                                          else if response.Some? then [Next(op, response.value)] else []
      ensures !emptyQuery && subscription.Some? ==>
                subIds == old(subIds)[op := subscription.value] && live == old(live)[subscription.value := op]
      ensures !emptyQuery && subscription.Some? ==> issued == old(issued)[subscription.value := op]
      ensures emptyQuery || subscription.None? ==> subIds == old(subIds) && live == old(live) && issued == old(issued)
    {
      if emptyQuery {
        EnqueueRaw(EmptyQuery(op));
        return;
      }
      if response.Some? {
        EnqueueRaw(Next(op, response.value));
      }
      if subscription.Some? {
        AfterSubscribe(issued, live, subIds, op, subscription.value);
        live, issued := live[subscription.value := op], issued[subscription.value := op];
        everSubscribed := everSubscribed + {op};
        subIds := subIds[op := subscription.value];
      }
    }

    // ------------------------------------------------------------ Posted callbacks

    /** The broker delivers an event, possibly after the operation was completed. */
    method SendNextThreadsafe(op: O, payload: P)
      requires Valid() && op in everSubscribed
      modifies this`posted
      ensures Valid() && posted == old(posted) + [Next(op, payload)]
    {
      posted := posted + [Next(op, payload)];
    }

    /** The broker drops the session's subscriptions, as revoking its authentication session does. */
    ghost method BrokerDisconnects()
      requires Valid()
      modifies this`live
      ensures Valid() && Tracked() && live == map[]
    {
      live := map[];
    }

    method CloseTerminate()
      requires Valid()
      modifies this`posted
      ensures Valid() && posted == old(posted) + [Terminate]
    {
      posted := posted + [Terminate];
    }

    method RunPosted()
      requires Valid() && posted != []
      modifies this
      ensures Valid() && posted == old(posted)[1..] && enqueued == old(enqueued) + [old(posted)[0]]
    {
      var m := posted[0];
      posted := posted[1..];
      EnqueueRaw(m);
    }
  }

  /** An operation subscribed twice and then completed: its first subscription stays live, and nothing lists it. */
  method SubscribeTwice<O(!new,==), P(!new), S(!new,==)>(op: O, first: S, second: S)
    returns (session: WsSession<O, P, S>)
    requires first != second
    ensures fresh(session) && session.Valid()
    ensures op !in session.subIds && OutOfReach(session.live, session.subIds, first)
  {
    session := new WsSession();
    session.HandleMessage(ConnectionInit);
    session.HandleMessage(Subscribe(op, false, None, Some(first)));
    session.HandleMessage(Subscribe(op, false, None, Some(second)));
    session.HandleMessage(CompleteOp(op));
  }
}
