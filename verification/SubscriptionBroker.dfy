/**
 * The subscription broker: dense record vector, id map and secondary indices,
 * updated in place.  Each operation is specified by its effect on `live`, the
 * list of subscriptions in the order they were made.
 */
module SubscriptionBroker {
  import opened AuthSessions
  import opened Numerals
  import opened SubscriptionIndex
  import opened Wrappers

  function SubId(n: nat): string { "sub-" + Print(n, 10) }

  lemma SubIdInjective(m: nat, n: nat)
    requires SubId(m) == SubId(n)
    ensures m == n
  {
    assert SubId(m)[4..] == Print(m, 10) && SubId(n)[4..] == Print(n, 10);
    PrintInjective(m, n, 10);
  }

  ghost function Issued(counter: nat): set<string> {
    if counter == 0 then {} else Issued(counter - 1) + {SubId(counter)}
  }

  lemma {:induction false} LaterIsFresh(counter: nat, n: nat)
    requires counter < n
    ensures SubId(n) !in Issued(counter)
    decreases counter
  {
    if counter > 0 {
      LaterIsFresh(counter - 1, n);
      if SubId(n) == SubId(counter) { SubIdInjective(n, counter); }
    }
  }

  /** The ids in use and the ids handed out were issued, and none is both. */
  ghost predicate IdsAccounted<H>(live: seq<Record<H>>, pending: set<string>, issued: set<string>) {
    Ids(live) <= issued - pending && pending <= issued
  }

  ghost function Ids<H>(live: seq<Record<H>>): set<string> { set r | r in live :: r.id }

  /** The next id is new, and stays accounted for when it is handed out. */
  lemma NextIdIsFresh<H>(live: seq<Record<H>>, pending: set<string>, counter: nat)
    requires IdsAccounted(live, pending, Issued(counter))
    ensures SubId(counter + 1) !in pending && SubId(counter + 1) !in Ids(live)
    ensures IdsAccounted(live, pending + {SubId(counter + 1)}, Issued(counter + 1))
  {
    LaterIsFresh(counter, counter + 1);
  }

  /** An id handed out becomes an id in use. */
  lemma RegisteredAccounted<H>(live: seq<Record<H>>, pending: set<string>, issued: set<string>, r: Record<H>)
    requires IdsAccounted(live, pending, issued) && r.id in pending
    ensures r.id !in Ids(live) && IdsAccounted(live + [r], pending - {r.id}, issued)
  {
    IdsOfPush(live, r);
  }

  lemma IdsOfPush<H>(live: seq<Record<H>>, r: Record<H>)
    ensures Ids(live + [r]) == Ids(live) + {r.id}
  {
    forall id | id in Ids(live) + {r.id} ensures id in Ids(live + [r]) {
      if id == r.id {
        assert r in live + [r];
      } else {
        var s :| s in live && s.id == id;
        assert s in live + [r];
      }
    }
  }

  function Handlers<H>(rs: seq<Record<H>>): seq<H> { seq(|rs|, i requires 0 <= i < |rs| => rs[i].handler) }

  /** Renames the first occurrence of a position and stops. */
  method RenameIndex(indices: seq<nat>, from: nat, to: nat) returns (r: seq<nat>)
    ensures r == RemapIndex(indices, from, to)
  {
    r := indices;
    for i := 0 to |indices|
      invariant r == indices && RemapIndex(indices, from, to) == indices[..i] + RemapIndex(indices[i..], from, to)
    {
      if r[i] == from {
        r := r[i := to];
        assert r == indices[..i] + ([to] + indices[i..][1..]);
        return;
      }
      assert indices[i..][1..] == indices[i + 1..];
      assert indices[..i] + ([indices[i]] + RemapIndex(indices[i + 1..], from, to)) ==
             indices[..i + 1] + RemapIndex(indices[i + 1..], from, to);
    }
    assert indices[..|indices|] + RemapIndex(indices[|indices|..], from, to) == indices;
  }

  /** The last record moves into the gap; only the buckets of the two records concerned are touched. */
  method EraseRecord<H>(subs: seq<Record<H>>, ids: map<string, nat>, sessions: Index, topics: Index, index: nat,
                        ghost live: seq<Record<H>>)
      returns (subs': seq<Record<H>>, ids': map<string, nat>, sessions': Index, topics': Index)
    requires Agrees(subs, ids, sessions, topics, live) && index < |subs|
    ensures Agrees(subs', ids', sessions', topics', Without(live, subs[index].id)) && |subs'| == |subs| - 1
  {
    ErasedAgrees(subs, ids, sessions, topics, live, index);
    subs', ids' := subs, ids;
    var removed := subs[index];
    sessions' := DropFrom(sessions, removed.session, index);
    topics' := DropFrom(topics, removed.topic, index);
    var last := |subs| - 1;
    if index != last {
      var moved := subs[last];
      subs' := subs'[index := moved];
      ids' := ids'[moved.id := index];
      if moved.session in sessions' {
        var bucket := RenameIndex(sessions'[moved.session], last, index);
        sessions' := sessions'[moved.session := bucket];
      }
      if moved.topic in topics' {
        var bucket := RenameIndex(topics'[moved.topic], last, index);
        topics' := topics'[moved.topic := bucket];
      }
    }
    subs' := subs'[..last];
    ids' := ids' - {removed.id};
    assert subs' == ErasedVector(subs, index) && ids' == ErasedIds(ids, subs, index);
    assert sessions' == ErasedIndex(BySession, sessions, subs, index);
    assert topics' == ErasedIndex(ByTopic, topics, subs, index);
  }

  method AddRecord<H>(subs: seq<Record<H>>, ids: map<string, nat>, sessions: Index, topics: Index, r: Record<H>,
                      ghost live: seq<Record<H>>)
      returns (subs': seq<Record<H>>, ids': map<string, nat>, sessions': Index, topics': Index)
    requires Agrees(subs, ids, sessions, topics, live) && r.id !in Ids(live)
    ensures Agrees(subs', ids', sessions', topics', live + [r]) && |subs'| == |live + [r]|
  {
    PushedAgrees(subs, ids, sessions, topics, live, r);
    var index := |subs|;
    subs' := subs + [r];
    ids' := ids[r.id := index];
    sessions' := PushTo(sessions, r.session, index);
    topics' := PushTo(topics, r.topic, index);
  }

  class SubscriptionBroker<H, C> {
    var idCounter: nat
    var subscriptions: seq<Record<H>>
    var subscriptionIdIndex: map<string, nat>
    var sessionIndex: Index
    var topicIndex: Index
    var auth: AuthMaps<C>

    ghost var live: seq<Record<H>>
    ghost var pending: set<string>  // ids handed out and not yet registered

    ghost predicate Valid()
      reads this
    {
      && Agrees(subscriptions, subscriptionIdIndex, sessionIndex, topicIndex, live)
      && IdsAccounted(live, pending, Issued(idCounter))
      && auth.Forward()
    }

    constructor ()
      ensures Valid() && live == [] && pending == {} && auth == NoSessions()
    {
      idCounter := 0;
      subscriptions, subscriptionIdIndex, sessionIndex, topicIndex := [], map[], map[], map[];
      auth := NoSessions();
      live, pending := [], {};
    }

    /** Taken before the lock, so registrations may happen in another order. */
    method MakeSubscriptionId() returns (id: string)
      requires Valid()
      modifies `idCounter, `pending
      ensures Valid() && pending == old(pending) + {id}
      ensures id !in old(pending) && id !in Ids(live)
    {
      NextIdIsFresh(live, pending, idCounter);
      idCounter := idCounter + 1;
      id := SubId(idCounter);
      pending := pending + {id};
    }

    /** The counter belongs to the process: another broker takes the next id. */
    method IdTakenElsewhere()
      requires Valid()
      modifies `idCounter
      ensures Valid() && idCounter == old(idCounter) + 1
    {
      idCounter := idCounter + 1;
    }

    /** The part of subscribing done under the lock; returns the count reported to the callback. */
    method RegisterSubscription(id: string, session: string, topic: string, handler: H) returns (count: nat)
      requires Valid() && id in pending
      modifies this
      ensures Valid() && live == old(live) + [Record(id, session, topic, handler)]
      ensures pending == old(pending) - {id} && count == |live| && auth == old(auth)
    {
      var r := Record(id, session, topic, handler);
      RegisteredAccounted(live, pending, Issued(idCounter), r);
      subscriptions, subscriptionIdIndex, sessionIndex, topicIndex :=
        AddRecord(subscriptions, subscriptionIdIndex, sessionIndex, topicIndex, r, live);
      live := live + [r];
      pending := pending - {id};
      count := |subscriptions|;
    }

    method Subscribe(session: string, topic: string, handler: H) returns (id: string, count: nat)
      requires Valid()
      modifies this
      ensures Valid() && live == old(live) + [Record(id, session, topic, handler)] && count == |live|
      ensures id !in Ids(old(live))
      ensures auth == old(auth)
    {
      id := MakeSubscriptionId();
      count := RegisterSubscription(id, session, topic, handler);
    }

    method EraseSubscriptionAt(index: nat) returns (erased: bool)
      requires Valid()
      modifies `subscriptions, `subscriptionIdIndex, `sessionIndex, `topicIndex, `live
      ensures Valid() && erased == (index < |old(subscriptions)|)
      ensures live == if erased then Without(old(live), old(subscriptions)[index].id) else old(live)
      ensures erased ==> |subscriptions| == |old(subscriptions)| - 1
    {
      if index >= |subscriptions| { return false; }
      StillAccounted(index);
      ghost var id := subscriptions[index].id;
      subscriptions, subscriptionIdIndex, sessionIndex, topicIndex :=
        EraseRecord(subscriptions, subscriptionIdIndex, sessionIndex, topicIndex, index, live);
      live := Without(live, id);
      erased := true;
    }

    lemma StillAccounted(index: nat)
      requires Valid() && index < |subscriptions|
      ensures IdsAccounted(Without(live, subscriptions[index].id), pending, Issued(idCounter))
    {
      var id := subscriptions[index].id;
      forall i | i in Ids(Without(live, id)) ensures i in Ids(live) {
        var r :| r in Without(live, id) && r.id == i;
        FilterMember(live, IsNot(id), r);
      }
    }

    /** Removes the one subscription with this id, or nothing when the id is unknown. */
    method Unsubscribe(id: string) returns (notified: Option<nat>)
      requires Valid()
      modifies `subscriptions, `subscriptionIdIndex, `sessionIndex, `topicIndex, `live
      ensures Valid() && live == Without(old(live), id)
      ensures notified == if live == old(live) then None else Some(|live|)
    {
      notified := None;
      if id !in subscriptionIdIndex {
        forall r | r in live ensures r.id != id { assert r in subscriptions; }
        FilterAll(live, IsNot(id));
        return;
      }
      var index := subscriptionIdIndex[id];
      WithoutOne(live, subscriptions[index]);
      var erased := EraseSubscriptionAt(index);
      notified := Some(|subscriptions|);
    }

    /** Removes exactly the session's subscriptions; the others keep their order. */
    method DisconnectSession(session: string) returns (notified: Option<nat>)
      requires Valid()
      modifies `subscriptions, `subscriptionIdIndex, `sessionIndex, `topicIndex, `live
      ensures Valid() && live == Lacking(old(live), BySession, session)
      ensures notified == if Having(old(live), BySession, session) == [] then None else Some(|live|)
    {
      NoBucketNoRecords(session);
      if session !in sessionIndex {
        return None;
      }
      while session in sessionIndex && sessionIndex[session] != []
        invariant Valid()
        invariant Lacking(live, BySession, session) == Lacking(old(live), BySession, session)
        decreases |subscriptions|
      {
        var bucket := sessionIndex[session];
        var index := bucket[|bucket| - 1];
        assert index in Bucket(sessionIndex, session);
        PositionHasKey(BySession, sessionIndex, subscriptions, live, session, index);
        OnlyThisSession(session, index);
        var erased := EraseSubscriptionAt(index);
      }
      NoBucketNoRecords(session);
      notified := Some(|subscriptions|);
    }

    /** The session has an entry exactly when it has subscriptions. */
    lemma NoBucketNoRecords(session: string)
      requires Valid()
      ensures session in sessionIndex <==> Having(live, BySession, session) != []
      ensures session in sessionIndex ==> sessionIndex[session] != []
      ensures session !in sessionIndex ==> Lacking(live, BySession, session) == live
    {
      var ix := Bucket(sessionIndex, session);
      assert InRange(ix, |subscriptions|) && Pick(subscriptions, ix) == Having(live, BySession, session);
      if session !in sessionIndex {
        forall r | r in live ensures r.session != session {
          FilterMember(live, HasKey(BySession, session), r);
        }
        FilterAll(live, LacksKey(BySession, session));
      }
    }

    /** Removing one of the session's records leaves what the session does not own. */
    lemma OnlyThisSession(session: string, index: nat)
      requires Valid() && index < |subscriptions| && subscriptions[index].session == session
      ensures Lacking(Without(live, subscriptions[index].id), BySession, session) == Lacking(live, BySession, session)
    {
      var id := subscriptions[index].id;
      forall r | r in live && r.id == id ensures r.session == session {
        var j :| 0 <= j < |subscriptions| && subscriptions[j] == r;
      }
      FilterAfterFilter(live, IsNot(id), LacksKey(BySession, session));
    }

    /** Calls the handlers of the topic's live subscriptions, once each, oldest first. */
    method Publish(topic: string) returns (called: seq<H>)
      requires Valid()
      ensures called == Handlers(Having(live, ByTopic, topic))
    {
      var ix := Bucket(topicIndex, topic);
      assert InRange(ix, |subscriptions|) && Pick(subscriptions, ix) == Having(live, ByTopic, topic);
      if topic !in topicIndex { return []; }
      called := [];
      for i := 0 to |ix|
        invariant called == Handlers(Pick(subscriptions, ix))[..i]
      {
        if ix[i] < |subscriptions| { called := called + [subscriptions[ix[i]].handler]; }
      }
    }

    /** The empty topic asks for the total. */
    method GetSubscriberCount(topic: string) returns (count: nat)
      requires Valid()
      ensures count == if topic == "" then |live| else |Having(live, ByTopic, topic)|
    {
      if topic == "" { return |subscriptions|; }
      var ix := Bucket(topicIndex, topic);
      assert InRange(ix, |subscriptions|) && Pick(subscriptions, ix) == Having(live, ByTopic, topic);
      count := 0;
      for i := 0 to |ix|
        invariant count == i
      {
        TopicOf(topic, i);
        if ix[i] < |subscriptions| && subscriptions[ix[i]].topic == topic { count := count + 1; }
      }
    }

    lemma TopicOf(topic: string, i: nat)
      requires Valid() && i < |Bucket(topicIndex, topic)|
      ensures Bucket(topicIndex, topic)[i] < |subscriptions|
      ensures subscriptions[Bucket(topicIndex, topic)[i]].topic == topic
    {
      PositionHasKey(ByTopic, topicIndex, subscriptions, live, topic, Bucket(topicIndex, topic)[i]);
    }

    // ------------------------------------------------------- Auth sessions

    method RegisterAuthSession(authId: string, ws: string, close: C)
      requires Valid()
      modifies `auth
      ensures Valid() && auth == old(auth).Register(authId, ws, close)
    {
      var sessions, byWs := auth.sessions, auth.byWs;
      if ws in byWs {
        sessions := sessions - {byWs[ws]};
        byWs := byWs - {ws};
      }
      assert byWs[ws := authId] == auth.byWs[ws := authId];
      auth := AuthMaps(sessions[authId := AuthRecord(ws, close)], byWs[ws := authId]);
    }

    method UnregisterAuthSession(ws: string)
      requires Valid()
      modifies `auth
      ensures Valid() && auth == old(auth).Unregister(ws)
    {
      if ws in auth.byWs {
        auth := AuthMaps(auth.sessions - {auth.byWs[ws]}, auth.byWs - {ws});
      }
    }

    /** The part of revoking done under the first lock; others may act before the session's subscriptions go. */
    method ForgetAuthSession(authId: string) returns (record: Option<AuthRecord<C>>)
      requires Valid()
      modifies `auth
      ensures Valid() && auth == old(auth).Revoke(authId)
      ensures record == if authId in old(auth).sessions then Some(old(auth).sessions[authId]) else None
    {
      if authId !in auth.sessions { return None; }
      record := Some(auth.sessions[authId]);
      auth := AuthMaps(auth.sessions - {authId}, auth.byWs - {record.value.ws});
    }

    /**
     * Forgets the session, drops its socket's subscriptions and hands back the
     * close callback to fire; so when nothing comes between the two steps.
     */
    method RevokeAuthSession(authId: string) returns (fired: Option<C>)
      requires Valid()
      modifies this
      ensures Valid() && auth == old(auth).Revoke(authId) && pending == old(pending)
      ensures authId in old(auth).sessions ==>
        && fired == Some(old(auth).sessions[authId].close)
        && live == Lacking(old(live), BySession, old(auth).sessions[authId].ws)
      ensures authId !in old(auth).sessions ==> fired == None && live == old(live)
    {
      var record := ForgetAuthSession(authId);
      if record.None? { return None; }
      var _ := DisconnectSession(record.value.ws);
      fired := Some(record.value.close);
    }
  }
}
