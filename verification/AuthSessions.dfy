/**
 * Which WebSocket session an authentication session is connected through:
 * the two maps the subscription broker keeps for revocation.
 */
module AuthSessions {

  datatype AuthRecord<C> = AuthRecord(ws: string, close: C)

  datatype AuthMaps<C> = AuthMaps(sessions: map<string, AuthRecord<C>>, byWs: map<string, string>) {

    function Register(auth: string, ws: string, close: C): AuthMaps<C> {
      var kept := if ws in byWs then sessions - {byWs[ws]} else sessions;
      AuthMaps(kept[auth := AuthRecord(ws, close)], byWs[ws := auth])
    }

    function Unregister(ws: string): AuthMaps<C> {
      if ws in byWs then AuthMaps(sessions - {byWs[ws]}, byWs - {ws}) else this
    }

    function Revoke(auth: string): AuthMaps<C> {
      if auth in sessions then AuthMaps(sessions - {auth}, byWs - {sessions[auth].ws}) else this
    }

    /** Every registered authentication session is found again from its socket. */
    predicate Forward() {
      forall a :: a in sessions ==> sessions[a].ws in byWs && byWs[sessions[a].ws] == a
    }

    /** The two maps are inverse to each other. */
    predicate Inverse() {
      && Forward()
      && forall w :: w in byWs ==> byWs[w] in sessions && sessions[byWs[w]].ws == w
    }
  }

  function NoSessions<C>(): AuthMaps<C> { AuthMaps(map[], map[]) }

  datatype Op<C> = DoRegister(auth: string, ws: string, close: C) | DoUnregister(ws: string) | DoRevoke(auth: string)

  function Apply<C>(m: AuthMaps<C>, op: Op<C>): AuthMaps<C> {
    match op
    case DoRegister(a, w, c) => m.Register(a, w, c)
    case DoUnregister(w) => m.Unregister(w)
    case DoRevoke(a) => m.Revoke(a)
  }

  function Run<C>(m: AuthMaps<C>, ops: seq<Op<C>>): AuthMaps<C>
    decreases |ops|
  {
    if ops == [] then m else Run(Apply(m, ops[0]), ops[1..])
  }

  /** The forward direction survives every run of operations. */
  lemma {:induction false} ForwardAlways<C>(m: AuthMaps<C>, ops: seq<Op<C>>)
    requires m.Forward()
    ensures Run(m, ops).Forward()
    decreases |ops|
  {
    if ops != [] {
      assert Apply(m, ops[0]).Forward();
      ForwardAlways(Apply(m, ops[0]), ops[1..]);
    }
  }

  /**
   * Registering keeps the maps inverse exactly when the authentication session
   * is new or is registered again from the socket it already uses.
   */
  lemma RegisterKeepsInverseIff<C>(m: AuthMaps<C>, auth: string, ws: string, close: C)
    requires m.Inverse()
    ensures m.Register(auth, ws, close).Inverse() <==> auth !in m.sessions || m.sessions[auth].ws == ws
  {
    var m' := m.Register(auth, ws, close);
    if auth in m.sessions && m.sessions[auth].ws != ws {
      var other := m.sessions[auth].ws;
      assert other in m'.byWs && m'.byWs[other] == auth && m'.sessions[auth].ws == ws;
    } else {
      forall w | w in m'.byWs ensures m'.byWs[w] in m'.sessions && m'.sessions[m'.byWs[w]].ws == w {
      }
    }
  }

  /** Operations that never register an authentication session from a second socket. */
  predicate OneSocketEach<C>(m: AuthMaps<C>, ops: seq<Op<C>>)
    decreases |ops|
  {
    ops == [] ||
    (&& (ops[0].DoRegister? ==> ops[0].auth !in m.sessions || m.sessions[ops[0].auth].ws == ops[0].ws)
     && OneSocketEach(Apply(m, ops[0]), ops[1..]))
  }

  lemma {:induction false} InverseUnderOneSocketEach<C>(m: AuthMaps<C>, ops: seq<Op<C>>)
    requires m.Inverse() && OneSocketEach(m, ops)
    ensures Run(m, ops).Inverse()
    decreases |ops|
  {
    if ops != [] {
      if ops[0].DoRegister? { RegisterKeepsInverseIff(m, ops[0].auth, ops[0].ws, ops[0].close); }
      assert Apply(m, ops[0]).Inverse();
      InverseUnderOneSocketEach(Apply(m, ops[0]), ops[1..]);
    }
  }

  /**
   * A socket that goes away takes only its own registration with it, except
   * when its entry is stale because the authentication session has moved on.
   */
  lemma UnregisterTouchesOnlyItsSocketIff<C>(m: AuthMaps<C>, ws: string)
    ensures
      (forall a :: a in m.sessions && m.sessions[a].ws != ws ==> a in m.Unregister(ws).sessions)
      <==> !(ws in m.byWs && m.byWs[ws] in m.sessions && m.sessions[m.byWs[ws]].ws != ws)
  {
    if ws in m.byWs && m.byWs[ws] in m.sessions && m.sessions[m.byWs[ws]].ws != ws {
      assert m.byWs[ws] !in m.Unregister(ws).sessions;
    }
  }

  /** The documented promise: revoking an authentication session leaves no socket connected through it. */
  ghost predicate RevokesAll<C>(m: AuthMaps<C>, auth: string) {
    forall w :: w in m.Revoke(auth).byWs ==> m.Revoke(auth).byWs[w] != auth
  }

  ghost predicate RevokesAllOfEach<C>(m: AuthMaps<C>) { forall auth :: RevokesAll(m, auth) }

  /** The promise holds for every authentication session exactly when the maps are inverse. */
  lemma RevokesAllIffInverse<C>(m: AuthMaps<C>)
    requires m.Forward()
    ensures m.Inverse() <==> RevokesAllOfEach(m)
  {
    if RevokesAllOfEach(m) {
      forall w | w in m.byWs ensures m.byWs[w] in m.sessions && m.sessions[m.byWs[w]].ws == w {
        var auth := m.byWs[w];
        assert RevokesAll(m, auth) && w !in m.Revoke(auth).byWs;
      }
    }
  }

  /** After every part of the run, revoking any authentication session would reach all its sockets. */
  ghost predicate AlwaysRevokesAll<C>(m: AuthMaps<C>, ops: seq<Op<C>>) {
    forall k: nat :: k <= |ops| ==> RevokesAllOfEach(Run(m, ops[..k]))
  }

  lemma AlwaysUnfolds<C>(m: AuthMaps<C>, ops: seq<Op<C>>)
    requires ops != []
    ensures AlwaysRevokesAll(m, ops) <==> RevokesAllOfEach(m) && AlwaysRevokesAll(Apply(m, ops[0]), ops[1..])
  {
    var next, rest := Apply(m, ops[0]), ops[1..];
    assert Run(m, ops[..0]) == m;
    forall k: nat | k <= |rest| ensures Run(m, ops[..k + 1]) == Run(next, rest[..k]) {
      assert ops[..k + 1][0] == ops[0] && ops[..k + 1][1..] == rest[..k];
    }
    if AlwaysRevokesAll(m, ops) {
      forall k: nat | k <= |rest| ensures RevokesAllOfEach(Run(next, rest[..k])) {
        assert RevokesAllOfEach(Run(m, ops[..k + 1]));
      }
    }
    if RevokesAllOfEach(m) && AlwaysRevokesAll(next, rest) {
      forall k: nat | k <= |ops| ensures RevokesAllOfEach(Run(m, ops[..k])) {
        if k > 0 {
          var j: nat := k - 1;
          assert RevokesAllOfEach(Run(next, rest[..j])) && k == j + 1;
        }
      }
    }
  }

  /**
   * Throughout a run the promise is kept exactly when no operation registers an
   * authentication session from a second socket while it has a first.
   */
  lemma {:induction false} RevokesAllIffOneSocketEach<C>(m: AuthMaps<C>, ops: seq<Op<C>>)
    requires m.Inverse()
    ensures AlwaysRevokesAll(m, ops) <==> OneSocketEach(m, ops)
    decreases |ops|
  {
    RevokesAllIffInverse(m);
    if ops == [] {
      assert ops[..0] == [] && Run(m, []) == m;
    } else {
      var op, next := ops[0], Apply(m, ops[0]);
      AlwaysUnfolds(m, ops);
      if op.DoRegister? { RegisterKeepsInverseIff(m, op.auth, op.ws, op.close); }
      RevokesAllIffInverse(next);
      if next.Inverse() {
        RevokesAllIffOneSocketEach(next, ops[1..]);
      } else {
        assert Run(next, ops[1..][..0]) == next;
      }
    }
  }

  /** One of two sockets of a session goes: revoking the session then does nothing, and the other stays connected. */
  lemma RevokeMissesSocketExample<C>(close: C)
    ensures
      var ops := [DoRegister("a", "ws-1", close), DoRegister("a", "ws-2", close), DoUnregister("ws-1")];
      var m := Run(NoSessions<C>(), ops);
      && m.Revoke("a") == m && "ws-2" in m.byWs && m.byWs["ws-2"] == "a" && !RevokesAll(m, "a")
  {
    var two := NoSessions<C>().Register("a", "ws-1", close).Register("a", "ws-2", close);
    StaleEntryExample(close);
    var ops := [DoRegister("a", "ws-1", close), DoRegister("a", "ws-2", close), DoUnregister("ws-1")];
    var m := two.Unregister("ws-1");
    assert "ws-1" != "ws-2" && two.byWs["ws-1"] == "a" && two.byWs["ws-2"] == "a";
    assert ops[1..] == [DoRegister("a", "ws-2", close), DoUnregister("ws-1")];
    assert ops[1..][1..] == [DoUnregister("ws-1")] && ops[1..][1..][1..] == [];
    assert Run(m, []) == m && Run(two, ops[1..][1..]) == m;
  }

  /** The stale case does arise: one authentication session registered from two sockets. */
  lemma StaleEntryExample<C>(close: C)
    ensures
      var two := Run(NoSessions<C>(), [DoRegister("a", "ws-1", close), DoRegister("a", "ws-2", close)]);
      && two.Forward() && !two.Inverse()
      && "a" in two.sessions && two.sessions["a"].ws == "ws-2" && "a" !in two.Unregister("ws-1").sessions
  {
    var empty := NoSessions<C>();
    var ops := [DoRegister("a", "ws-1", close), DoRegister("a", "ws-2", close)];
    var one := empty.Register("a", "ws-1", close);
    var two := one.Register("a", "ws-2", close);
    assert Run(two, []) == two;
    assert ops[1..] == [DoRegister("a", "ws-2", close)] && ops[1..][1..] == [];
    assert Run(one, ops[1..]) == two;
    assert Run(empty, ops) == two;
    assert two.byWs["ws-1"] == "a" && two.byWs["ws-2"] == "a" by { assert "ws-1" != "ws-2"; }
  }

  /** What each operation does to the entries of its own session and socket. */
  lemma OwnEntries<C>(m: AuthMaps<C>, auth: string, ws: string, close: C)
    requires m.Forward()
    ensures
      var after := m.Register(auth, ws, close);
      && auth in after.sessions && after.sessions[auth] == AuthRecord(ws, close)
      && ws in after.byWs && after.byWs[ws] == auth
      && (forall w :: w in m.byWs && w != ws ==> w in after.byWs && after.byWs[w] == m.byWs[w])
    ensures ws !in m.Unregister(ws).byWs
    ensures auth !in m.Revoke(auth).sessions
    ensures auth in m.sessions ==> m.sessions[auth].ws !in m.Revoke(auth).byWs
  {
  }
}
