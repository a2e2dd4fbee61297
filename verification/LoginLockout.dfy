/**
 * The login lockout: failed attempts of an identity are kept in a queue that
 * is pruned to a time window; enough of them lock the identity for one window.
 *
 * The reference is the plain list of failure times since the last reset.
 */
module LoginLockout {
  import opened Wrappers

  /** What is stored per identity. */
  datatype Window = Window(failed: seq<int>, maxAttempts: int, window: int, lockedUntil: int)

  /** The clock's zero, to which an expired lock is reset. */
  const EPOCH: int := 0

  // ----------------------------------------------------- The plain definition

  ghost predicate Sorted(times: seq<int>) { forall i, j :: 0 <= i <= j < |times| ==> times[i] <= times[j] }

  /** How many of the times lie in [from, to]. */
  function CountIn(times: seq<int>, from: int, to: int): nat {
    if times == [] then 0
    else (if from <= times[0] <= to then 1 else 0) + CountIn(times[1..], from, to)
  }

  /** Some failure at t came with at least m failures in [t - w, t], and its lock runs past now. */
  ghost predicate Locked(times: seq<int>, w: int, m: int, now: int) {
    exists t :: t in times && CountIn(times, t - w, t) >= m && t + w > now
  }

  // ---------------------------------------------------------- Pruning a queue

  /** The front elements older than the window are dropped. */
  function Pruned(times: seq<int>, now: int, w: int): seq<int> {
    if times != [] && now - times[0] > w then Pruned(times[1..], now, w) else times
  }

  lemma SortedTail(times: seq<int>)
    requires times != [] && Sorted(times)
    ensures Sorted(times[1..]) && forall t :: t in times[1..] ==> times[0] <= t && t in times
  {
  }

  /** In a sorted queue pruning keeps exactly the times within the window. */
  lemma {:induction false} PrunedCounts(times: seq<int>, now: int, w: int)
    requires Sorted(times) && forall t :: t in times ==> t <= now
    ensures |Pruned(times, now, w)| == CountIn(times, now - w, now)
    ensures Sorted(Pruned(times, now, w)) && forall t :: t in Pruned(times, now, w) ==> t in times
    decreases |times|
  {
    if times != [] {
      assert times[0] in times;
      SortedTail(times);
      if now - times[0] > w { PrunedCounts(times[1..], now, w); } else { AllWithin(times, now - w, now); }
    }
  }

  lemma {:induction false} AllWithin(times: seq<int>, from: int, to: int)
    requires forall t :: t in times ==> from <= t <= to
    ensures CountIn(times, from, to) == |times|
  {
    if times != [] {
      assert times[0] in times;
      assert forall t :: t in times[1..] ==> t in times;
      AllWithin(times[1..], from, to);
    }
  }

  /** Pruning for one moment is forgotten by pruning for a later one. */
  lemma {:induction false} PrunedAgain(times: seq<int>, now: int, later: int, w: int)
    requires Sorted(times) && now <= later
    ensures Pruned(Pruned(times, now, w), later, w) == Pruned(times, later, w)
    decreases |times|
  {
    if times != [] && now - times[0] > w { PrunedAgain(times[1..], now, later, w); }
  }

  lemma {:induction false} PrunedSnoc(times: seq<int>, t: int, now: int, w: int)
    requires Sorted(times + [t]) && w >= 0 && now - t <= w
    ensures Pruned(times + [t], now, w) == Pruned(times, now, w) + [t]
    decreases |times|
  {
    if times == [] {
      assert [] + [t] == [t];
    } else {
      assert (times + [t])[0] == times[0] && (times + [t])[1..] == times[1..] + [t];
      if now - times[0] > w {
        assert forall i, j :: 0 <= i <= j < |times[1..] + [t]| ==>
          (times[1..] + [t])[i] == (times + [t])[i + 1] && (times[1..] + [t])[j] == (times + [t])[j + 1];
        PrunedSnoc(times[1..], t, now, w);
      }
    }
  }

  lemma {:induction false} CountSnoc(times: seq<int>, t: int, from: int, to: int)
    ensures CountIn(times + [t], from, to) == CountIn(times, from, to) + if from <= t <= to then 1 else 0
  {
    if times == [] {
      assert [] + [t] == [t] && [t][1..] == [];
    } else {
      assert (times + [t])[0] == times[0] && (times + [t])[1..] == times[1..] + [t];
      CountSnoc(times[1..], t, from, to);
    }
  }

  // -------------------------------------------------- Operations on one window

  function Fresh(): Window { Window([], 5, 900000, EPOCH) }

  function Recorded(stored: Option<Window>, now: int, w: int, m: int): Window {
    var old_ := if stored.Some? then stored.value else Fresh();
    var failed := Pruned(old_.failed, now, w) + [now];
    Window(failed, m, w, if |failed| >= m then now + w else old_.lockedUntil)
  }

  /** The answer to a query and the window it leaves; an expired lock is cleared. */
  function Queried(stored: Option<Window>, now: int): (Option<Window>, bool) {
    if stored.None? then (None, false)
    else if stored.value.lockedUntil <= now then (Some(stored.value.(lockedUntil := EPOCH)), false)
    else (stored, true)
  }

  class Lockout {
    var windows: map<string, Window>

    constructor ()
      ensures windows == map[]
    {
      windows := map[];
    }

    function Stored(identity: string): Option<Window>
      reads this
    {
      if identity in windows then Some(windows[identity]) else None
    }

    method RecordFailedAttempt(identity: string, windowMs: int, maxAttempts: int, now: int)
      modifies this
      ensures windows == old(windows)[identity := Recorded(old(Stored(identity)), now, windowMs, maxAttempts)]
    {
      var state := if identity in windows then windows[identity] else Fresh();
      var failed := state.failed;
      while failed != [] && now - failed[0] > windowMs
        invariant Pruned(failed, now, windowMs) == Pruned(state.failed, now, windowMs)
        decreases |failed|
      {
        failed := failed[1..];
      }
      failed := failed + [now];
      var lockedUntil := state.lockedUntil;
      if |failed| >= maxAttempts { lockedUntil := now + windowMs; }
      windows := windows[identity := Window(failed, maxAttempts, windowMs, lockedUntil)];
    }

    method IsRateLimited(identity: string, now: int) returns (limited: bool)
      modifies this
      ensures (Stored(identity), limited) == Queried(old(Stored(identity)), now)
      ensures windows - {identity} == old(windows) - {identity}
    {
      if identity !in windows { return false; }
      if windows[identity].lockedUntil <= now {
        windows := windows[identity := windows[identity].(lockedUntil := EPOCH)];
        return false;
      }
      limited := true;
    }

    method ResetFailedAttempts(identity: string)
      modifies this
      ensures windows == old(windows) - {identity}
    {
      windows := windows - {identity};
    }
  }

  // ------------------------------- The stored window against the plain list

  /** From clock on, the window stored for the failures in `times` gives the answers the list gives. */
  ghost predicate Represents(stored: Option<Window>, times: seq<int>, clock: int, w: int, m: int) {
    && Sorted(times) && EPOCH <= clock && (forall t :: t in times ==> t <= clock)
    && (stored.None? ==> times == [])
    && (stored.Some? ==>
          && (forall now :: clock <= now ==> (stored.value.lockedUntil > now <==> Locked(times, w, m, now)))
          && (w >= 0 ==> stored.value.failed == if times == [] then [] else Pruned(times, times[|times| - 1], w)))
  }

  lemma SortedSnoc(times: seq<int>, now: int)
    requires Sorted(times) && forall t :: t in times ==> t <= now
    ensures Sorted(times + [now]) && forall t :: t in times + [now] ==> t <= now
  {
    assert forall i :: 0 <= i < |times| ==> times[i] in times;
  }

  /** How a new failure changes who is locked. */
  lemma LockedAfterFailure(times: seq<int>, at: int, w: int, m: int, now: int)
    requires (forall t :: t in times ==> t <= at) && at <= now
    ensures Locked(times + [at], w, m, now) <==>
      if CountIn(times + [at], at - w, at) >= m then at + w > now else Locked(times, w, m, now)
  {
    var longer := times + [at];
    assert at in longer;
    forall t | t in times && t < at ensures CountIn(longer, t - w, t) == CountIn(times, t - w, t) {
      CountSnoc(times, at, t - w, t);
    }
    CountSnoc(times, at, at - w, at);
    if Locked(times, w, m, now) {
      var t :| t in times && CountIn(times, t - w, t) >= m && t + w > now;
      assert t in longer;
      if t == at { assert CountIn(longer, at - w, at) >= m; }
    }
    if Locked(longer, w, m, now) {
      var t :| t in longer && CountIn(longer, t - w, t) >= m && t + w > now;
      if t != at { assert t in times; }
    }
  }

  lemma NegativeWindowsNeverLock(times: seq<int>, w: int, m: int, now: int)
    requires w < 0 && forall t :: t in times ==> t <= now
    ensures !Locked(times, w, m, now)
  {
  }

  lemma FailureRepresents(stored: Option<Window>, times: seq<int>, clock: int, w: int, m: int, at: int)
    requires Represents(stored, times, clock, w, m) && clock <= at
    ensures Represents(Some(Recorded(stored, at, w, m)), times + [at], at, w, m)
  {
    var win := Recorded(stored, at, w, m);
    var longer := times + [at];
    SortedSnoc(times, at);
    if w >= 0 {
      RecordedFailures(stored, times, clock, w, m, at);
      PrunedCounts(longer, at, w);
    }
    forall now | at <= now ensures win.lockedUntil > now <==> Locked(longer, w, m, now) {
      LockedAfterFailure(times, at, w, m, now);
      if w < 0 {
        NegativeWindowsNeverLock(times, w, m, now);
        NegativeWindowsNeverLock(longer, w, m, now);
      }
      if stored.None? { assert !Locked([], w, m, now); }
    }
  }

  lemma RecordedFailures(stored: Option<Window>, times: seq<int>, clock: int, w: int, m: int, at: int)
    requires Represents(stored, times, clock, w, m) && clock <= at && w >= 0
    ensures Recorded(stored, at, w, m).failed == Pruned(times + [at], at, w)
  {
    SortedSnoc(times, at);
    PrunedSnoc(times, at, at, w);
    if times != [] {
      var last := times[|times| - 1];
      assert last in times;
      PrunedAgain(times, last, at, w);
    }
  }

  lemma QueryRepresents(stored: Option<Window>, times: seq<int>, clock: int, w: int, m: int, at: int)
    requires Represents(stored, times, clock, w, m) && clock <= at
    ensures Represents(Queried(stored, at).0, times, at, w, m)
    ensures Queried(stored, at).1 <==> Locked(times, w, m, at)
  {
    if stored.Some? && stored.value.lockedUntil <= at {
      forall now | at <= now ensures !Locked(times, w, m, now) {
        assert !(stored.value.lockedUntil > now);
      }
    }
  }

  // ------------------------------------------------------------- Whole runs

  datatype Event = Failed(at: int) | Asked(at: int) | Cleared(at: int)

  /** The answers the stored windows give, oldest first. */
  function Answers(stored: Option<Window>, events: seq<Event>, w: int, m: int): seq<bool>
    decreases |events|
  {
    if events == [] then []
    else match events[0]
      case Failed(at) => Answers(Some(Recorded(stored, at, w, m)), events[1..], w, m)
      case Asked(at) => [Queried(stored, at).1] + Answers(Queried(stored, at).0, events[1..], w, m)
      case Cleared(_) => Answers(None, events[1..], w, m)
  }

  /** The answers by the plain list of failures since the last reset. */
  ghost function Expected(times: seq<int>, events: seq<Event>, w: int, m: int): seq<bool>
    decreases |events|
  {
    if events == [] then []
    else match events[0]
      case Failed(at) => Expected(times + [at], events[1..], w, m)
      case Asked(at) => [Locked(times, w, m, at)] + Expected(times, events[1..], w, m)
      case Cleared(_) => Expected([], events[1..], w, m)
  }

  ghost predicate Monotone(clock: int, events: seq<Event>)
    decreases |events|
  {
    events == [] || (clock <= events[0].at && Monotone(events[0].at, events[1..]))
  }

  lemma {:induction false} AnswersAsExpected(
      stored: Option<Window>, times: seq<int>, clock: int, events: seq<Event>, w: int, m: int)
    requires Represents(stored, times, clock, w, m) && Monotone(clock, events)
    ensures Answers(stored, events, w, m) == Expected(times, events, w, m)
    decreases |events|
  {
    if events != [] {
      var at := events[0].at;
      match events[0]
      case Failed(_) =>
        FailureRepresents(stored, times, clock, w, m, at);
        AnswersAsExpected(Some(Recorded(stored, at, w, m)), times + [at], at, events[1..], w, m);
      case Asked(_) =>
        QueryRepresents(stored, times, clock, w, m, at);
        AnswersAsExpected(Queried(stored, at).0, times, at, events[1..], w, m);
      case Cleared(_) =>
        AnswersAsExpected(None, [], at, events[1..], w, m);
    }
  }

  /**
   * In every run with a clock that does not go back, each query is answered by
   * the failures since the last reset alone: pruning the queue and clearing
   * expired locks are never noticed.
   */
  lemma LockoutFollowsTheList(clock: int, events: seq<Event>, w: int, m: int)
    requires EPOCH <= clock && Monotone(clock, events)
    ensures Answers(None, events, w, m) == Expected([], events, w, m)
  {
    AnswersAsExpected(None, [], clock, events, w, m);
  }

  // ------------------------------------------------ The rule in plain numbers

  /** The failures that came with failure i in its window. */
  ghost function Recent(times: seq<int>, i: nat, w: int): set<nat>
    requires i < |times|
  {
    set j: nat | j < |times| && times[i] - w <= times[j] <= times[i]
  }

  ghost function Between(times: seq<int>, from: int, to: int): set<nat> {
    set j: nat | j < |times| && from <= times[j] <= to
  }

  lemma {:induction false} CountIsCardinality(times: seq<int>, from: int, to: int)
    ensures CountIn(times, from, to) == |Between(times, from, to)|
    decreases |times|
  {
    if times == [] {
      assert Between(times, from, to) == {};
    } else {
      var k := |times| - 1;
      var before, now := Between(times[..k], from, to), Between(times, from, to);
      CountIsCardinality(times[..k], from, to);
      assert times == times[..k] + [times[k]];
      CountSnoc(times[..k], times[k], from, to);
      assert now == if from <= times[k] <= to then before + {k} else before;
      assert k !in before;
    }
  }

  function Failures(times: seq<int>): seq<Event> {
    if times == [] then [] else [Failed(times[0])] + Failures(times[1..])
  }

  lemma {:induction false} ExpectedAfter(earlier: seq<int>, times: seq<int>, now: int, w: int, m: int)
    ensures Expected(earlier, Failures(times) + [Asked(now)], w, m) == [Locked(earlier + times, w, m, now)]
    decreases |times|
  {
    if times == [] {
      assert Failures(times) + [Asked(now)] == [Asked(now)] && [Asked(now)][1..] == [] && earlier + times == earlier;
      assert Expected(earlier, [], w, m) == [];
    } else {
      var events := Failures(times) + [Asked(now)];
      assert events[0] == Failed(times[0]) && events[1..] == Failures(times[1..]) + [Asked(now)];
      assert (earlier + [times[0]]) + times[1..] == earlier + times;
      ExpectedAfter(earlier + [times[0]], times[1..], now, w, m);
    }
  }

  lemma {:induction false} FailuresMonotone(clock: int, times: seq<int>, now: int)
    requires Sorted(times) && clock <= now && forall t :: t in times ==> clock <= t <= now
    ensures Monotone(clock, Failures(times) + [Asked(now)])
    decreases |times|
  {
    var events := Failures(times) + [Asked(now)];
    if times == [] {
      assert events[1..] == [];
    } else {
      assert times[0] in times;
      SortedTail(times);
      assert events[0] == Failed(times[0]) && events[1..] == Failures(times[1..]) + [Asked(now)];
      FailuresMonotone(times[0], times[1..], now);
    }
  }

  /** Failure i had m failures in the w before it, itself included, and now is less than w after it. */
  ghost predicate LocksAt(times: seq<int>, i: nat, now: int, w: int, m: int) {
    i < |times| && |Recent(times, i, w)| >= m && now < times[i] + w
  }

  lemma LocksAtIsCount(times: seq<int>, i: nat, now: int, w: int, m: int)
    requires i < |times|
    ensures LocksAt(times, i, now, w, m) <==> CountIn(times, times[i] - w, times[i]) >= m && times[i] + w > now
  {
    CountIsCardinality(times, times[i] - w, times[i]);
    assert Recent(times, i, w) == Between(times, times[i] - w, times[i]);
  }

  lemma LockedIff(times: seq<int>, now: int, w: int, m: int)
    ensures Locked(times, w, m, now) <==> exists i: nat :: LocksAt(times, i, now, w, m)
  {
    if Locked(times, w, m, now) {
      var t :| t in times && CountIn(times, t - w, t) >= m && t + w > now;
      var i: nat :| i < |times| && times[i] == t;
      LocksAtIsCount(times, i, now, w, m);
    }
    if i: nat :| LocksAt(times, i, now, w, m) {
      LocksAtIsCount(times, i, now, w, m);
      assert times[i] in times;
    }
  }

  /** After failures at these times, an identity is refused at a later moment exactly when one of them locks it. */
  lemma LockedInPlainNumbers(times: seq<int>, now: int, w: int, m: int)
    requires Sorted(times) && EPOCH <= now && forall t :: t in times ==> EPOCH <= t <= now
    ensures Answers(None, Failures(times) + [Asked(now)], w, m) == [exists i: nat :: LocksAt(times, i, now, w, m)]
  {
    FailuresMonotone(EPOCH, times, now);
    LockoutFollowsTheList(EPOCH, Failures(times) + [Asked(now)], w, m);
    ExpectedAfter([], times, now, w, m);
    assert [] + times == times;
    LockedIff(times, now, w, m);
  }

  /** Clearing makes an identity as good as new. */
  lemma ClearingForgets(stored: Option<Window>, at: int, events: seq<Event>, w: int, m: int)
    ensures Answers(stored, [Cleared(at)] + events, w, m) == Answers(None, events, w, m)
  {
    assert ([Cleared(at)] + events)[1..] == events;
  }
}
