/**
 * One tenant's counters under concurrent record_request calls.  Every atomic
 * access is a step of its own; any number of threads are interleaved in any
 * order, with sequentially consistent accesses, a clock that does not go back
 * and interval changes at any time.  Latencies are reals.
 */
module Metrics {
  import opened Wrappers

  datatype Call = Call(duration: real, isError: bool)

  /** The next access of a call, with the values it has read so far. */
  datatype Pc =
    | ReadClock
    | LoadStart(now: int)
    | LoadDuration(now: int, start: int)
    | TryReset(now: int, start: int, minutes: int)
    | ClearRequests
    | ClearErrors
    | CountRequest
    | CountInInterval
    | CountError
    | CountErrorInInterval
    | LoadAverage
    | SwapAverage(seen: real)

  datatype Counters = Counters(
    requestsInInterval: nat, errorsInInterval: nat,
    totalRequests: nat, totalErrors: nat,
    average: real, intervalStart: int, intervalMinutes: int)

  datatype Thread = Thread(id: nat, pc: Pc)

  datatype Reset = Reset(from: int, to: int)

  /**
   * The shared counters and the running calls; the rest is history: calls are
   * numbered as they begin, `order` lists them as their average update went
   * through, the sets say which of them each counter currently includes.
   */
  datatype State = State(
    clock: int, c: Counters, threads: map<nat, Thread>,
    begun: seq<Call>, order: seq<nat>,
    counted: set<nat>, erred: set<nat>, inInterval: set<nat>, erredInInterval: set<nat>,
    resets: seq<Reset>)

  const MINUTE_NS: int := 60_000_000_000

  /** A scheduling decision; a compare-exchange on the average may also fail spuriously. */
  datatype Label =
    | Begin(thread: nat, call: Call)
    | Access(thread: nat, spurious: bool)
    | Tick(elapsed: nat)
    | SetIntervalMinutes(minutes: int)

  function Init(clock: int): State {
    State(clock, Counters(0, 0, 0, 0, 0.0, clock, 60), map[], [], [], {}, {}, {}, {}, [])
  }

  function Mixed(old_: real, sample: real): real { old_ * 0.9 + sample * 0.1 }

  /** The elapsed-interval test followed by the compare-exchange on the interval start. */
  predicate WinsReset(c: Counters, pc: Pc) {
    pc.TryReset? && pc.now - pc.start >= pc.minutes * MINUTE_NS && c.intervalStart == pc.start
  }

  predicate WinsAverage(c: Counters, pc: Pc, spurious: bool) {
    pc.SwapAverage? && c.average == pc.seen && !spurious
  }

  /** Where a call goes next; None when it is done. */
  function NextPc(s: State, call: Call, pc: Pc, spurious: bool): Option<Pc> {
    match pc
    case ReadClock => Some(LoadStart(s.clock))
    case LoadStart(now) => Some(LoadDuration(now, s.c.intervalStart))
    case LoadDuration(now, start) => Some(TryReset(now, start, s.c.intervalMinutes))
    case TryReset(_, _, _) => Some(if WinsReset(s.c, pc) then ClearRequests else CountRequest)
    case ClearRequests => Some(ClearErrors)
    case ClearErrors => Some(CountRequest)
    case CountRequest => Some(CountInInterval)
    case CountInInterval => Some(if call.isError then CountError else LoadAverage)
    case CountError => Some(CountErrorInInterval)
    case CountErrorInInterval => Some(LoadAverage)
    case LoadAverage => Some(SwapAverage(s.c.average))
    case SwapAverage(_) => if WinsAverage(s.c, pc, spurious) then None else Some(SwapAverage(s.c.average))
  }

  /** The one shared location the access may change. */
  function NextCounters(c: Counters, call: Call, pc: Pc, spurious: bool): Counters {
    match pc
    case TryReset(now, _, _) => if WinsReset(c, pc) then c.(intervalStart := now) else c
    case ClearRequests => c.(requestsInInterval := 0)
    case ClearErrors => c.(errorsInInterval := 0)
    case CountRequest => c.(totalRequests := c.totalRequests + 1)
    case CountInInterval => c.(requestsInInterval := c.requestsInInterval + 1)
    case CountError => c.(totalErrors := c.totalErrors + 1)
    case CountErrorInInterval => c.(errorsInInterval := c.errorsInInterval + 1)
    case SwapAverage(seen) =>
      if WinsAverage(c, pc, spurious) then c.(average := Mixed(seen, call.duration)) else c
    case _ => c
  }

  function With(a: set<nat>, id: nat, included: bool): set<nat> { if included then a + {id} else a }

  function AccessStep(s: State, t: nat, spurious: bool): State
    requires t in s.threads && s.threads[t].id < |s.begun|
  {
    var id, pc := s.threads[t].id, s.threads[t].pc;
    var call := s.begun[id];
    var next := NextPc(s, call, pc, spurious);
    State(
      s.clock,
      NextCounters(s.c, call, pc, spurious),
      if next.Some? then s.threads[t := Thread(id, next.value)] else s.threads - {t},
      s.begun,
      if next.None? then s.order + [id] else s.order,
      With(s.counted, id, pc.CountRequest?),
      With(s.erred, id, pc.CountError?),
      if pc.ClearRequests? then {} else With(s.inInterval, id, pc.CountInInterval?),
      if pc.ClearErrors? then {} else With(s.erredInInterval, id, pc.CountErrorInInterval?),
      if WinsReset(s.c, pc) then s.resets + [Reset(pc.start, pc.now)] else s.resets)
  }

  /** One step; a decision that is not possible changes nothing. */
  function Step(s: State, l: Label): State {
    match l
    case Begin(t, call) =>
      if t in s.threads then s
      else s.(threads := s.threads[t := Thread(|s.begun|, ReadClock)], begun := s.begun + [call])
    case Access(t, spurious) =>
      if t in s.threads && s.threads[t].id < |s.begun| then AccessStep(s, t, spurious) else s
    case Tick(elapsed) => s.(clock := s.clock + elapsed)
    case SetIntervalMinutes(m) => s.(c := s.c.(intervalMinutes := if m < 1 then 1 else m))
  }

  function Run(s: State, ls: seq<Label>): State
    decreases |ls|
  {
    if ls == [] then s else Run(Step(s, ls[0]), ls[1..])
  }

  // --------------------------------------------------- Counting invariants

  /** How far a call has got, as a number. */
  function Progress(pc: Pc): nat {
    match pc
    case CountRequest => 1
    case CountInInterval => 2
    case CountError => 3
    case CountErrorInInterval => 4
    case LoadAverage => 5
    case SwapAverage(_) => 5
    case _ => 0
  }

  /** Which request counters include a call, by where its thread stands. */
  ghost predicate RequestOk(s: State, th: Thread) {
    && th.id < |s.begun|
    && th.id !in s.order
    && (th.id in s.counted <==> Progress(th.pc) >= 2)
    && (th.id in s.inInterval ==> Progress(th.pc) >= 3)
  }

  ghost predicate ErrorOk(s: State, th: Thread) {
    && th.id < |s.begun|
    && (th.id in s.erred <==> Progress(th.pc) >= 4 && s.begun[th.id].isError)
    && (th.id in s.erredInInterval ==> Progress(th.pc) >= 5)
    && (Progress(th.pc) == 3 || Progress(th.pc) == 4 ==> s.begun[th.id].isError)
  }

  ghost predicate ThreadOk(s: State, th: Thread) { RequestOk(s, th) && ErrorOk(s, th) }

  ghost predicate Active(s: State, id: nat) { exists t :: t in s.threads && s.threads[t].id == id }

  ghost predicate Counts(s: State) {
    && s.c.totalRequests == |s.counted| && s.c.totalErrors == |s.erred|
    && s.c.requestsInInterval == |s.inInterval| && s.c.errorsInInterval == |s.erredInInterval|
  }

  ghost predicate Histories(s: State) {
    && s.inInterval <= s.counted && s.erredInInterval <= s.erred <= s.counted
    && (forall x :: x in s.counted ==> x < |s.begun|)
    && (forall x :: x in s.erred ==> x < |s.begun| && s.begun[x].isError)
    && (forall x :: x in s.order ==> x in s.counted && (x < |s.begun| && s.begun[x].isError ==> x in s.erred))
    && NoRepeats(s.order)
  }

  ghost predicate Threads(s: State) {
    && (forall t :: t in s.threads ==> ThreadOk(s, s.threads[t]))
    && (forall t, u :: t in s.threads && u in s.threads && t != u ==> s.threads[t].id != s.threads[u].id)
    && (forall x: nat :: x < |s.begun| ==> x in s.order || Active(s, x))
  }

  // ------------------------------------------- Average and reset invariants

  /** The moving average of the calls in the given order. */
  function Fold(begun: seq<Call>, order: seq<nat>): real
    requires forall x :: x in order ==> x < |begun|
  {
    if order == [] then 0.0
    else
      var k := |order| - 1;
      assert (forall x :: x in order[..k] ==> x in order) && order[k] in order;
      Mixed(Fold(begun, order[..k]), begun[order[k]].duration)
  }

  ghost predicate AverageOk(s: State) {
    && (forall x :: x in s.order ==> x < |s.begun|)
    && s.c.average == Fold(s.begun, s.order)
  }

  /** Resets form one chain of growing interval starts, each at least the shortest interval after the last. */
  ghost predicate Chain(resets: seq<Reset>) {
    && (forall i :: 0 <= i < |resets| ==> resets[i].from + MINUTE_NS <= resets[i].to)
    && (forall i, j :: 0 <= i < j < |resets| ==> resets[i].to <= resets[j].from)
  }

  ghost predicate ResetsOk(s: State) {
    && Chain(s.resets)
    && (s.resets != [] ==> s.resets[|s.resets| - 1].to == s.c.intervalStart)
    && s.c.intervalMinutes >= 1 && s.c.intervalStart <= s.clock
    && forall t :: t in s.threads ==> ClockOk(s, s.threads[t].pc)
  }

  ghost predicate ClockOk(s: State, pc: Pc) {
    match pc
    case LoadStart(now) => now <= s.clock
    case LoadDuration(now, _) => now <= s.clock
    case TryReset(now, _, minutes) => now <= s.clock && minutes >= 1
    case _ => true
  }

  ghost predicate Inv(s: State) {
    Counts(s) && Histories(s) && Threads(s) && AverageOk(s) && ResetsOk(s)
  }

  // ------------------------------------------------------------- Preservation

  lemma InitInv(clock: int)
    ensures Inv(Init(clock))
  {
  }

  lemma AddedCard(a: set<nat>, x: nat)
    requires x !in a
    ensures |a + {x}| == |a| + 1
  {
  }

  lemma AccessCounts(s: State, t: nat, spurious: bool)
    requires Counts(s) && t in s.threads && ThreadOk(s, s.threads[t])
    ensures Counts(AccessStep(s, t, spurious))
  {
    var th := s.threads[t];
    match th.pc
    case CountRequest => AddedCard(s.counted, th.id);
    case CountInInterval => AddedCard(s.inInterval, th.id);
    case CountError => AddedCard(s.erred, th.id);
    case CountErrorInInterval => AddedCard(s.erredInInterval, th.id);
    case _ =>
  }

  lemma AccessHistories(s: State, t: nat, spurious: bool)
    requires Histories(s) && t in s.threads && ThreadOk(s, s.threads[t])
    ensures Histories(AccessStep(s, t, spurious))
  {
  }

  lemma AccessOthers(s: State, t: nat, spurious: bool, other: Thread)
    requires t in s.threads && s.threads[t].id < |s.begun|
    requires ThreadOk(s, other) && other.id != s.threads[t].id
    ensures ThreadOk(AccessStep(s, t, spurious), other)
  {
  }

  lemma AccessItsRequest(s: State, t: nat, spurious: bool)
    requires t in s.threads && RequestOk(s, s.threads[t])
    ensures
      var s' := AccessStep(s, t, spurious);
      t in s'.threads ==> s'.threads[t].id == s.threads[t].id && RequestOk(s', s'.threads[t])
  {
  }

  lemma AccessItsError(s: State, t: nat, spurious: bool)
    requires t in s.threads && ErrorOk(s, s.threads[t])
    ensures
      var s' := AccessStep(s, t, spurious);
      t in s'.threads ==> ErrorOk(s', s'.threads[t])
  {
  }

  lemma AccessThreads(s: State, t: nat, spurious: bool)
    requires Threads(s) && t in s.threads && ThreadOk(s, s.threads[t])
    ensures Threads(AccessStep(s, t, spurious))
  {
    var s' := AccessStep(s, t, spurious);
    forall u | u in s'.threads
      ensures u in s.threads && s'.threads[u].id == s.threads[u].id && ThreadOk(s', s'.threads[u])
    {
      if u == t {
        AccessItsRequest(s, t, spurious);
        AccessItsError(s, t, spurious);
      } else {
        AccessOthers(s, t, spurious, s.threads[u]);
      }
    }
    forall x: nat | x < |s'.begun| ensures x in s'.order || Active(s', x) {
      if x !in s.order {
        var u :| u in s.threads && s.threads[u].id == x;
        if u in s'.threads { assert s'.threads[u].id == x; }
      }
    }
  }

  lemma AccessAverage(s: State, t: nat, spurious: bool)
    requires AverageOk(s) && t in s.threads && s.threads[t].id < |s.begun|
    ensures AverageOk(AccessStep(s, t, spurious))
  {
    var s' := AccessStep(s, t, spurious);
    if s'.order != s.order { assert s'.order[..|s.order|] == s.order; }
  }

  lemma AccessClocks(s: State, t: nat, spurious: bool)
    requires ResetsOk(s) && t in s.threads && s.threads[t].id < |s.begun|
    ensures forall u :: u in AccessStep(s, t, spurious).threads ==>
      ClockOk(AccessStep(s, t, spurious), AccessStep(s, t, spurious).threads[u].pc)
  {
    var s' := AccessStep(s, t, spurious);
    forall u | u in s'.threads ensures ClockOk(s', s'.threads[u].pc) {
      assert u in s.threads && ClockOk(s, s.threads[u].pc);
    }
  }

  lemma ChainGrows(resets: seq<Reset>, from: int, to: int)
    requires Chain(resets) && from + MINUTE_NS <= to
    requires resets != [] ==> resets[|resets| - 1].to == from
    ensures Chain(resets + [Reset(from, to)])
  {
    var longer := resets + [Reset(from, to)];
    forall i | 0 <= i < |resets| ensures resets[i].to <= from {
      if i < |resets| - 1 { assert resets[i].to <= resets[|resets| - 1].from; }
    }
  }

  lemma AccessResets(s: State, t: nat, spurious: bool)
    requires ResetsOk(s) && t in s.threads && s.threads[t].id < |s.begun|
    ensures ResetsOk(AccessStep(s, t, spurious))
  {
    AccessClocks(s, t, spurious);
    var s', pc := AccessStep(s, t, spurious), s.threads[t].pc;
    assert ClockOk(s, pc);
    if s'.resets != s.resets {
      assert pc.minutes * MINUTE_NS >= MINUTE_NS;
      ChainGrows(s.resets, pc.start, pc.now);
    }
  }

  lemma BeginInv(s: State, t: nat, call: Call)
    requires Inv(s) && t !in s.threads
    ensures Inv(Step(s, Begin(t, call)))
  {
    var s' := Step(s, Begin(t, call));
    forall u | u in s'.threads ensures ThreadOk(s', s'.threads[u]) && ClockOk(s', s'.threads[u].pc) {
      if u != t { assert ThreadOk(s, s.threads[u]) && ClockOk(s, s.threads[u].pc); }
    }
    forall u | u in s.threads ensures s.threads[u].id != |s.begun| { assert ThreadOk(s, s.threads[u]); }
    forall x: nat | x < |s'.begun| ensures x in s'.order || Active(s', x) {
      if x == |s.begun| {
        assert s'.threads[t].id == x;
      } else if x !in s.order {
        var u :| u in s.threads && s.threads[u].id == x;
        assert s'.threads[u].id == x;
      }
    }
    FoldExtends(s.begun, call, s.order);
  }

  lemma {:induction false} FoldExtends(begun: seq<Call>, call: Call, order: seq<nat>)
    requires forall x :: x in order ==> x < |begun|
    ensures Fold(begun + [call], order) == Fold(begun, order)
    decreases |order|
  {
    if order != [] {
      var k := |order| - 1;
      assert (forall x :: x in order[..k] ==> x in order) && order[k] in order;
      FoldExtends(begun, call, order[..k]);
    }
  }

  lemma ClockInv(s: State, s': State)
    requires Inv(s) && s' == s.(clock := s'.clock, c := s.c.(intervalMinutes := s'.c.intervalMinutes))
    requires s.clock <= s'.clock && s'.c.intervalMinutes >= 1
    ensures Inv(s')
  {
    forall t | t in s'.threads ensures ThreadOk(s', s'.threads[t]) && ClockOk(s', s'.threads[t].pc) {
      assert ThreadOk(s, s.threads[t]) && ClockOk(s, s.threads[t].pc);
    }
    forall x: nat | x < |s'.begun| ensures x in s'.order || Active(s', x) {
      if x !in s.order { var u :| u in s.threads && s.threads[u].id == x; }
    }
  }

  lemma StepInv(s: State, l: Label)
    requires Inv(s)
    ensures Inv(Step(s, l))
  {
    match l
    case Begin(t, call) => if t !in s.threads { BeginInv(s, t, call); }
    case Access(t, spurious) =>
      if t in s.threads {
        assert ThreadOk(s, s.threads[t]);
        AccessCounts(s, t, spurious);
        AccessHistories(s, t, spurious);
        AccessThreads(s, t, spurious);
        AccessAverage(s, t, spurious);
        AccessResets(s, t, spurious);
      }
    case Tick(_) => ClockInv(s, Step(s, l));
    case SetIntervalMinutes(m) => ClockInv(s, Step(s, l));
  }

  ghost predicate Reachable(s: State) { exists clock: int, ls: seq<Label> :: Run(Init(clock), ls) == s }

  lemma {:induction false} RunInv(s: State, ls: seq<Label>)
    requires Inv(s)
    ensures Inv(Run(s, ls))
    decreases |ls|
  {
    if ls != [] {
      StepInv(s, ls[0]);
      RunInv(Step(s, ls[0]), ls[1..]);
    }
  }

  lemma ReachableInv(s: State)
    requires Reachable(s)
    ensures Inv(s)
  {
    var clock: int, ls: seq<Label> :| Run(Init(clock), ls) == s;
    InitInv(clock);
    RunInv(Init(clock), ls);
  }

  // --------------------------------------------- What every interleaving gives

  lemma {:induction false} SubsetCard(a: set<nat>, b: set<nat>)
    requires a <= b
    ensures |a| <= |b|
    decreases |a|
  {
    if a != {} {
      var x :| x in a;
      SubsetCard(a - {x}, b - {x});
    }
  }

  /** Errors never exceed requests in total, and no interval counter exceeds its total. */
  lemma CountersAreConsistent(s: State)
    requires Reachable(s)
    ensures s.c.totalErrors <= s.c.totalRequests
    ensures s.c.requestsInInterval <= s.c.totalRequests
    ensures s.c.errorsInInterval <= s.c.totalErrors
  {
    ReachableInv(s);
    SubsetCard(s.erred, s.counted);
    SubsetCard(s.inInterval, s.counted);
    SubsetCard(s.erredInInterval, s.erred);
  }

  /** Each interval start is replaced by one winner only, always by a later one. */
  lemma EachBoundaryResetOnce(s: State)
    requires Reachable(s)
    ensures Chain(s.resets)
    ensures forall i :: 0 <= i < |s.resets| ==> s.resets[i].to - s.resets[i].from >= 60_000_000_000
    ensures forall i, j :: 0 <= i < j < |s.resets| ==> s.resets[i].from != s.resets[j].from
  {
    ReachableInv(s);
    var resets := s.resets;
    forall i, j | 0 <= i < j < |resets| ensures resets[i].from != resets[j].from {
      assert resets[i].from < resets[i].to <= resets[j].from;
    }
  }

  lemma {:induction false} FoldBounded(begun: seq<Call>, order: seq<nat>, most: real)
    requires forall x :: x in order ==> x < |begun| && 0.0 <= begun[x].duration <= most
    requires most >= 0.0
    ensures 0.0 <= Fold(begun, order) <= most
    decreases |order|
  {
    if order != [] {
      var k := |order| - 1;
      assert forall x :: x in order[..k] ==> x in order;
      FoldBounded(begun, order[..k], most);
      assert order[k] in order;
    }
  }

  /** The average is the sequential fold of the samples in the order their updates went through. */
  lemma AverageIsTheFold(s: State, most: real)
    requires Reachable(s) && most >= 0.0
    ensures (forall x :: x in s.order ==> x < |s.begun|) && NoRepeats(s.order)
    ensures s.c.average == Fold(s.begun, s.order)
    ensures (forall x :: x in s.order ==> 0.0 <= s.begun[x].duration <= most) ==> 0.0 <= s.c.average <= most
  {
    ReachableInv(s);
    if forall x :: x in s.order ==> 0.0 <= s.begun[x].duration <= most { FoldBounded(s.begun, s.order, most); }
  }

  function Upto(n: nat): set<nat> { if n == 0 then {} else Upto(n - 1) + {n - 1} }

  /** How much a sample still counts when so many came after it. */
  function Decay(later: nat): real { if later == 0 then 1.0 else Decay(later - 1) * 0.9 }

  /** The samples in order, each with a tenth of what is left of its weight. */
  function Weighted(begun: seq<Call>, order: seq<nat>): real
    requires forall x :: x in order ==> x < |begun|
  {
    if order == [] then 0.0
    else
      assert order[0] in order && forall x :: x in order[1..] ==> x in order;
      0.1 * Decay(|order| - 1) * begun[order[0]].duration + Weighted(begun, order[1..])
  }

  lemma {:induction false} WeightedSnoc(begun: seq<Call>, order: seq<nat>, x: nat)
    requires x < |begun| && forall y :: y in order ==> y < |begun|
    ensures forall y :: y in order + [x] ==> y < |begun|
    ensures Weighted(begun, order + [x]) == 0.9 * Weighted(begun, order) + 0.1 * begun[x].duration
    decreases |order|
  {
    if order == [] {
      assert [] + [x] == [x] && [x][1..] == [];
    } else {
      assert order[0] in order && forall y :: y in order[1..] ==> y in order;
      assert (order + [x])[0] == order[0] && (order + [x])[1..] == order[1..] + [x];
      WeightedSnoc(begun, order[1..], x);
      OneWeightDecays(Decay(|order| - 1), begun[order[0]].duration);
    }
  }

  lemma OneWeightDecays(weight: real, duration: real)
    ensures 0.1 * (weight * 0.9) * duration == 0.9 * (0.1 * weight * duration)
  {
  }

  lemma {:induction false} FoldIsWeighted(begun: seq<Call>, order: seq<nat>)
    requires forall x :: x in order ==> x < |begun|
    ensures Fold(begun, order) == Weighted(begun, order)
    decreases |order|
  {
    if order != [] {
      var k := |order| - 1;
      assert order[k] in order && forall x :: x in order[..k] ==> x in order;
      assert order == order[..k] + [order[k]];
      FoldIsWeighted(begun, order[..k]);
      WeightedSnoc(begun, order[..k], order[k]);
    }
  }

  /** The average in closed form: the sample with n later ones counts 0.1 * 0.9^n. */
  lemma AverageIsWeighted(s: State)
    requires Reachable(s)
    ensures (forall x :: x in s.order ==> x < |s.begun|) && s.c.average == Weighted(s.begun, s.order)
  {
    ReachableInv(s);
    FoldIsWeighted(s.begun, s.order);
  }

  /** A successful exchange moves the average a tenth of the way to its sample; nothing else changes it. */
  lemma OneExchange(s: State, l: Label)
    requires Reachable(s)
    ensures
      var s' := Step(s, l);
      if |s'.order| == |s.order| + 1 then
        var k := s'.order[|s.order|];
        k < |s.begun| && 10.0 * s'.c.average == 9.0 * s.c.average + s.begun[k].duration
      else s'.order == s.order && s'.c.average == s.c.average
  {
    ReachableInv(s);
    if l.Access? && l.thread in s.threads { assert ThreadOk(s, s.threads[l.thread]); }
  }

  lemma {:induction false} UptoCard(n: nat)
    ensures |Upto(n)| == n && forall x: nat :: x in Upto(n) <==> x < n
  {
    if n > 0 { UptoCard(n - 1); }
  }

  /** When no call is in progress nothing has been lost: every call was counted and sampled exactly once. */
  lemma NothingIsLost(s: State)
    requires Reachable(s) && s.threads == map[]
    ensures s.c.totalRequests == |s.begun|
    ensures s.c.totalErrors == |set x: nat | x < |s.begun| && s.begun[x].isError|
    ensures NoRepeats(s.order) && (forall x: nat :: x in s.order <==> x < |s.begun|)
  {
    ReachableInv(s);
    forall x: nat | x < |s.begun| ensures x in s.order { assert !Active(s, x); }
    UptoCard(|s.begun|);
    assert s.counted == Upto(|s.begun|);
    assert s.erred == set x: nat | x < |s.begun| && s.begun[x].isError;
  }

  // ---------------------------------- Errors against requests in an interval

  lemma {:induction false} RunSnoc(s: State, ls: seq<Label>, l: Label)
    ensures Run(s, ls + [l]) == Step(Run(s, ls), l)
    decreases |ls|
  {
    if ls == [] {
      assert [] + [l] == [l] && [l][1..] == [] && Run(Step(s, l), []) == Step(s, l);
    } else {
      assert (ls + [l])[0] == ls[0] && (ls + [l])[1..] == ls[1..] + [l];
      RunSnoc(Step(s, ls[0]), ls[1..], l);
    }
  }

  /** The time that passes in a run. */
  function Elapsed(ls: seq<Label>): nat {
    if ls == [] then 0 else (if ls[0].Tick? then ls[0].elapsed else 0) + Elapsed(ls[1..])
  }

  /** The interval is never set shorter than that many minutes. */
  ghost predicate IntervalsAtLeast(minutes: nat, ls: seq<Label>) {
    forall l :: l in ls && l.SetIntervalMinutes? ==> l.minutes >= minutes
  }

  /** In every run that takes no longer, interval errors never exceed interval requests. */
  ghost predicate ErrorsStayWithinRequests(minutes: nat, nanoseconds: nat) {
    forall clock: int, ls: seq<Label> :: IntervalsAtLeast(minutes, ls) && Elapsed(ls) <= nanoseconds ==>
      Run(Init(clock), ls).c.errorsInInterval <= Run(Init(clock), ls).c.requestsInInterval
  }

  /** No reset has begun, and none is due before the interval has passed. */
  ghost predicate NoResetYet(s: State, start: int, minutes: nat) {
    && s.c.intervalStart == start && s.c.intervalMinutes >= minutes
    && s.erredInInterval <= s.inInterval
    && forall t :: t in s.threads ==>
         CountedHere(s, s.threads[t]) && NotResetting(s.threads[t].pc, start, s.clock, minutes)
  }

  ghost predicate CountedHere(s: State, th: Thread) { Progress(th.pc) >= 3 ==> th.id in s.inInterval }

  ghost predicate NotResetting(pc: Pc, start: int, clock: int, minutes: nat) {
    match pc
    case LoadStart(now) => now <= clock
    case LoadDuration(now, from) => now <= clock && from == start
    case TryReset(now, from, due) => now <= clock && from == start && due >= minutes
    case ClearRequests => false
    case ClearErrors => false
    case _ => true
  }

  lemma WholeMinutes(a: int, b: int)
    requires a <= b
    ensures a * MINUTE_NS <= b * MINUTE_NS
  {
  }

  lemma StepWithoutReset(s: State, l: Label, start: int, minutes: nat)
    requires Inv(s) && NoResetYet(s, start, minutes) && minutes >= 1
    requires l.SetIntervalMinutes? ==> l.minutes >= minutes
    requires Step(s, l).clock - start < minutes * MINUTE_NS
    ensures NoResetYet(Step(s, l), start, minutes)
  {
    var s' := Step(s, l);
    if l.Access? && l.thread in s.threads {
      var th := s.threads[l.thread];
      assert ThreadOk(s, th) && CountedHere(s, th) && NotResetting(th.pc, start, s.clock, minutes);
      if th.pc.TryReset? { WholeMinutes(minutes, th.pc.minutes); }
      forall t | t in s'.threads
        ensures CountedHere(s', s'.threads[t]) && NotResetting(s'.threads[t].pc, start, s'.clock, minutes)
      {
        if t != l.thread { assert s'.threads[t] == s.threads[t]; }
      }
    }
  }

  lemma {:induction false} RunWithoutReset(s: State, ls: seq<Label>, start: int, minutes: nat)
    requires Inv(s) && NoResetYet(s, start, minutes) && minutes >= 1 && IntervalsAtLeast(minutes, ls)
    requires s.clock + Elapsed(ls) - start < minutes * MINUTE_NS
    ensures Run(s, ls).c.errorsInInterval <= Run(s, ls).c.requestsInInterval
    decreases |ls|
  {
    if ls == [] {
      SubsetCard(s.erredInInterval, s.inInterval);
    } else {
      assert ls[0] in ls && forall l :: l in ls[1..] ==> l in ls;
      StepInv(s, ls[0]);
      StepWithoutReset(s, ls[0], start, minutes);
      RunWithoutReset(Step(s, ls[0]), ls[1..], start, minutes);
    }
  }

  lemma {:induction false} ElapsedSnoc(ls: seq<Label>, l: Label)
    ensures Elapsed(ls + [l]) == Elapsed(ls) + if l.Tick? then l.elapsed else 0
  {
    if ls == [] {
      assert [] + [l] == [l] && [l][1..] == [];
    } else {
      assert (ls + [l])[0] == ls[0] && (ls + [l])[1..] == ls[1..] + [l];
      ElapsedSnoc(ls[1..], l);
    }
  }

  /** Reached within that time, with no interval set shorter. */
  ghost predicate ReachedIn(s: State, minutes: nat, nanoseconds: nat) {
    exists ls: seq<Label> :: IsWitness(ls, s, minutes, nanoseconds)
  }

  ghost predicate IsWitness(ls: seq<Label>, s: State, minutes: nat, nanoseconds: nat) {
    Run(Init(0), ls) == s && IntervalsAtLeast(minutes, ls) && Elapsed(ls) <= nanoseconds
  }

  lemma Reach(s: State, l: Label, minutes: nat, nanoseconds: nat) returns (s': State, time: nat)
    requires ReachedIn(s, minutes, nanoseconds) && (l.SetIntervalMinutes? ==> l.minutes >= minutes)
    ensures s' == Step(s, l) && time == nanoseconds + (if l.Tick? then l.elapsed else 0)
    ensures ReachedIn(s', minutes, time)
  {
    var ls: seq<Label> :| IsWitness(ls, s, minutes, nanoseconds);
    RunSnoc(Init(0), ls, l);
    ElapsedSnoc(ls, l);
    s', time := Step(s, l), nanoseconds + if l.Tick? then l.elapsed else 0;
    assert IsWitness(ls + [l], s', minutes, time);
  }

  /** An access that does not end its call, as far as the calls and counters are concerned. */
  lemma ReachAccess(s: State, t: nat, minutes: nat, nanoseconds: nat) returns (s': State)
    requires ReachedIn(s, minutes, nanoseconds) && t in s.threads && s.threads[t].id < |s.begun|
    requires NextPc(s, s.begun[s.threads[t].id], s.threads[t].pc, false).Some?
    ensures ReachedIn(s', minutes, nanoseconds) && s'.clock == s.clock && s'.begun == s.begun
    ensures
      var id, pc := s.threads[t].id, s.threads[t].pc;
      && s'.threads == s.threads[t := Thread(id, NextPc(s, s.begun[id], pc, false).value)]
      && s'.c == NextCounters(s.c, s.begun[id], pc, false)
  {
    var time: nat;
    s', time := Reach(s, Access(t, false), minutes, nanoseconds);
  }

  /** The first four accesses of a call that nobody interrupts. */
  lemma EnterCall(s: State, t: nat, minutes: nat, nanoseconds: nat) returns (s': State)
    requires ReachedIn(s, minutes, nanoseconds)
    requires t in s.threads && s.threads[t] == Thread(s.threads[t].id, ReadClock) && s.threads[t].id < |s.begun|
    ensures ReachedIn(s', minutes, nanoseconds) && s'.clock == s.clock && s'.begun == s.begun
    ensures
      var due := s.clock - s.c.intervalStart >= s.c.intervalMinutes * MINUTE_NS;
      && s'.threads == s.threads[t := Thread(s.threads[t].id, if due then ClearRequests else CountRequest)]
      && s'.c == if due then s.c.(intervalStart := s.clock) else s.c
  {
    s' := ReachAccess(s, t, minutes, nanoseconds);
    s' := ReachAccess(s', t, minutes, nanoseconds);
    s' := ReachAccess(s', t, minutes, nanoseconds);
    s' := ReachAccess(s', t, minutes, nanoseconds);
  }

  /** The four counter increments of a failed call. */
  lemma CountFailure(s: State, t: nat, minutes: nat, nanoseconds: nat) returns (s': State)
    requires ReachedIn(s, minutes, nanoseconds)
    requires t in s.threads && s.threads[t] == Thread(s.threads[t].id, CountRequest)
    requires s.threads[t].id < |s.begun| && s.begun[s.threads[t].id].isError
    ensures ReachedIn(s', minutes, nanoseconds) && s'.clock == s.clock && s'.threads.Keys == s.threads.Keys
    ensures s'.c == s.c.(totalRequests := s.c.totalRequests + 1, requestsInInterval := s.c.requestsInInterval + 1,
                         totalErrors := s.c.totalErrors + 1, errorsInInterval := s.c.errorsInInterval + 1)
  {
    s' := ReachAccess(s, t, minutes, nanoseconds);
    s' := ReachAccess(s', t, minutes, nanoseconds);
    s' := ReachAccess(s', t, minutes, nanoseconds);
    s' := ReachAccess(s', t, minutes, nanoseconds);
  }

  /** One call, failed and counted, in the interval that starts at zero. */
  lemma OneFailure(minutes: nat) returns (s: State)
    requires 1 <= minutes <= 60
    ensures ReachedIn(s, minutes, 0) && s.threads.Keys == {1} && s.clock == 0
    ensures s.c.errorsInInterval == 1 && s.c.intervalStart == 0 && s.c.intervalMinutes == minutes
  {
    s := Init(0);
    assert IsWitness([], s, minutes, 0);
    var time: nat;
    s, time := Reach(s, SetIntervalMinutes(minutes), minutes, 0);
    s, time := Reach(s, Begin(1, Call(5.0, true)), minutes, 0);
    s := EnterCall(s, 1, minutes, 0);
    s := CountFailure(s, 1, minutes, 0);
  }

  /** One interval later the next call starts a reset. */
  lemma ErrorsOvertakeRequestsExample(minutes: nat) returns (s: State)
    requires 1 <= minutes <= 60
    ensures ReachedIn(s, minutes, minutes * MINUTE_NS)
    ensures s.c.errorsInInterval == 1 && s.c.requestsInInterval == 0
  {
    var time: nat;
    s := OneFailure(minutes);
    s, time := Reach(s, Tick(minutes * MINUTE_NS), minutes, 0);
    s, time := Reach(s, Begin(2, Call(5.0, false)), minutes, time);
    s := EnterCall(s, 2, minutes, time);
    s := ReachAccess(s, 2, minutes, time);
  }

  /**
   * Interval errors stay within interval requests in all runs of a given length
   * exactly when that is shorter than every interval in them: no interval is
   * set below so many minutes, of the 60 it starts with.
   */
  lemma ErrorsStayWithinRequestsIff(minutes: nat, nanoseconds: nat)
    requires 1 <= minutes <= 60
    ensures ErrorsStayWithinRequests(minutes, nanoseconds) <==> nanoseconds < minutes * 60_000_000_000
  {
    if nanoseconds < minutes * MINUTE_NS {
      forall clock: int, ls: seq<Label> | IntervalsAtLeast(minutes, ls) && Elapsed(ls) <= nanoseconds
        ensures Run(Init(clock), ls).c.errorsInInterval <= Run(Init(clock), ls).c.requestsInInterval
      {
        InitInv(clock);
        RunWithoutReset(Init(clock), ls, clock, minutes);
      }
    } else {
      var s := ErrorsOvertakeRequestsExample(minutes);
      var ls: seq<Label> :| IsWitness(ls, s, minutes, minutes * MINUTE_NS);
      assert Run(Init(0), ls).c.errorsInInterval > Run(Init(0), ls).c.requestsInInterval;
    }
  }

  // ------------------------------------------------------- One call at a time

  /** No call of the run begins while another is in progress. */
  ghost predicate OneAtATime(s: State, ls: seq<Label>)
    decreases |ls|
  {
    ls != [] ==> (ls[0].Begin? ==> s.threads == map[]) && OneAtATime(Step(s, ls[0]), ls[1..])
  }

  ghost predicate Resetting(s: State) { exists t :: t in s.threads && s.threads[t].pc.ClearErrors? }

  /** Only between the two stores of a reset are there errors without their requests. */
  ghost predicate Alone(s: State) {
    && (forall t, u :: t in s.threads && u in s.threads ==> t == u)
    && (forall t :: t in s.threads ==> CountedHere(s, s.threads[t]))
    && (!Resetting(s) ==> s.erredInInterval <= s.inInterval)
  }

  lemma AccessAlone(s: State, t: nat, spurious: bool)
    requires t in s.threads && s.threads.Keys == {t} && ThreadOk(s, s.threads[t]) && Alone(s)
    ensures Alone(AccessStep(s, t, spurious))
  {
    var s', th := AccessStep(s, t, spurious), s.threads[t];
    assert CountedHere(s, th) && (Resetting(s) <==> th.pc.ClearErrors?);
    if t in s'.threads {
      AccessCountsHere(s, t, spurious);
      assert Resetting(s') <==> s'.threads[t].pc.ClearErrors?;
    }
  }

  /** The effect of the only thread's access on its own counting. */
  lemma AccessCountsHere(s: State, t: nat, spurious: bool)
    requires t in s.threads && ThreadOk(s, s.threads[t]) && CountedHere(s, s.threads[t])
    requires t in AccessStep(s, t, spurious).threads
    ensures CountedHere(AccessStep(s, t, spurious), AccessStep(s, t, spurious).threads[t])
  {
  }

  lemma StepAlone(s: State, l: Label)
    requires Inv(s) && Alone(s) && (l.Begin? ==> s.threads == map[])
    ensures Alone(Step(s, l))
  {
    if l.Access? && l.thread in s.threads {
      assert ThreadOk(s, s.threads[l.thread]);
      assert s.threads.Keys == {l.thread};
      AccessAlone(s, l.thread, l.spurious);
    } else if l.Begin? {
      var s' := Step(s, l);
      assert s'.threads == map[l.thread := Thread(|s.begun|, ReadClock)];
      assert !Resetting(s);
    } else {
      QuietAlone(s, Step(s, l));
    }
  }

  lemma QuietAlone(s: State, s': State)
    requires Alone(s) && s'.threads == s.threads
    requires s'.inInterval == s.inInterval && s'.erredInInterval == s.erredInInterval
    ensures Alone(s')
  {
    assert forall t :: t in s'.threads ==> CountedHere(s, s'.threads[t]);
    if Resetting(s) {
      var t :| t in s.threads && s.threads[t].pc.ClearErrors?;
      assert t in s'.threads && s'.threads[t].pc.ClearErrors?;
    }
  }

  lemma {:induction false} RunAlone(s: State, ls: seq<Label>)
    requires Inv(s) && Alone(s) && OneAtATime(s, ls)
    ensures Inv(Run(s, ls)) && Alone(Run(s, ls))
    decreases |ls|
  {
    if ls != [] {
      StepInv(s, ls[0]);
      StepAlone(s, ls[0]);
      RunAlone(Step(s, ls[0]), ls[1..]);
    }
  }

  /** Without overlapping calls, errors exceed requests only between the two stores of a reset, however long the run. */
  lemma OneAtATimeStaysWithin(clock: int, ls: seq<Label>)
    requires OneAtATime(Init(clock), ls)
    ensures
      var s := Run(Init(clock), ls);
      !Resetting(s) ==> s.c.errorsInInterval <= s.c.requestsInInterval
  {
    InitInv(clock);
    RunAlone(Init(clock), ls);
    var s := Run(Init(clock), ls);
    if !Resetting(s) { SubsetCard(s.erredInInterval, s.inInterval); }
  }

  /** An interval of less than a minute is taken as a minute; the next reset goes by the new one. */
  lemma IntervalsAreClamped(s: State, minutes: int)
    ensures
      var s' := Step(s, SetIntervalMinutes(minutes));
      && s' == s.(c := s.c.(intervalMinutes := s'.c.intervalMinutes))
      && (minutes >= 1 ==> s'.c.intervalMinutes == minutes)
      && (minutes < 1 ==> s'.c.intervalMinutes == 1)
  {
  }
}
