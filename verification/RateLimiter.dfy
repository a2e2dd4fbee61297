/**
 * The token-bucket rate limiter: one bucket per client address, refilled in
 * proportion to the time passed.  Time is in seconds; amounts are reals.
 */
module RateLimiter {

  /** A bucket between calls. */
  datatype Bucket = Bucket(tokens: real, capacity: real, lastRefill: real)

  function Min(a: real, b: real): real { if a <= b then a else b }

  function Full(maxPerMinute: int, now: real): Bucket {
    Bucket(maxPerMinute as real, maxPerMinute as real, now)
  }

  /** Tokens flow in at capacity / 60 a second. */
  function Inflow(capacity: real, seconds: real): real { seconds * (capacity / 60.0) }

  /** The tokens left and the answer when `flow` tokens have come in. */
  function Take(tokens: real, capacity: real, flow: real): (real, bool) {
    var filled := Min(capacity, tokens + flow);
    if filled >= 1.0 then (filled - 1.0, true) else (filled, false)
  }

  /** Refill, then take a token if there is a whole one. */
  function Consume(b: Bucket, now: real): (Bucket, bool) {
    var (tokens, allowed) := Take(b.tokens, b.capacity, Inflow(b.capacity, now - b.lastRefill));
    (Bucket(tokens, b.capacity, now), allowed)
  }

  class TokenBucket {
    var tokens: real
    var capacity: real
    var lastRefill: real

    constructor (maxPerMinute: int, now: real)
      ensures View() == Full(maxPerMinute, now)
    {
      tokens, capacity, lastRefill := maxPerMinute as real, maxPerMinute as real, now;
    }

    function View(): Bucket
      reads this
    {
      Bucket(tokens, capacity, lastRefill)
    }

    method TryConsume(now: real) returns (allowed: bool)
      modifies this
      ensures (View(), allowed) == Consume(old(View()), now)
    {
      var elapsed := now - lastRefill;
      lastRefill := now;
      tokens := Min(capacity, tokens + Inflow(capacity, elapsed));
      if tokens >= 1.0 {
        tokens := tokens - 1.0;
        return true;
      }
      allowed := false;
    }
  }

  // ------------------------------------------------------ All clients together

  datatype Call = Call(ip: string, max: int, now: real)

  type Buckets = map<string, Bucket>

  /** The first call of an address creates its bucket, full; later limits are ignored. */
  function BucketFor(bs: Buckets, call: Call): Bucket {
    if call.ip in bs then bs[call.ip] else Full(call.max, call.now)
  }

  function Allow(bs: Buckets, call: Call): (Buckets, bool) {
    var (b, allowed) := Consume(BucketFor(bs, call), call.now);
    (bs[call.ip := b], allowed)
  }

  class Limiter {
    var buckets: map<string, TokenBucket>

    constructor ()
      ensures Valid() && View() == map[]
    {
      buckets := map[];
    }

    /** No two addresses share a bucket. */
    ghost predicate Valid()
      reads this
    {
      forall a, b :: a in buckets && b in buckets && a != b ==> buckets[a] != buckets[b]
    }

    ghost function View(): Buckets
      reads this, buckets.Values
    {
      map ip | ip in buckets :: buckets[ip].View()
    }

    method AllowCall(ip: string, maxPerMinute: int, now: real) returns (allowed: bool)
      requires Valid()
      modifies this, buckets.Values
      ensures Valid() && (View(), allowed) == Allow(old(View()), Call(ip, maxPerMinute, now))
      ensures fresh(buckets.Values - old(buckets.Values))
    {
      ghost var before := View();
      if ip !in buckets {
        var b := new TokenBucket(maxPerMinute, now);
        buckets := buckets[ip := b];
      }
      var bucket := buckets[ip];
      allowed := bucket.TryConsume(now);
      assert View() == Allow(before, Call(ip, maxPerMinute, now)).0;
    }
  }

  /** The answers to a run of calls. */
  function Answers(bs: Buckets, calls: seq<Call>): (r: seq<bool>)
    ensures |r| == |calls|
    decreases |calls|
  {
    if calls == [] then []
    else
      var (bs', allowed) := Allow(bs, calls[0]);
      [allowed] + Answers(bs', calls[1..])
  }

  // ---------------------------------------------------- Buckets are independent

  function Only(ip: string, calls: seq<Call>): seq<Call> {
    if calls == [] then []
    else if calls[0].ip == ip then [calls[0]] + Only(ip, calls[1..])
    else Only(ip, calls[1..])
  }

  function AnswersTo(ip: string, calls: seq<Call>, answers: seq<bool>): seq<bool>
    requires |answers| == |calls|
  {
    if calls == [] then []
    else if calls[0].ip == ip then [answers[0]] + AnswersTo(ip, calls[1..], answers[1..])
    else AnswersTo(ip, calls[1..], answers[1..])
  }

  ghost predicate SameBucket(ip: string, a: Buckets, b: Buckets) {
    && (ip in a <==> ip in b)
    && (ip in a ==> a[ip] == b[ip])
  }

  /** An address gets the answers it would get if it were the only client. */
  lemma {:induction false} OthersDoNotMatter(ip: string, bs: Buckets, alone: Buckets, calls: seq<Call>)
    requires SameBucket(ip, bs, alone)
    ensures AnswersTo(ip, calls, Answers(bs, calls)) == Answers(alone, Only(ip, calls))
    decreases |calls|
  {
    if calls != [] {
      var bs' := Allow(bs, calls[0]).0;
      assert Answers(bs, calls)[1..] == Answers(bs', calls[1..]);
      if calls[0].ip == ip {
        var (alone', allowed) := Allow(alone, calls[0]);
        assert ([calls[0]] + Only(ip, calls[1..]))[1..] == Only(ip, calls[1..]);
        OthersDoNotMatter(ip, bs', alone', calls[1..]);
      } else {
        OthersDoNotMatter(ip, bs', alone, calls[1..]);
      }
    }
  }

  // -------------------------------------------- One bucket and what flows in

  function Taken(allowed: bool): nat { if allowed then 1 else 0 }

  function Count(answers: seq<bool>): nat {
    if answers == [] then 0 else Taken(answers[0]) + Count(answers[1..])
  }

  function Sum(flows: seq<real>): real { if flows == [] then 0.0 else flows[0] + Sum(flows[1..]) }

  /** The answers when that much has flowed in before each call. */
  function Serve(tokens: real, capacity: real, flows: seq<real>): (r: seq<bool>)
    ensures |r| == |flows|
    decreases |flows|
  {
    if flows == [] then []
    else
      var (tokens', allowed) := Take(tokens, capacity, flows[0]);
      [allowed] + Serve(tokens', capacity, flows[1..])
  }

  ghost predicate NonNegative(flows: seq<real>) { forall i :: 0 <= i < |flows| ==> flows[i] >= 0.0 }

  /** Whatever is let through is covered by the tokens there were and what flowed in. */
  lemma {:induction false} TokensCoverTheAllowed(tokens: real, capacity: real, flows: seq<real>)
    requires 0.0 <= tokens && NonNegative(flows) && capacity >= 0.0
    ensures Count(Serve(tokens, capacity, flows)) as real <= tokens + Sum(flows)
    decreases |flows|
  {
    if flows != [] {
      var (tokens', allowed) := Take(tokens, capacity, flows[0]);
      assert tokens' + Taken(allowed) as real <= tokens + flows[0];
      TokensCoverTheAllowed(tokens', capacity, flows[1..]);
      assert Serve(tokens, capacity, flows)[1..] == Serve(tokens', capacity, flows[1..]);
    }
  }

  /** Counted from the first call on, at most a full bucket and what flows in afterwards. */
  lemma CapacityCoversTheAllowed(tokens: real, capacity: real, flows: seq<real>)
    requires 0.0 <= tokens && flows != [] && NonNegative(flows) && capacity >= 0.0
    ensures Count(Serve(tokens, capacity, flows)) as real <= capacity + Sum(flows[1..])
  {
    var (tokens', allowed) := Take(tokens, capacity, flows[0]);
    assert tokens' + Taken(allowed) as real <= capacity;
    TokensCoverTheAllowed(tokens', capacity, flows[1..]);
    assert Serve(tokens, capacity, flows)[1..] == Serve(tokens', capacity, flows[1..]);
  }

  lemma {:induction false} NegativeLimitsAllowNothing(tokens: real, capacity: real, flows: seq<real>)
    requires capacity < 1.0
    ensures Count(Serve(tokens, capacity, flows)) == 0
    decreases |flows|
  {
    if flows != [] {
      var tokens' := Take(tokens, capacity, flows[0]).0;
      NegativeLimitsAllowNothing(tokens', capacity, flows[1..]);
      assert Serve(tokens, capacity, flows)[1..] == Serve(tokens', capacity, flows[1..]);
    }
  }

  // --------------------------------------------------------- Flows from times

  lemma InflowAdds(capacity: real, a: real, b: real)
    ensures Inflow(capacity, a) + Inflow(capacity, b) == Inflow(capacity, a + b)
  {
    var rate := capacity / 60.0;
    assert a * rate + b * rate == (a + b) * rate;
  }

  lemma InflowNonNegative(capacity: real, seconds: real)
    requires capacity >= 0.0 && seconds >= 0.0
    ensures Inflow(capacity, seconds) >= 0.0
  {
  }

  /** What flows in before each call of one address, the first since time `last`. */
  function Flows(capacity: real, last: real, calls: seq<Call>): (r: seq<real>)
    ensures |r| == |calls|
    decreases |calls|
  {
    if calls == [] then []
    else [Inflow(capacity, calls[0].now - last)] + Flows(capacity, calls[0].now, calls[1..])
  }

  ghost predicate Monotone(last: real, calls: seq<Call>, end: real)
    decreases |calls|
  {
    if calls == [] then last <= end else last <= calls[0].now && Monotone(calls[0].now, calls[1..], end)
  }

  lemma {:induction false} MonotoneOnly(ip: string, last: real, calls: seq<Call>, end: real)
    requires Monotone(last, calls, end)
    ensures last <= end && Monotone(last, Only(ip, calls), end)
    decreases |calls|
  {
    if calls != [] {
      MonotoneOnly(ip, calls[0].now, calls[1..], end);
      if calls[0].ip != ip { MonotoneSooner(last, calls[0].now, Only(ip, calls[1..]), end); }
    }
  }

  lemma MonotoneSooner(sooner: real, last: real, calls: seq<Call>, end: real)
    requires sooner <= last && Monotone(last, calls, end)
    ensures Monotone(sooner, calls, end)
  {
  }

  lemma {:induction false} FlowsAddUp(capacity: real, last: real, calls: seq<Call>, end: real)
    requires capacity >= 0.0 && Monotone(last, calls, end)
    ensures NonNegative(Flows(capacity, last, calls))
    ensures Sum(Flows(capacity, last, calls)) <= Inflow(capacity, end - last)
    decreases |calls|
  {
    if calls == [] {
      InflowNonNegative(capacity, end - last);
    } else {
      var now := calls[0].now;
      var flows, rest := Flows(capacity, last, calls), Flows(capacity, now, calls[1..]);
      assert flows[1..] == rest;
      FlowsAddUp(capacity, now, calls[1..], end);
      MonotoneOnly("", now, calls[1..], end);
      InflowNonNegative(capacity, now - last);
      InflowAdds(capacity, now - last, end - now);
      assert (now - last) + (end - now) == end - last;
      forall i | 0 <= i < |flows| ensures flows[i] >= 0.0 {
        if i > 0 { assert flows[i] == rest[i - 1]; }
      }
    }
  }

  /** Calls of a single address are served by its bucket. */
  lemma {:induction false} AnswersAreServed(ip: string, bs: Buckets, calls: seq<Call>)
    requires forall i :: 0 <= i < |calls| ==> calls[i].ip == ip
    requires ip in bs
    ensures Answers(bs, calls)
         == Serve(bs[ip].tokens, bs[ip].capacity, Flows(bs[ip].capacity, bs[ip].lastRefill, calls))
    decreases |calls|
  {
    if calls != [] {
      var b := bs[ip];
      var bs' := Allow(bs, calls[0]).0;
      var flows := Flows(b.capacity, b.lastRefill, calls);
      assert flows[0] == Inflow(b.capacity, calls[0].now - b.lastRefill);
      assert flows[1..] == Flows(b.capacity, calls[0].now, calls[1..]);
      AnswersAreServed(ip, bs', calls[1..]);
      assert bs'[ip] == Consume(b, calls[0].now).0;
    }
  }

  // --------------------------------------------------- The bound for a window

  /** A bucket left behind by earlier calls. */
  ghost predicate InUse(b: Bucket, now: real) {
    b.lastRefill <= now && (b.capacity >= 0.0 ==> b.tokens >= 0.0)
  }

  ghost predicate AllInUse(bs: Buckets, now: real) { forall ip :: ip in bs ==> InUse(bs[ip], now) }

  function After(bs: Buckets, calls: seq<Call>): Buckets
    decreases |calls|
  {
    if calls == [] then bs else After(Allow(bs, calls[0]).0, calls[1..])
  }

  lemma ConsumeKeepsInUse(b: Bucket, now: real)
    requires InUse(b, now)
    ensures InUse(Consume(b, now).0, now)
  {
    if b.capacity >= 0.0 {
      InflowNonNegative(b.capacity, now - b.lastRefill);
    }
  }

  lemma {:induction false} AfterInUse(bs: Buckets, last: real, calls: seq<Call>, end: real)
    requires Monotone(last, calls, end) && AllInUse(bs, last)
    ensures AllInUse(After(bs, calls), end)
    decreases |calls|
  {
    if calls != [] {
      var call := calls[0];
      ConsumeKeepsInUse(BucketFor(bs, call), call.now);
      assert AllInUse(Allow(bs, call).0, call.now);
      AfterInUse(Allow(bs, call).0, call.now, calls[1..], end);
    }
  }

  /** How many calls of the address are let through. */
  function Allowed(ip: string, bs: Buckets, calls: seq<Call>): nat {
    Count(AnswersTo(ip, calls, Answers(bs, calls)))
  }

  /** The limit in force for an address: its bucket's, or that of the first call creating it. */
  function Limit(ip: string, bs: Buckets, calls: seq<Call>): real {
    if ip in bs then bs[ip].capacity
    else if Only(ip, calls) == [] then 0.0
    else Only(ip, calls)[0].max as real
  }

  function Positive(x: real): real { if x >= 0.0 then x else 0.0 }

  lemma {:induction false} OnlyOwnCalls(ip: string, calls: seq<Call>)
    ensures forall i :: 0 <= i < |Only(ip, calls)| ==> Only(ip, calls)[i].ip == ip
  {
    if calls != [] { OnlyOwnCalls(ip, calls[1..]); }
  }

  /** A new address is served like one whose bucket is full as of its first call. */
  lemma FirstCallFindsFull(ip: string, bs: Buckets, calls: seq<Call>)
    requires ip !in bs && calls != [] && calls[0].ip == ip
    ensures Answers(bs, calls) == Answers(bs[ip := Full(calls[0].max, calls[0].now)], calls)
  {
    var full := bs[ip := Full(calls[0].max, calls[0].now)];
    assert Allow(bs, calls[0]).0 == Allow(full, calls[0]).0;
  }

  lemma ServedWindow(ip: string, bs: Buckets, own: seq<Call>, start: real, end: real)
    requires ip in bs && InUse(bs[ip], start) && Monotone(start, own, end)
    requires forall i :: 0 <= i < |own| ==> own[i].ip == ip
    ensures Count(Answers(bs, own)) as real
         <= Positive(bs[ip].capacity) + Inflow(Positive(bs[ip].capacity), end - start)
  {
    var b := bs[ip];
    AnswersAreServed(ip, bs, own);
    var flows := Flows(b.capacity, b.lastRefill, own);
    MonotoneOnly(ip, start, own, end);
    InflowNonNegative(Positive(b.capacity), end - start);
    if b.capacity < 0.0 {
      NegativeLimitsAllowNothing(b.tokens, b.capacity, flows);
    } else if own != [] {
      var now := own[0].now;
      MonotoneSooner(b.lastRefill, start, own, end);
      FlowsAddUp(b.capacity, b.lastRefill, own, end);
      CapacityCoversTheAllowed(b.tokens, b.capacity, flows);
      assert flows[1..] == Flows(b.capacity, now, own[1..]);
      FlowsAddUp(b.capacity, now, own[1..], end);
      InflowNonNegative(b.capacity, now - start);
      InflowAdds(b.capacity, now - start, end - now);
      assert (now - start) + (end - now) == end - start;
    }
  }

  /**
   * In any window of T seconds at most limit + T * limit / 60 calls of an
   * address are let through, whatever came before and whoever else calls.
   */
  lemma EveryWindowIsBounded(ip: string, origin: real, before: seq<Call>, start: real, window: seq<Call>, end: real)
    requires Monotone(origin, before, start) && Monotone(start, window, end)
    ensures
      var bs := After(map[], before);
      var limit := Positive(Limit(ip, bs, window));
      Allowed(ip, bs, window) as real <= limit + Inflow(limit, end - start)
  {
    var bs := After(map[], before);
    var own := Only(ip, window);
    AfterInUse(map[], origin, before, start);
    OthersDoNotMatter(ip, bs, bs, window);
    MonotoneOnly(ip, start, window, end);
    OnlyOwnCalls(ip, window);
    var limit := Positive(Limit(ip, bs, window));
    if ip in bs {
      ServedWindow(ip, bs, own, start, end);
    } else if own == [] {
      InflowNonNegative(limit, end - start);
    } else {
      var full := bs[ip := Full(own[0].max, own[0].now)];
      FirstCallFindsFull(ip, bs, own);
      ServedWindow(ip, full, own, own[0].now, end);
      InflowNonNegative(limit, own[0].now - start);
      InflowAdds(limit, own[0].now - start, end - own[0].now);
    }
  }

  // ----------------------------------------------- Patient clients get through

  lemma OneTokenFlowsIn(capacity: real, seconds: real)
    requires capacity > 0.0 && seconds >= 60.0 / capacity
    ensures Inflow(capacity, seconds) >= 1.0
  {
    var rate, gap := capacity / 60.0, 60.0 / capacity;
    assert gap * rate == 1.0;
    assert seconds * rate >= gap * rate;
  }

  lemma {:induction false} OneTokenEach(tokens: real, capacity: real, flows: seq<real>)
    requires tokens >= 0.0 && capacity >= 1.0
    requires forall i :: 0 <= i < |flows| ==> flows[i] >= 1.0
    ensures forall i :: 0 <= i < |flows| ==> Serve(tokens, capacity, flows)[i]
    decreases |flows|
  {
    if flows != [] {
      var tokens' := Take(tokens, capacity, flows[0]).0;
      OneTokenEach(tokens', capacity, flows[1..]);
    }
  }

  /** At least `gap` seconds lie between consecutive calls. */
  ghost predicate Spaced(last: real, calls: seq<Call>, gap: real)
    decreases |calls|
  {
    calls == [] || (calls[0].now >= last + gap && Spaced(calls[0].now, calls[1..], gap))
  }

  lemma {:induction false} SpacedFlows(capacity: real, last: real, calls: seq<Call>)
    requires capacity > 0.0 && Spaced(last, calls, 60.0 / capacity)
    ensures forall i :: 0 <= i < |calls| ==> Flows(capacity, last, calls)[i] >= 1.0
    decreases |calls|
  {
    if calls != [] {
      OneTokenFlowsIn(capacity, calls[0].now - last);
      SpacedFlows(capacity, calls[0].now, calls[1..]);
    }
  }

  lemma PatientAloneGetsThrough(ip: string, max: int, calls: seq<Call>)
    requires max >= 1 && calls != [] && calls[0].max == max
    requires forall i :: 0 <= i < |calls| ==> calls[i].ip == ip
    requires Spaced(calls[0].now, calls[1..], 60.0 / (max as real))
    ensures forall i :: 0 <= i < |calls| ==> Answers(map[], calls)[i]
  {
    var (bs, allowed) := Allow(map[], calls[0]);
    var b := bs[ip];
    assert allowed && b == Bucket(max as real - 1.0, max as real, calls[0].now);
    assert forall i :: 0 <= i < |calls[1..]| ==> calls[1..][i] == calls[i + 1];
    AnswersAreServed(ip, bs, calls[1..]);
    SpacedFlows(b.capacity, b.lastRefill, calls[1..]);
    OneTokenEach(b.tokens, b.capacity, Flows(b.capacity, b.lastRefill, calls[1..]));
  }

  /**
   * A client that waits 60 / limit seconds between its calls is never refused,
   * from its first call on and whatever the other clients do.
   */
  lemma PatientClientsGetThrough(ip: string, max: int, calls: seq<Call>)
    requires max >= 1 && Only(ip, calls) != [] && Only(ip, calls)[0].max == max
    requires Spaced(Only(ip, calls)[0].now, Only(ip, calls)[1..], 60.0 / (max as real))
    ensures forall answer :: answer in AnswersTo(ip, calls, Answers(map[], calls)) ==> answer
  {
    OnlyOwnCalls(ip, calls);
    OthersDoNotMatter(ip, map[], map[], calls);
    PatientAloneGetsThrough(ip, max, Only(ip, calls));
  }

  // ------------------------------------------- When the documented limit holds

  /** The promise of the header, for windows of so many seconds: never more than max calls let through. */
  ghost predicate KeepsDocumentedLimit(max: nat, seconds: real) {
    forall ip: string, origin: real, before: seq<Call>, start: real, window: seq<Call>, end: real ::
      Monotone(origin, before, start) && Monotone(start, window, end) && end - start <= seconds
      && Limit(ip, After(map[], before), window) == max as real
      ==> Allowed(ip, After(map[], before), window) <= max
  }

  /** That many calls of one address at once. */
  function Burst(n: nat, max: nat, last: Call): seq<Call> {
    if n == 0 then [last] else [Call("a", max, 0.0)] + Burst(n - 1, max, last)
  }

  lemma {:induction false} BurstFlows(n: nat, max: nat, last: Call)
    requires last.now >= 0.0
    ensures Monotone(0.0, Burst(n, max, last), last.now)
    ensures forall c :: c in Burst(n, max, last) ==> c.ip == "a" || c == last
    ensures |Burst(n, max, last)| == n + 1
  {
    if n > 0 {
      BurstFlows(n - 1, max, last);
      assert Burst(n, max, last)[1..] == Burst(n - 1, max, last);
    }
  }

  /** A bucket with n tokens lets a burst of n calls and one more a token's time later through. */
  lemma {:induction false} BurstServed(n: nat, max: nat, last: Call)
    requires 0 < max && n <= max && last.now == 60.0 / (max as real)
    ensures
      Count(Serve(n as real, max as real, Flows(max as real, 0.0, Burst(n, max, last)))) == n + 1
    decreases n
  {
    var cap := max as real;
    var flows := Flows(cap, 0.0, Burst(n, max, last));
    if n == 0 {
      OneTokenFlowsIn(cap, last.now);
      assert Burst(0, max, last)[1..] == [];
      assert flows == [Inflow(cap, last.now - 0.0)] + [];
      assert Take(0.0, cap, flows[0]).1;
      assert Serve(0.0, cap, flows) == [true] + [];
    } else {
      assert Burst(n, max, last)[1..] == Burst(n - 1, max, last);
      assert flows[0] == Inflow(cap, 0.0) == 0.0 && flows[1..] == Flows(cap, 0.0, Burst(n - 1, max, last));
      assert Take(n as real, cap, 0.0) == ((n - 1) as real, true);
      BurstServed(n - 1, max, last);
      assert Serve(n as real, cap, flows)[1..] == Serve((n - 1) as real, cap, flows[1..]);
    }
  }

  lemma {:induction false} OnlyAll(ip: string, calls: seq<Call>)
    requires forall c :: c in calls ==> c.ip == ip
    ensures Only(ip, calls) == calls
  {
    if calls != [] { OnlyAll(ip, calls[1..]); }
  }

  lemma GapPositive(max: nat)
    requires max >= 1
    ensures 0.0 < 60.0 / (max as real) <= 60.0
  {
    var gap := 60.0 / (max as real);
    assert gap * (max as real) == 60.0;
  }

  /** More than max calls get through within 60 / max seconds: a full bucket and one token. */
  lemma BurstExceedsLimit(max: nat)
    requires max >= 1
    ensures
      var gap := 60.0 / (max as real);
      var calls := Burst(max, max, Call("a", max, gap));
      && Monotone(0.0, calls, gap) && Only("a", calls) == calls && calls != [] && calls[0].max == max
      && Allowed("a", map[], calls) == max + 1
  {
    var last := Call("a", max, 60.0 / (max as real));
    var calls := Burst(max, max, last);
    var full: Buckets := map[]["a" := Full(max, 0.0)];
    GapPositive(max);
    BurstFlows(max, max, last);
    OnlyAll("a", calls);
    OthersDoNotMatter("a", map[], map[], calls);
    FirstCallFindsFull("a", map[], calls);
    AnswersAreServed("a", full, calls);
    BurstServed(max, max, last);
  }

  lemma FlowBelowOne(limit: real, seconds: real, most: real)
    requires limit >= 1.0 && 0.0 <= seconds <= most < 60.0 / limit
    ensures Inflow(limit, seconds) < 1.0
  {
    var rate, gap := limit / 60.0, 60.0 / limit;
    assert gap * rate == 1.0;
    assert seconds * rate < gap * rate;
  }

  /**
   * The documented limit of max calls per window holds for every run exactly
   * for windows shorter than the time one token takes; in particular not for
   * the 60 seconds the header speaks of.
   */
  lemma DocumentedLimitHoldsIff(max: nat, seconds: real)
    requires max >= 1
    ensures KeepsDocumentedLimit(max, seconds) <==> seconds < 60.0 / (max as real)
  {
    var gap := 60.0 / (max as real);
    if seconds < gap {
      forall ip: string, origin: real, before: seq<Call>, start: real, window: seq<Call>, end: real
        | Monotone(origin, before, start) && Monotone(start, window, end) && end - start <= seconds
          && Limit(ip, After(map[], before), window) == max as real
        ensures Allowed(ip, After(map[], before), window) <= max
      {
        EveryWindowIsBounded(ip, origin, before, start, window, end);
        MonotoneOnly(ip, start, window, end);
        FlowBelowOne(max as real, end - start, seconds);
      }
    } else {
      GapPositive(max);
      BurstExceedsLimit(max);
      var calls := Burst(max, max, Call("a", max, gap));
      assert After(map[], []) == map[] && Monotone(0.0, [], 0.0);
      assert Limit("a", After(map[], []), calls) == max as real;
      assert Allowed("a", After(map[], []), calls) > max;
    }
  }

  /** Within a minute the documented limit is exceeded, whatever it is. */
  lemma SixtySecondsAreTooLong(max: nat)
    requires max >= 1
    ensures !KeepsDocumentedLimit(max, 60.0)
  {
    DocumentedLimitHoldsIff(max, 60.0);
    GapPositive(max);
  }

  // ------------------------------------------------ The maximum of later calls

  /** The address of call i has a bucket by then. */
  ghost predicate Known(bs: Buckets, calls: seq<Call>, i: nat)
    requires i < |calls|
  {
    calls[i].ip in bs || exists k :: 0 <= k < i && calls[k].ip == calls[i].ip
  }

  /** The same calls, except for the maximum of calls whose address already has a bucket. */
  ghost predicate SameButLaterMaxima(bs: Buckets, a: seq<Call>, b: seq<Call>) {
    && |a| == |b|
    && forall i :: 0 <= i < |a| ==>
         a[i].ip == b[i].ip && a[i].now == b[i].now && (Known(bs, a, i) || a[i].max == b[i].max)
  }

  /** The maximum given for an address that has a bucket makes no difference, to any answer. */
  lemma {:induction false} LaterMaximaAreIgnored(bs: Buckets, a: seq<Call>, b: seq<Call>)
    requires SameButLaterMaxima(bs, a, b)
    ensures Answers(bs, a) == Answers(bs, b) && After(bs, a) == After(bs, b)
    decreases |a|
  {
    if a != [] {
      assert Known(bs, a, 0) <==> a[0].ip in bs;
      var bs' := Allow(bs, a[0]).0;
      assert bs' == Allow(bs, b[0]).0;
      forall i | 0 <= i < |a[1..]| ensures Known(bs', a[1..], i) || a[1..][i].max == b[1..][i].max {
        assert a[1..][i] == a[i + 1] && b[1..][i] == b[i + 1];
        if Known(bs, a, i + 1) && a[i + 1].ip !in bs' {
          var k :| 0 <= k < i + 1 && a[k].ip == a[i + 1].ip;
          assert a[1..][k - 1] == a[k];
        }
      }
      LaterMaximaAreIgnored(bs', a[1..], b[1..]);
    }
  }

  /**
   * What a later maximum would promise, were it not ignored: once an address
   * has called with the first maximum, at most later + T * later / 60 of its
   * calls with the later one are let through in any T seconds.
   */
  ghost predicate RespectsLaterMaximum(first: nat, later: nat) {
    forall ip: string, origin: real, before: seq<Call>, start: real, window: seq<Call>, end: real ::
      Monotone(origin, before, start) && Monotone(start, window, end)
      && Only(ip, before) != [] && Only(ip, before)[0].max == first
      && (forall c :: c in Only(ip, window) ==> c.max == later)
      ==> Allowed(ip, After(map[], before), window) as real <= later as real + Inflow(later as real, end - start)
  }

  /** Calls of one address at one moment. */
  function Rush(n: nat, max: nat, now: real): seq<Call> {
    if n == 0 then [] else [Call("a", max, now)] + Rush(n - 1, max, now)
  }

  lemma {:induction false} RushServed(n: nat, capacity: nat, max: nat, now: real)
    requires n <= capacity
    ensures Count(Serve(n as real, capacity as real, Flows(capacity as real, now, Rush(n, max, now)))) == n
    ensures Monotone(now, Rush(n, max, now), now) && forall c :: c in Rush(n, max, now) ==> c.ip == "a" && c.max == max
    decreases n
  {
    if n > 0 {
      var cap, calls := capacity as real, Rush(n, max, now);
      assert calls[0].now == now && calls[1..] == Rush(n - 1, max, now);
      assert Inflow(cap, now - now) == 0.0 && Take(n as real, cap, 0.0) == ((n - 1) as real, true);
      RushServed(n - 1, capacity, max, now);
      var flows := Flows(cap, now, calls);
      assert flows[0] == 0.0 && flows[1..] == Flows(cap, now, Rush(n - 1, max, now));
      assert Serve(n as real, cap, flows)[1..] == Serve((n - 1) as real, cap, flows[1..]);
    }
  }

  /** A bucket keeps the capacity of the call that created it. */
  lemma {:induction false} CapacityIsTheFirst(ip: string, bs: Buckets, calls: seq<Call>)
    requires ip in bs || Only(ip, calls) != []
    ensures ip in After(bs, calls)
    ensures After(bs, calls)[ip].capacity == if ip in bs then bs[ip].capacity else Only(ip, calls)[0].max as real
    decreases |calls|
  {
    if calls != [] { CapacityIsTheFirst(ip, Allow(bs, calls[0]).0, calls[1..]); }
  }

  lemma InflowMonotone(a: real, b: real, seconds: real)
    requires a <= b && seconds >= 0.0
    ensures Inflow(a, seconds) <= Inflow(b, seconds)
  {
    assert seconds * (b / 60.0) - seconds * (a / 60.0) == seconds * ((b - a) / 60.0) >= 0.0;
  }

  lemma AfterOpening(opening: Call)
    requires opening.max >= 1
    ensures
      var bs := After(map[], [opening]);
      opening.ip in bs && bs[opening.ip] == Bucket(opening.max as real - 1.0, opening.max as real, opening.now)
  {
    var none: Buckets := map[];
    var cap := opening.max as real;
    assert Inflow(cap, opening.now - opening.now) == 0.0;
    assert Take(cap, cap, 0.0) == (cap - 1.0, true);
    assert [opening][1..] == [];
    assert After(none, [opening]) == After(Allow(none, opening).0, []);
  }

  /** One token short but refilled for a minute, a bucket serves a rush like a full one. */
  lemma RefilledServesAll(n: nat, later: nat)
    requires n >= 1
    ensures Count(Serve(n as real - 1.0, n as real, Flows(n as real, 0.0, Rush(n, later, 60.0)))) == n
  {
    var cap, rush := n as real, Rush(n, later, 60.0);
    RushServed(n, n, later, 60.0);
    var late, soon := Flows(cap, 0.0, rush), Flows(cap, 60.0, rush);
    assert Inflow(cap, 60.0 - 0.0) == cap && Inflow(cap, 60.0 - 60.0) == 0.0;
    assert late[0] == cap && soon[0] == 0.0 && late[1..] == soon[1..];
    assert Take(cap - 1.0, cap, cap) == Take(cap, cap, 0.0);
  }

  lemma OwnCallsServed(ip: string, bs: Buckets, calls: seq<Call>)
    requires ip in bs && forall c :: c in calls ==> c.ip == ip
    ensures Allowed(ip, bs, calls)
         == Count(Serve(bs[ip].tokens, bs[ip].capacity, Flows(bs[ip].capacity, bs[ip].lastRefill, calls)))
  {
    OnlyAll(ip, calls);
    OthersDoNotMatter(ip, bs, bs, calls);
    AnswersAreServed(ip, bs, calls);
  }

  /** A minute after its first call, an address gets a whole rush through, whatever maximum it gives. */
  lemma RushAfterAMinute(first: nat, later: nat)
    requires first >= 1
    ensures
      var bs := After(map[], [Call("a", first, 0.0)]);
      Allowed("a", bs, Rush(first, later, 60.0)) == first
  {
    var rush, bs := Rush(first, later, 60.0), After(map[], [Call("a", first, 0.0)]);
    AfterOpening(Call("a", first, 0.0));
    RushServed(first, first, later, 60.0);
    OwnCallsServed("a", bs, rush);
    RefilledServesAll(first, later);
    var cap := first as real;
    assert bs["a"] == Bucket(cap - 1.0, cap, 0.0);
  }

  /** A later maximum is respected in every run exactly when it is at least the first. */
  lemma LaterMaximumRespectedIff(first: nat, later: nat)
    ensures RespectsLaterMaximum(first, later) <==> first <= later
  {
    if first <= later {
      forall ip: string, origin: real, before: seq<Call>, start: real, window: seq<Call>, end: real
        | Monotone(origin, before, start) && Monotone(start, window, end)
          && Only(ip, before) != [] && Only(ip, before)[0].max == first
        ensures Allowed(ip, After(map[], before), window) as real <= later as real + Inflow(later as real, end - start)
      {
        CapacityIsTheFirst(ip, map[], before);
        EveryWindowIsBounded(ip, origin, before, start, window, end);
        MonotoneOnly(ip, start, window, end);
        InflowMonotone(first as real, later as real, end - start);
      }
    } else {
      var opening, rush := Call("a", first, 0.0), Rush(first, later, 60.0);
      RushAfterAMinute(first, later);
      RushServed(first, first, later, 60.0);
      OnlyAll("a", rush);
      assert [opening][1..] == [] && Only("a", [opening]) == [opening];
      assert Monotone(0.0, [opening], 60.0) && Monotone(60.0, rush, 60.0);
      assert Inflow(later as real, 60.0 - 60.0) == 0.0;
      assert Allowed("a", After(map[], [opening]), rush) as real > later as real + Inflow(later as real, 60.0 - 60.0);
    }
  }

  // -------------------------------------------------- Refusals leave no trace

  /** A refused call changes no answer of a later one, nor the bucket it leaves. */
  lemma RefusalLeavesNoTrace(b: Bucket, at: real, later: real)
    requires b.capacity >= 0.0 && b.lastRefill <= at <= later && !Consume(b, at).1
    ensures Consume(Consume(b, at).0, later) == Consume(b, later)
  {
    InflowAdds(b.capacity, at - b.lastRefill, later - at);
    InflowNonNegative(b.capacity, at - b.lastRefill);
    InflowNonNegative(b.capacity, later - at);
    assert (at - b.lastRefill) + (later - at) == later - b.lastRefill;
  }
}
