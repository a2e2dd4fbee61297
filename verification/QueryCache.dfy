/**
 * The cache of parsed queries under concurrent execute calls.  A lookup under
 * the shared lock, the parse without a lock, and the insertion under the
 * exclusive lock are steps of their own; any number of calls interleave, and
 * which entry is evicted is arbitrary.  Parsing is a function of the text.
 */
module QueryCache {
  import opened Wrappers

  datatype Outcome<T> = TooLong | ParseError | Executed(tree: T)

  /** What a call does next. */
  datatype Pc<T> = Lookup | Parse | Insert(tree: T) | Execute(tree: T)

  datatype Call<Q, T> = Call(query: Q, pc: Pc<T>)

  datatype Finished<Q, T> = Finished(query: Q, outcome: Outcome<T>)

  datatype State<Q, T> = State(cache: map<Q, T>, calls: map<nat, Call<Q, T>>, finished: seq<Finished<Q, T>>)

  /** A scheduling decision; an insertion into a full cache evicts `victim`. */
  datatype Label<Q> = Begin(call: nat, query: Q) | Advance(call: nat, victim: Q)

  const CACHE_MAX: nat := 512
  const MAX_QUERY_LENGTH: nat := 100_000

  function Init<Q, T>(): State<Q, T> { State(map[], map[], []) }

  /** The result without a cache. */
  function Uncached<Q, T>(parse: Q -> Option<T>, length: Q -> nat, q: Q): Outcome<T> {
    if length(q) > MAX_QUERY_LENGTH then TooLong
    else if parse(q).None? then ParseError
    else Executed(parse(q).value)
  }

  /** The eviction has a victim exactly when the cache is full. */
  predicate Permitted<Q(==), T>(s: State<Q, T>, l: Label<Q>) {
    match l
    case Begin(c, _) => c !in s.calls
    case Advance(c, victim) =>
      && c in s.calls
      && (s.calls[c].pc.Insert? && s.calls[c].query !in s.cache && |s.cache| >= CACHE_MAX ==> victim in s.cache)
  }

  function Inserted<Q, T>(cache: map<Q, T>, q: Q, tree: T, victim: Q): map<Q, T> {
    if q in cache then cache
    else (if |cache| >= CACHE_MAX then cache - {victim} else cache)[q := tree]
  }

  function Finish<Q, T>(s: State<Q, T>, c: nat, q: Q, outcome: Outcome<T>): State<Q, T> {
    s.(calls := s.calls - {c}, finished := s.finished + [Finished(q, outcome)])
  }

  function Step<Q, T>(parse: Q -> Option<T>, length: Q -> nat, s: State<Q, T>, l: Label<Q>): State<Q, T>
    requires Permitted(s, l)
  {
    match l
    case Begin(c, q) =>
      if length(q) > MAX_QUERY_LENGTH then s.(finished := s.finished + [Finished(q, TooLong)])
      else s.(calls := s.calls[c := Call(q, Lookup)])
    case Advance(c, victim) =>
      var q := s.calls[c].query;
      match s.calls[c].pc
      case Lookup => s.(calls := s.calls[c := Call(q, if q in s.cache then Execute(s.cache[q]) else Parse)])
      case Parse =>
        if parse(q).None? then Finish(s, c, q, ParseError)
        else s.(calls := s.calls[c := Call(q, Insert(parse(q).value))])
      case Insert(tree) =>
        s.(cache := Inserted(s.cache, q, tree, victim), calls := s.calls[c := Call(q, Execute(tree))])
      case Execute(tree) => Finish(s, c, q, Executed(tree))
  }

  ghost predicate IsRun<Q, T>(
      parse: Q -> Option<T>, length: Q -> nat, s: State<Q, T>, ls: seq<Label<Q>>, end: State<Q, T>)
    decreases |ls|
  {
    if ls == [] then s == end
    else Permitted(s, ls[0]) && IsRun(parse, length, Step(parse, length, s, ls[0]), ls[1..], end)
  }

  // ------------------------------------------------------------- The invariant

  ghost predicate CacheOk<Q(!new), T(!new)>(parse: Q -> Option<T>, cache: map<Q, T>) {
    |cache| <= CACHE_MAX && forall q :: q in cache ==> parse(q) == Some(cache[q])
  }

  ghost predicate CallOk<Q, T>(parse: Q -> Option<T>, length: Q -> nat, call: Call<Q, T>) {
    && length(call.query) <= MAX_QUERY_LENGTH
    && (call.pc.Insert? || call.pc.Execute? ==> parse(call.query) == Some(call.pc.tree))
  }

  ghost predicate Inv<Q(!new), T(!new)>(parse: Q -> Option<T>, length: Q -> nat, s: State<Q, T>) {
    && CacheOk(parse, s.cache)
    && (forall c :: c in s.calls ==> CallOk(parse, length, s.calls[c]))
    && (forall i :: 0 <= i < |s.finished| ==> s.finished[i].outcome == Uncached(parse, length, s.finished[i].query))
  }

  lemma InsertedSize<Q, T>(cache: map<Q, T>, q: Q, tree: T, victim: Q)
    requires |cache| <= CACHE_MAX && (q !in cache && |cache| == CACHE_MAX ==> victim in cache)
    ensures |Inserted(cache, q, tree, victim)| == if q in cache || |cache| == CACHE_MAX then |cache| else |cache| + 1
  {
    if q !in cache {
      var kept := if |cache| >= CACHE_MAX then cache - {victim} else cache;
      assert (cache - {victim}).Keys == cache.Keys - {victim};
      assert kept[q := tree].Keys == kept.Keys + {q};
    }
  }

  lemma StepInv<Q(!new), T(!new)>(parse: Q -> Option<T>, length: Q -> nat, s: State<Q, T>, l: Label<Q>)
    requires Inv(parse, length, s) && Permitted(s, l)
    ensures Inv(parse, length, Step(parse, length, s, l))
  {
    if l.Advance? {
      assert CallOk(parse, length, s.calls[l.call]);
      var call := s.calls[l.call];
      if call.pc.Insert? { InsertedSize(s.cache, call.query, call.pc.tree, l.victim); }
    }
  }

  lemma {:induction false} RunInv<Q(!new), T(!new)>(
    parse: Q -> Option<T>, length: Q -> nat, s: State<Q, T>, ls: seq<Label<Q>>, end: State<Q, T>)
    requires Inv(parse, length, s) && IsRun(parse, length, s, ls, end)
    ensures Inv(parse, length, end)
    decreases |ls|
  {
    if ls != [] {
      StepInv(parse, length, s, ls[0]);
      RunInv(parse, length, Step(parse, length, s, ls[0]), ls[1..], end);
    }
  }

  /**
   * In every run from an empty cache, the cache maps queries to their own parse,
   * within its bound, and each call ends as it would have without a cache.
   */
  lemma CachedRunsAreUncached<Q(!new), T(!new)>(
    parse: Q -> Option<T>, length: Q -> nat, ls: seq<Label<Q>>, end: State<Q, T>)
    requires IsRun(parse, length, Init<Q, T>(), ls, end)
    ensures |end.cache| <= 512 && forall q :: q in end.cache ==> parse(q) == Some(end.cache[q])
    ensures forall i :: 0 <= i < |end.finished| ==>
      var (q, outcome) := (end.finished[i].query, end.finished[i].outcome);
      && (length(q) > 100_000 ==> outcome == TooLong)
      && (length(q) <= 100_000 && parse(q) == None ==> outcome == ParseError)
      && (length(q) <= 100_000 && parse(q).Some? ==> outcome == Executed(parse(q).value))
  {
    RunInv(parse, length, Init(), ls, end);
  }

  /** An entry is lost only to an eviction from a full cache, which stays full. */
  lemma OnlyEvictionForgets<Q(!new), T(!new)>(
      parse: Q -> Option<T>, length: Q -> nat, s: State<Q, T>, l: Label<Q>, q: Q)
    requires Inv(parse, length, s) && Permitted(s, l) && q in s.cache
    ensures var after := Step(parse, length, s, l).cache;
      if q in after then after[q] == s.cache[q]
      else l.Advance? && l.victim == q && |s.cache| == |after| == CACHE_MAX
  {
    if l.Advance? && s.calls[l.call].pc.Insert? {
      InsertedSize(s.cache, s.calls[l.call].query, s.calls[l.call].pc.tree, l.victim);
    }
  }

  // -------------------------------------------------------------- Termination

  /** How many steps a call still has. */
  function Left<T>(pc: Pc<T>): nat {
    match pc case Lookup => 4 case Parse => 3 case Insert(_) => 2 case Execute(_) => 1
  }

  /** No interference delays a call: each of its steps brings it closer to its end. */
  lemma CallsAreWaitFree<Q, T>(parse: Q -> Option<T>, length: Q -> nat, s: State<Q, T>, l: Label<Q>)
    requires l.Advance? && Permitted(s, l)
    ensures var after := Step(parse, length, s, l);
      && (l.call in after.calls ==> Left(after.calls[l.call].pc) < Left(s.calls[l.call].pc))
      && (l.call !in after.calls ==> |after.finished| == |s.finished| + 1)
      && (forall c :: c in s.calls && c != l.call ==> c in after.calls && after.calls[c] == s.calls[c])
  {
  }
}
