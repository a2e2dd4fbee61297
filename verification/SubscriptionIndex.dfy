/**
 * The bookkeeping of the subscription broker on plain values: a dense vector
 * of records in which removal moves the last record into the gap, and two
 * secondary indices from a key to record positions.
 *
 * The reference is the plain list of live subscriptions in the order they were
 * made; every index bucket must pick out of the vector exactly the live
 * subscriptions with its key, in that order.
 */
module SubscriptionIndex {
  import opened Wrappers

  datatype Record<H> = Record(id: string, session: string, topic: string, handler: H)

  datatype Key = BySession | ByTopic

  function KeyOf<H>(k: Key, r: Record<H>): string {
    match k case BySession => r.session case ByTopic => r.topic
  }

  type Index = map<string, seq<nat>>

  function Bucket(m: Index, v: string): seq<nat> { if v in m then m[v] else [] }

  // -------------------------------------------------- Reference: a plain list

  function Filter<T>(s: seq<T>, p: T -> bool): seq<T> {
    if s == [] then []
    else if p(s[0]) then [s[0]] + Filter(s[1..], p)
    else Filter(s[1..], p)
  }

  function HasKey<H>(k: Key, v: string): Record<H> -> bool { (r: Record<H>) => KeyOf(k, r) == v }

  function LacksKey<H>(k: Key, v: string): Record<H> -> bool { (r: Record<H>) => KeyOf(k, r) != v }

  function IsNot<H>(id: string): Record<H> -> bool { (r: Record<H>) => r.id != id }

  /** The subscriptions with key v, in order. */
  function Having<H>(live: seq<Record<H>>, k: Key, v: string): seq<Record<H>> { Filter(live, HasKey(k, v)) }

  function Without<H>(live: seq<Record<H>>, id: string): seq<Record<H>> { Filter(live, IsNot(id)) }

  /** The subscriptions whose key is not v, in order. */
  function Lacking<H>(live: seq<Record<H>>, k: Key, v: string): seq<Record<H>> { Filter(live, LacksKey(k, v)) }

  ghost predicate DistinctIds<H>(s: seq<Record<H>>) {
    forall i, j :: 0 <= i < j < |s| ==> s[i].id != s[j].id
  }

  // ----------------------------------------------------------- Index vectors

  function RemoveIndex(ix: seq<nat>, i: nat): seq<nat> {
    if ix == [] then []
    else if ix[0] == i then RemoveIndex(ix[1..], i)
    else [ix[0]] + RemoveIndex(ix[1..], i)
  }

  /** Only the first occurrence is renamed. */
  function RemapIndex(ix: seq<nat>, from: nat, to: nat): seq<nat> {
    if ix == [] then []
    else if ix[0] == from then [to] + ix[1..]
    else [ix[0]] + RemapIndex(ix[1..], from, to)
  }

  ghost predicate InRange(ix: seq<nat>, n: nat) { forall j :: 0 <= j < |ix| ==> ix[j] < n }

  function Pick<H>(subs: seq<Record<H>>, ix: seq<nat>): (s: seq<Record<H>>)
    requires InRange(ix, |subs|)
    ensures |s| == |ix| && forall j :: 0 <= j < |ix| ==> s[j] == subs[ix[j]]
  {
    seq(|ix|, j requires 0 <= j < |ix| => subs[ix[j]])
  }

  // ---------------------------------------------------------------- Agreement

  ghost predicate IndexAgrees<H>(k: Key, m: Index, subs: seq<Record<H>>, live: seq<Record<H>>) {
    && (forall v :: v in m ==> m[v] != [])
    && (forall v: string :: InRange(Bucket(m, v), |subs|) && Pick(subs, Bucket(m, v)) == Having(live, k, v))
  }

  ghost predicate IdIndexAgrees<H>(ids: map<string, nat>, subs: seq<Record<H>>) {
    && (forall i :: 0 <= i < |subs| ==> subs[i].id in ids && ids[subs[i].id] == i)
    && (forall id :: id in ids ==> ids[id] < |subs| && subs[ids[id]].id == id)
  }

  ghost predicate SameRecords<H>(subs: seq<Record<H>>, live: seq<Record<H>>) {
    && |subs| == |live|
    && (forall r :: r in subs ==> r in live)
    && (forall r :: r in live ==> r in subs)
  }

  // ------------------------------------------------- Facts about plain lists

  lemma {:induction false} FilterMember<T>(s: seq<T>, p: T -> bool, x: T)
    ensures x in Filter(s, p) <==> x in s && p(x)
  {
    if s != [] { FilterMember(s[1..], p, x); }
  }

  lemma {:induction false} FilterDistinct<H>(s: seq<Record<H>>, p: Record<H> -> bool)
    requires DistinctIds(s)
    ensures DistinctIds(Filter(s, p))
  {
    if s != [] {
      var tail := s[1..];
      var rest := Filter(tail, p);
      FilterDistinct(tail, p);
      forall j | 0 <= j < |rest| ensures rest[j].id != s[0].id {
        FilterMember(tail, p, rest[j]);
        assert rest[j] in rest;
      }
    }
  }

  lemma {:induction false} FiltersCommute<T>(s: seq<T>, p: T -> bool, q: T -> bool)
    ensures Filter(Filter(s, p), q) == Filter(Filter(s, q), p)
  {
    if s != [] {
      FiltersCommute(s[1..], p, q);
      FilterCons(s[0], Filter(s[1..], p), q);
      FilterCons(s[0], Filter(s[1..], q), p);
    }
  }

  lemma FilterCons<T>(x: T, s: seq<T>, p: T -> bool)
    ensures Filter([x] + s, p) == if p(x) then [x] + Filter(s, p) else Filter(s, p)
  {
    assert ([x] + s)[1..] == s;
  }

  lemma {:induction false} FilterSnoc<T>(s: seq<T>, x: T, p: T -> bool)
    ensures Filter(s + [x], p) == if p(x) then Filter(s, p) + [x] else Filter(s, p)
  {
    if s == [] {
      assert [] + [x] == [x] + [];
      FilterCons(x, [], p);
    } else {
      assert s + [x] == [s[0]] + (s[1..] + [x]);
      FilterCons(s[0], s[1..] + [x], p);
      FilterSnoc(s[1..], x, p);
    }
  }

  lemma {:induction false} FilterAll<T>(s: seq<T>, p: T -> bool)
    requires forall x :: x in s ==> p(x)
    ensures Filter(s, p) == s
  {
    if s != [] { FilterAll(s[1..], p); }
  }

  /** Removing what a filter rejects anyway makes no difference to it. */
  lemma {:induction false} FilterAfterFilter<T>(s: seq<T>, p: T -> bool, q: T -> bool)
    requires forall x :: x in s && q(x) ==> p(x)
    ensures Filter(Filter(s, p), q) == Filter(s, q)
  {
    if s != [] {
      FilterAfterFilter(s[1..], p, q);
      FilterCons(s[0], Filter(s[1..], p), q);
    }
  }

  /** Exactly one subscription goes when its id is removed. */
  lemma {:induction false} WithoutOne<H>(live: seq<Record<H>>, r: Record<H>)
    requires DistinctIds(live) && r in live
    ensures |Without(live, r.id)| == |live| - 1
  {
    if live[0] == r {
      forall x | x in live[1..] ensures x.id != r.id { var j :| 1 <= j < |live| && live[j] == x; }
      FilterAll(live[1..], IsNot(r.id));
    } else {
      var j :| 0 <= j < |live| && live[j] == r;
      assert live[1..][j - 1] == r;
      WithoutOne(live[1..], r);
    }
  }

  // ----------------------------------------------- Removal from the dense vector

  function ErasedVector<H>(subs: seq<Record<H>>, i: nat): seq<Record<H>>
    requires i < |subs|
  {
    subs[i := subs[|subs| - 1]][..|subs| - 1]
  }

  /** A bucket after the record at i is gone and the last record took its place. */
  function ErasedBucket(ix: seq<nat>, i: nat, last: nat): seq<nat> { Moved(RemoveIndex(ix, i), i, last) }

  /** The last record's position is renamed to the gap, unless it was the gap. */
  function Moved(kept: seq<nat>, i: nat, last: nat): seq<nat> {
    if i == last then kept else RemapIndex(kept, last, i)
  }

  lemma {:induction false} RemovedInRange(ix: seq<nat>, i: nat, n: nat)
    requires InRange(ix, n)
    ensures i !in RemoveIndex(ix, i) && InRange(RemoveIndex(ix, i), n)
  {
    if ix != [] {
      assert InRange(ix[1..], n);
      RemovedInRange(ix[1..], i, n);
    }
  }

  lemma PickCons<H>(subs: seq<Record<H>>, x: nat, ix: seq<nat>)
    requires x < |subs| && InRange(ix, |subs|)
    ensures InRange([x] + ix, |subs|) && Pick(subs, [x] + ix) == [subs[x]] + Pick(subs, ix)
  {
  }

  lemma {:induction false} PickRemoved<H>(subs: seq<Record<H>>, ix: seq<nat>, i: nat)
    requires DistinctIds(subs) && i < |subs| && InRange(ix, |subs|)
    ensures i !in RemoveIndex(ix, i) && InRange(RemoveIndex(ix, i), |subs|)
    ensures Pick(subs, RemoveIndex(ix, i)) == Without(Pick(subs, ix), subs[i].id)
  {
    RemovedInRange(ix, i, |subs|);
    if ix != [] {
      var x, rest := ix[0], ix[1..];
      assert ix == [x] + rest && x < |subs| && InRange(rest, |subs|);
      PickRemoved(subs, rest, i);
      PickCons(subs, x, rest);
      FilterCons(subs[x], Pick(subs, rest), IsNot(subs[i].id));
      assert x == i <==> subs[x].id == subs[i].id;
      if x != i { PickCons(subs, x, RemoveIndex(rest, i)); }
    }
  }

  lemma {:induction false} RemapAbsent(ix: seq<nat>, from: nat, to: nat)
    requires from !in ix
    ensures RemapIndex(ix, from, to) == ix
  {
    if ix != [] { RemapAbsent(ix[1..], from, to); }
  }

  lemma {:induction false} RemoveAbsent(ix: seq<nat>, i: nat)
    requires i !in ix
    ensures RemoveIndex(ix, i) == ix
  {
    if ix != [] { RemoveAbsent(ix[1..], i); }
  }

  /** Without duplicates renaming the first occurrence renames every one. */
  lemma {:induction false} RemapPointwise(ix: seq<nat>, from: nat, to: nat)
    requires NoRepeats(ix)
    ensures |RemapIndex(ix, from, to)| == |ix|
    ensures forall j :: 0 <= j < |ix| ==> RemapIndex(ix, from, to)[j] == if ix[j] == from then to else ix[j]
  {
    if ix != [] && ix[0] != from {
      RemapPointwise(ix[1..], from, to);
      assert RemapIndex(ix, from, to) == [ix[0]] + RemapIndex(ix[1..], from, to);
    }
  }

  lemma PickedDistinct<H>(subs: seq<Record<H>>, ix: seq<nat>)
    requires InRange(ix, |subs|) && DistinctIds(Pick(subs, ix))
    ensures NoRepeats(ix)
  {
    forall a, b | 0 <= a < b < |ix| ensures ix[a] != ix[b] {
      assert Pick(subs, ix)[a].id != Pick(subs, ix)[b].id;
    }
  }

  lemma MovedAt(kept: seq<nat>, i: nat, last: nat)
    requires NoRepeats(kept)
    ensures |Moved(kept, i, last)| == |kept|
    ensures forall j :: 0 <= j < |kept| ==> Moved(kept, i, last)[j] == if kept[j] == last then i else kept[j]
  {
    if i != last { RemapPointwise(kept, last, i); }
  }

  /** Moving the last record into the gap and renaming its position changes nothing picked. */
  lemma MovedPicks<H>(subs: seq<Record<H>>, kept: seq<nat>, i: nat)
    requires i < |subs| && InRange(kept, |subs|) && i !in kept && NoRepeats(kept)
    ensures
      var moved := Moved(kept, i, |subs| - 1);
      InRange(moved, |subs| - 1) && Pick(ErasedVector(subs, i), moved) == Pick(subs, kept)
  {
    var last := |subs| - 1;
    var moved := Moved(kept, i, last);
    MovedAt(kept, i, last);
    forall j | 0 <= j < |moved| ensures moved[j] < last && ErasedVector(subs, i)[moved[j]] == subs[kept[j]] {
      assert kept[j] in kept;
      ErasedVectorAt(subs, i, moved[j]);
    }
    PicksEqual(ErasedVector(subs, i), moved, subs, kept);
  }

  lemma ErasedVectorAt<H>(subs: seq<Record<H>>, i: nat, p: nat)
    requires i < |subs| && p < |subs| - 1
    ensures ErasedVector(subs, i)[p] == if p == i then subs[|subs| - 1] else subs[p]
  {
  }

  lemma PicksEqual<H>(a: seq<Record<H>>, ix: seq<nat>, b: seq<Record<H>>, jx: seq<nat>)
    requires InRange(ix, |a|) && InRange(jx, |b|) && |ix| == |jx|
    requires forall j :: 0 <= j < |ix| ==> a[ix[j]] == b[jx[j]]
    ensures Pick(a, ix) == Pick(b, jx)
  {
  }

  lemma ErasedBucketPicks<H>(k: Key, subs: seq<Record<H>>, live: seq<Record<H>>, v: string, ix: seq<nat>, i: nat)
    requires DistinctIds(subs) && DistinctIds(live) && i < |subs|
    requires InRange(ix, |subs|) && Pick(subs, ix) == Having(live, k, v)
    ensures InRange(ErasedBucket(ix, i, |subs| - 1), |subs| - 1)
    ensures Pick(ErasedVector(subs, i), ErasedBucket(ix, i, |subs| - 1)) == Having(Without(live, subs[i].id), k, v)
  {
    var kept := RemoveIndex(ix, i);
    PickRemoved(subs, ix, i);
    FiltersCommute(live, HasKey(k, v), IsNot(subs[i].id));
    FilterDistinct(live, HasKey(k, v));
    FilterDistinct(Having(live, k, v), IsNot(subs[i].id));
    PickedDistinct(subs, kept);
    MovedPicks(subs, kept, i);
  }

  // ------------------------------------------------------ Whole index updates

  /** Drop a position from a bucket; an emptied bucket disappears. */
  function DropFrom(m: Index, v: string, i: nat): Index {
    if v !in m then m
    else if RemoveIndex(m[v], i) == [] then m - {v}
    else m[v := RemoveIndex(m[v], i)]
  }

  function RemapIn(m: Index, v: string, from: nat, to: nat): Index {
    if v in m then m[v := RemapIndex(m[v], from, to)] else m
  }

  function ErasedIndex<H>(k: Key, m: Index, subs: seq<Record<H>>, i: nat): Index
    requires i < |subs|
  {
    var last := |subs| - 1;
    var m1 := DropFrom(m, KeyOf(k, subs[i]), i);
    if i == last then m1 else RemapIn(m1, KeyOf(k, subs[last]), last, i)
  }

  /** A position occurs only in the bucket of its record's key. */
  lemma PositionHasKey<H>(k: Key, m: Index, subs: seq<Record<H>>, live: seq<Record<H>>, v: string, i: nat)
    requires IndexAgrees(k, m, subs, live) && i in Bucket(m, v)
    ensures i < |subs| && KeyOf(k, subs[i]) == v
  {
    var ix := Bucket(m, v);
    var j :| 0 <= j < |ix| && ix[j] == i;
    assert Pick(subs, ix)[j] == subs[i];
    FilterMember(live, HasKey(k, v), subs[i]);
    assert subs[i] in Having(live, k, v);
  }

  lemma {:induction false} RemovedMembers(ix: seq<nat>, i: nat, j: nat)
    requires j in RemoveIndex(ix, i)
    ensures j in ix
  {
    if ix[0] == i || (ix[0] != i && j != ix[0]) { RemovedMembers(ix[1..], i, j); }
  }

  lemma DropFromBucket(m: Index, w: string, i: nat, v: string)
    ensures Bucket(DropFrom(m, w, i), v) == if v == w then RemoveIndex(Bucket(m, v), i) else Bucket(m, v)
  {
  }

  lemma RemapInBucket(m: Index, w: string, from: nat, to: nat, v: string)
    ensures Bucket(RemapIn(m, w, from, to), v) == if v == w then RemapIndex(Bucket(m, v), from, to) else Bucket(m, v)
  {
  }

  /** Updating two buckets amounts to updating all of them. */
  lemma ErasedIndexBuckets<H>(k: Key, m: Index, subs: seq<Record<H>>, live: seq<Record<H>>, i: nat, v: string)
    requires i < |subs| && IndexAgrees(k, m, subs, live)
    ensures Bucket(ErasedIndex(k, m, subs, i), v) == ErasedBucket(Bucket(m, v), i, |subs| - 1)
  {
    var last := |subs| - 1;
    var removedKey, movedKey := KeyOf(k, subs[i]), KeyOf(k, subs[last]);
    var m1 := DropFrom(m, removedKey, i);
    DropFromBucket(m, removedKey, i, v);
    RemapInBucket(m1, movedKey, last, i, v);
    assert ErasedIndex(k, m, subs, i) == if i == last then m1 else RemapIn(m1, movedKey, last, i);
    if removedKey != v {
      if i in Bucket(m, v) { PositionHasKey(k, m, subs, live, v, i); }
      RemoveAbsent(Bucket(m, v), i);
    }
    if movedKey != v {
      if last in Bucket(m1, v) {
        RemovedMembers(Bucket(m, v), i, last);
        PositionHasKey(k, m, subs, live, v, last);
      }
      RemapAbsent(Bucket(m1, v), last, i);
    }
  }

  lemma ErasedIndexNonEmpty<H>(k: Key, m: Index, subs: seq<Record<H>>, i: nat, v: string)
    requires i < |subs| && forall w :: w in m ==> m[w] != []
    ensures v in ErasedIndex(k, m, subs, i) ==> ErasedIndex(k, m, subs, i)[v] != []
  {
  }

  lemma ErasedIndexAgrees<H>(k: Key, m: Index, subs: seq<Record<H>>, live: seq<Record<H>>, i: nat)
    requires i < |subs| && DistinctIds(subs) && DistinctIds(live) && IndexAgrees(k, m, subs, live)
    ensures IndexAgrees(k, ErasedIndex(k, m, subs, i), ErasedVector(subs, i), Without(live, subs[i].id))
  {
    var m' := ErasedIndex(k, m, subs, i);
    forall v | v in m' ensures m'[v] != [] { ErasedIndexNonEmpty(k, m, subs, i, v); }
    forall v: string
      ensures InRange(Bucket(m', v), |subs| - 1)
      ensures Pick(ErasedVector(subs, i), Bucket(m', v)) == Having(Without(live, subs[i].id), k, v)
    {
      assert InRange(Bucket(m, v), |subs|) && Pick(subs, Bucket(m, v)) == Having(live, k, v);
      ErasedIndexBuckets(k, m, subs, live, i, v);
      ErasedBucketPicks(k, subs, live, v, Bucket(m, v), i);
    }
  }

  function ErasedIds<H>(ids: map<string, nat>, subs: seq<Record<H>>, i: nat): map<string, nat>
    requires i < |subs|
  {
    var last := |subs| - 1;
    (if i == last then ids else ids[subs[last].id := i]) - {subs[i].id}
  }

  lemma ErasedIdsAgree<H>(ids: map<string, nat>, subs: seq<Record<H>>, i: nat)
    requires i < |subs| && DistinctIds(subs) && IdIndexAgrees(ids, subs)
    ensures IdIndexAgrees(ErasedIds(ids, subs, i), ErasedVector(subs, i))
  {
  }

  lemma ErasedVectorMembers<H>(subs: seq<Record<H>>, i: nat)
    requires i < |subs| && DistinctIds(subs)
    ensures DistinctIds(ErasedVector(subs, i))
    ensures forall r :: r in ErasedVector(subs, i) ==> r in subs && r.id != subs[i].id
    ensures forall r :: r in subs && r.id != subs[i].id ==> r in ErasedVector(subs, i)
  {
    var last := |subs| - 1;
    var subs' := ErasedVector(subs, i);
    forall j | 0 <= j < |subs'| ensures subs'[j] in subs && subs'[j].id != subs[i].id {
      assert subs'[j] == subs[if j == i then last else j];
    }
    forall r | r in subs && r.id != subs[i].id ensures r in subs' {
      var j :| 0 <= j < |subs| && subs[j] == r;
      assert subs'[if j == last then i else j] == r;
    }
  }

  lemma ErasedRecords<H>(subs: seq<Record<H>>, live: seq<Record<H>>, i: nat)
    requires i < |subs| && DistinctIds(subs) && DistinctIds(live) && SameRecords(subs, live)
    ensures DistinctIds(ErasedVector(subs, i)) && DistinctIds(Without(live, subs[i].id))
    ensures SameRecords(ErasedVector(subs, i), Without(live, subs[i].id))
  {
    assert subs[i] in live;
    ErasedVectorMembers(subs, i);
    WithoutOne(live, subs[i]);
    FilterDistinct(live, IsNot(subs[i].id));
    var subs', live' := ErasedVector(subs, i), Without(live, subs[i].id);
    forall r | r in live' ensures r in subs' { FilterMember(live, IsNot(subs[i].id), r); }
    forall r | r in subs' ensures r in live' { FilterMember(live, IsNot(subs[i].id), r); }
  }

  // ----------------------------------------------------------------- Addition

  function PushTo(m: Index, v: string, i: nat): Index { m[v := Bucket(m, v) + [i]] }

  lemma PushedIndexAgrees<H>(k: Key, m: Index, subs: seq<Record<H>>, live: seq<Record<H>>, r: Record<H>)
    requires IndexAgrees(k, m, subs, live)
    ensures IndexAgrees(k, PushTo(m, KeyOf(k, r), |subs|), subs + [r], live + [r])
  {
    var m' := PushTo(m, KeyOf(k, r), |subs|);
    forall v: string
      ensures InRange(Bucket(m', v), |subs| + 1)
      ensures Pick(subs + [r], Bucket(m', v)) == Having(live + [r], k, v)
    {
      FilterSnoc(live, r, HasKey(k, v));
      var ix := Bucket(m, v);
      assert InRange(ix, |subs|) && Pick(subs, ix) == Having(live, k, v);
      PickPushed(subs, r, ix);
      assert Bucket(m', v) == if KeyOf(k, r) == v then ix + [|subs|] else ix;
    }
  }

  lemma PickPushed<H>(subs: seq<Record<H>>, r: Record<H>, ix: seq<nat>)
    requires InRange(ix, |subs|)
    ensures InRange(ix + [|subs|], |subs| + 1)
    ensures Pick(subs + [r], ix) == Pick(subs, ix)
    ensures Pick(subs + [r], ix + [|subs|]) == Pick(subs, ix) + [r]
  {
  }

  // --------------------------------------------------------------- All together

  /** The vector, the id map and both indices describe the plain list. */
  ghost predicate Agrees<H>(subs: seq<Record<H>>, ids: map<string, nat>, sessions: Index, topics: Index,
                            live: seq<Record<H>>)
  {
    && DistinctIds(subs) && DistinctIds(live) && SameRecords(subs, live)
    && IdIndexAgrees(ids, subs)
    && IndexAgrees(BySession, sessions, subs, live)
    && IndexAgrees(ByTopic, topics, subs, live)
  }

  lemma PushedRecords<H>(subs: seq<Record<H>>, ids: map<string, nat>, r: Record<H>)
    requires DistinctIds(subs) && IdIndexAgrees(ids, subs) && forall s :: s in subs ==> s.id != r.id
    ensures DistinctIds(subs + [r]) && IdIndexAgrees(ids[r.id := |subs|], subs + [r])
  {
    forall i | 0 <= i < |subs| ensures subs[i].id != r.id { assert subs[i] in subs; }
  }

  lemma PushedAgrees<H>(subs: seq<Record<H>>, ids: map<string, nat>, sessions: Index, topics: Index,
                        live: seq<Record<H>>, r: Record<H>)
    requires Agrees(subs, ids, sessions, topics, live) && forall s :: s in live ==> s.id != r.id
    ensures Agrees(subs + [r], ids[r.id := |subs|], PushTo(sessions, r.session, |subs|),
                   PushTo(topics, r.topic, |subs|), live + [r])
  {
    PushedIndexAgrees(BySession, sessions, subs, live, r);
    PushedIndexAgrees(ByTopic, topics, subs, live, r);
    PushedSame(subs, live, r);
    PushedRecords(subs, ids, r);
  }

  lemma PushedSame<H>(subs: seq<Record<H>>, live: seq<Record<H>>, r: Record<H>)
    requires SameRecords(subs, live) && DistinctIds(live) && forall s :: s in live ==> s.id != r.id
    ensures SameRecords(subs + [r], live + [r]) && DistinctIds(live + [r])
    ensures forall s :: s in subs ==> s.id != r.id
  {
    forall i | 0 <= i < |live| ensures live[i].id != r.id { assert live[i] in live; }
  }

  lemma ErasedAgrees<H>(subs: seq<Record<H>>, ids: map<string, nat>, sessions: Index, topics: Index,
                        live: seq<Record<H>>, i: nat)
    requires Agrees(subs, ids, sessions, topics, live) && i < |subs|
    ensures Agrees(ErasedVector(subs, i), ErasedIds(ids, subs, i), ErasedIndex(BySession, sessions, subs, i),
                   ErasedIndex(ByTopic, topics, subs, i), Without(live, subs[i].id))
  {
    ErasedIndexAgrees(BySession, sessions, subs, live, i);
    ErasedIndexAgrees(ByTopic, topics, subs, live, i);
    ErasedIdsAgree(ids, subs, i);
    ErasedRecords(subs, live, i);
  }

  // ------------------------------------------------------------ Whole histories

  datatype Op<H> = Subscribed(r: Record<H>) | Unsubscribed(id: string) | Disconnected(session: string)

  function Step<H>(live: seq<Record<H>>, op: Op<H>): seq<Record<H>> {
    match op
    case Subscribed(r) => live + [r]
    case Unsubscribed(id) => Without(live, id)
    case Disconnected(session) => Lacking(live, BySession, session)
  }

  function RunList<H>(live: seq<Record<H>>, ops: seq<Op<H>>): seq<Record<H>>
    decreases |ops|
  {
    if ops == [] then live else RunList(Step(live, ops[0]), ops[1..])
  }

  predicate Removes<H>(op: Op<H>, r: Record<H>) {
    match op
    case Subscribed(_) => false
    case Unsubscribed(id) => r.id == id
    case Disconnected(session) => r.session == session
  }

  /** No operation of the list removes the subscription. */
  function Survives<H>(ops: seq<Op<H>>): Record<H> -> bool {
    (r: Record<H>) => forall i :: 0 <= i < |ops| ==> !Removes(ops[i], r)
  }

  /** The subscriptions that no later operation removed, in the order they were made. */
  function Survivors<H>(ops: seq<Op<H>>): seq<Record<H>> {
    if ops == [] then []
    else if ops[0].Subscribed? && Survives(ops[1..])(ops[0].r) then [ops[0].r] + Survivors(ops[1..])
    else Survivors(ops[1..])
  }

  lemma {:induction false} FilterBoth<T>(s: seq<T>, p: T -> bool, q: T -> bool, both: T -> bool)
    requires forall x :: x in s ==> (both(x) <==> p(x) && q(x))
    ensures Filter(Filter(s, p), q) == Filter(s, both)
  {
    if s != [] {
      FilterBoth(s[1..], p, q, both);
      FilterCons(s[0], Filter(s[1..], p), q);
    }
  }

  lemma SurvivesStep<H>(ops: seq<Op<H>>, r: Record<H>)
    requires ops != []
    ensures Survives(ops)(r) <==> !Removes(ops[0], r) && Survives(ops[1..])(r)
  {
    var tail := ops[1..];
    if Survives(tail)(r) && !Removes(ops[0], r) {
      forall i | 0 <= i < |ops| ensures !Removes(ops[i], r) {
        if i > 0 { assert ops[i] == tail[i - 1]; }
      }
    }
    if Survives(ops)(r) {
      forall i | 0 <= i < |tail| ensures !Removes(tail[i], r) { assert tail[i] == ops[i + 1]; }
    }
  }

  lemma {:induction false} FilterSame<T>(s: seq<T>, p: T -> bool, q: T -> bool)
    requires forall x :: x in s ==> (p(x) <==> q(x))
    ensures Filter(s, p) == Filter(s, q)
  {
    if s != [] { FilterSame(s[1..], p, q); }
  }

  lemma StepSurvives<H>(live: seq<Record<H>>, ops: seq<Op<H>>)
    requires ops != []
    ensures Filter(Step(live, ops[0]), Survives(ops[1..])) + Survivors(ops[1..])
         == Filter(live, Survives(ops)) + Survivors(ops)
  {
    var later := Survives(ops[1..]);
    forall r ensures Survives(ops)(r) <==> !Removes(ops[0], r) && later(r) { SurvivesStep(ops, r); }
    match ops[0]
    case Subscribed(r) =>
      FilterSnoc(live, r, later);
      FilterSame(live, later, Survives(ops));
      if later(r) {
        assert Filter(live, later) + [r] + Survivors(ops[1..]) == Filter(live, later) + ([r] + Survivors(ops[1..]));
      }
    case Unsubscribed(id) =>
      FilterBoth(live, IsNot(id), later, Survives(ops));
    case Disconnected(session) =>
      FilterBoth(live, LacksKey(BySession, session), later, Survives(ops));
  }

  lemma {:induction false} RunFrom<H>(live: seq<Record<H>>, ops: seq<Op<H>>)
    ensures RunList(live, ops) == Filter(live, Survives(ops)) + Survivors(ops)
    decreases |ops|
  {
    if ops == [] {
      FilterAll(live, Survives(ops));
    } else {
      RunFrom(Step(live, ops[0]), ops[1..]);
      StepSurvives(live, ops);
    }
  }

  /**
   * After any history the live list, and so each topic's delivery list, holds
   * exactly the subscriptions that were never removed, in subscribe order.
   */
  lemma HistoryDecidesDelivery<H>(ops: seq<Op<H>>, topic: string)
    ensures RunList([], ops) == Survivors(ops)
    ensures Having(RunList([], ops), ByTopic, topic) == Filter(Survivors(ops), HasKey(ByTopic, topic))
  {
    RunFrom([], ops);
  }
}
