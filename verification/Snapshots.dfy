/**
 * Configuration snapshots: the table of snapshots with its active flags, and
 * the choice of the snapshot to roll back to.  Creation times are stored in
 * whole seconds; rows created in the same second are listed in either order.
 */
module Snapshots {
  import opened Wrappers

  datatype Snapshot = Snapshot(id: string, tenant: string, sdl: string, active: bool, created: int)

  type Rows = map<string, Snapshot>

  datatype SaveResult = Saved | DuplicateId

  datatype ActivateResult = Activated | TenantNotFound

  datatype RollbackResult = RolledBack(id: string) | NothingPrevious | NoTarget | ActivationFailed

  /** A schema waiting to be loaded. */
  datatype Pending = Pending(tenant: string, sdl: string)

  ghost predicate WellKeyed(rows: Rows) { forall id :: id in rows ==> rows[id].id == id }

  /** At most one active snapshot per tenant. */
  ghost predicate OneActive(rows: Rows) {
    forall a, b :: a in rows && b in rows && rows[a].active && rows[b].active ==>
      rows[a].tenant == rows[b].tenant ==> a == b
  }

  function CreatedSeconds(milliseconds: nat): (seconds: nat)
    ensures seconds * 1000 <= milliseconds < (seconds + 1) * 1000
  {
    milliseconds / 1000
  }

  // ---------------------------------------------------------------- Activation

  /** Every snapshot of the tenant is switched off, then one is switched on. */
  function Activate(rows: Rows, id: string): Rows
    requires id in rows
  {
    map k | k in rows :: if rows[k].tenant == rows[id].tenant then rows[k].(active := k == id) else rows[k]
  }

  /** Activation leaves the tenant with exactly this active snapshot, whatever was active before. */
  lemma ActivateMakesUnique(rows: Rows, id: string)
    requires WellKeyed(rows) && id in rows
    ensures WellKeyed(Activate(rows, id))
    ensures forall k :: k in rows && rows[k].tenant == rows[id].tenant ==> (Activate(rows, id)[k].active <==> k == id)
    ensures OneActive(rows) ==> OneActive(Activate(rows, id))
    // Other tenants' snapshots, and everything but the flags, stay as they are.
    ensures Activate(rows, id).Keys == rows.Keys
    ensures forall k :: k in rows && rows[k].tenant != rows[id].tenant ==> Activate(rows, id)[k] == rows[k]
    ensures forall k :: k in rows ==> Activate(rows, id)[k].(active := false) == rows[k].(active := false)
  {
  }

  /** Only the latest activation within a tenant counts. */
  lemma ActivateOverrides(rows: Rows, first: string, second: string)
    requires first in rows && second in rows && rows[first].tenant == rows[second].tenant
    ensures Activate(Activate(rows, first), second) == Activate(rows, second)
  {
  }

  /** Saving keeps the invariant exactly when it does not bring a second active snapshot. */
  lemma SaveKeepsOneActiveIff(rows: Rows, s: Snapshot)
    requires WellKeyed(rows) && OneActive(rows) && s.id !in rows
    ensures OneActive(rows[s.id := s])
       <==> (s.active ==> forall k :: k in rows && rows[k].tenant == s.tenant ==> !rows[k].active)
  {
    var after := rows[s.id := s];
    if s.active && OneActive(after) {
      forall k | k in rows && rows[k].tenant == s.tenant ensures !rows[k].active {
        assert s.id in after && k in after && after[k] == rows[k];
      }
    }
  }

  // ------------------------------------------------------------------- Listing

  ghost predicate NewestFirst(l: seq<Snapshot>) {
    forall i, j :: 0 <= i < j < |l| ==> l[i].id != l[j].id && l[i].created >= l[j].created
  }

  ghost predicate Listed(l: seq<Snapshot>, id: string) { exists i :: 0 <= i < |l| && l[i].id == id }

  ghost predicate OfTenant(rows: Rows, tenant: string, s: Snapshot) {
    s.id in rows && rows[s.id] == s && s.tenant == tenant
  }

  /** The tenant's snapshots, each once, newest first. */
  ghost predicate IsListing(rows: Rows, tenant: string, l: seq<Snapshot>) {
    && (forall i :: 0 <= i < |l| ==> OfTenant(rows, tenant, l[i]))
    && (forall id :: id in rows && rows[id].tenant == tenant ==> Listed(l, id))
    && NewestFirst(l)
  }

  /** No two snapshots of the tenant were created in the same second. */
  ghost predicate DistinctTimes(rows: Rows, tenant: string) {
    forall a, b :: a in rows && b in rows && rows[a].tenant == tenant && rows[b].tenant == tenant && a != b
      ==> rows[a].created != rows[b].created
  }

  /** Distinct times leave only one listing. */
  lemma {:induction false} ListingUnique(rows: Rows, tenant: string, a: seq<Snapshot>, b: seq<Snapshot>)
    requires IsListing(rows, tenant, a) && IsListing(rows, tenant, b) && DistinctTimes(rows, tenant)
    ensures a == b
  {
    SameFrom(rows, tenant, a, b, 0);
  }

  lemma {:induction false} SameFrom(rows: Rows, tenant: string, a: seq<Snapshot>, b: seq<Snapshot>, k: nat)
    requires IsListing(rows, tenant, a) && IsListing(rows, tenant, b) && DistinctTimes(rows, tenant)
    requires k <= |a| && k <= |b| && a[..k] == b[..k]
    ensures a == b
    decreases |a| - k
  {
    if k == |a| && k == |b| {
      assert a == a[..k] && b == b[..k];
    } else if k < |a| {
      var j := NotBefore(rows, tenant, a, b, k);
      var i := NotBefore(rows, tenant, b, a, k);
      assert a[k] == b[k];
      assert a[..k + 1] == a[..k] + [a[k]] && b[..k + 1] == b[..k] + [b[k]];
      SameFrom(rows, tenant, a, b, k + 1);
    } else {
      var i := NotBefore(rows, tenant, b, a, k);
    }
  }

  /** What one listing has at k, another that agrees before k has no earlier. */
  lemma NotBefore(rows: Rows, tenant: string, a: seq<Snapshot>, b: seq<Snapshot>, k: nat) returns (j: nat)
    requires IsListing(rows, tenant, a) && IsListing(rows, tenant, b)
    requires k < |a| && k <= |b| && a[..k] == b[..k]
    ensures k <= j < |b| && b[j] == a[k]
  {
    assert forall m :: 0 <= m < k ==> a[m] == a[..k][m] == b[..k][m] == b[m] && a[m].id != a[k].id;
    assert OfTenant(rows, tenant, a[k]) && Listed(b, a[k].id);
    j :| 0 <= j < |b| && b[j].id == a[k].id;
    assert OfTenant(rows, tenant, b[j]);
  }

  /** A listing is the only one exactly when no two of its snapshots share a second. */
  lemma ListingUniqueIff(rows: Rows, tenant: string, l: seq<Snapshot>)
    requires WellKeyed(rows) && IsListing(rows, tenant, l)
    ensures DistinctTimes(rows, tenant) <==> forall other :: IsListing(rows, tenant, other) ==> other == l
  {
    if DistinctTimes(rows, tenant) {
      forall other | IsListing(rows, tenant, other) ensures other == l { ListingUnique(rows, tenant, other, l); }
    } else {
      var other := TieGivesAnother(rows, tenant, l);
    }
  }

  lemma TieGivesAnother(rows: Rows, tenant: string, l: seq<Snapshot>) returns (other: seq<Snapshot>)
    requires IsListing(rows, tenant, l) && !DistinctTimes(rows, tenant)
    ensures IsListing(rows, tenant, other) && other != l
  {
    var x, y :| x in rows && y in rows && rows[x].tenant == tenant && rows[y].tenant == tenant && x != y
      && rows[x].created == rows[y].created;
    var i := PositionOf(rows, tenant, l, x);
    var j := PositionOf(rows, tenant, l, y);
    var k := if i < j then i else j;
    NeighbourTies(l, k, if i < j then j else i);
    SwappedListing(rows, tenant, l, k);
    other := l[k := l[k + 1]][k + 1 := l[k]];
    assert other[k] == l[k + 1] && l[k].id != l[k + 1].id;
  }

  lemma PositionOf(rows: Rows, tenant: string, l: seq<Snapshot>, id: string) returns (i: nat)
    requires IsListing(rows, tenant, l) && id in rows && rows[id].tenant == tenant
    ensures i < |l| && l[i].id == id && l[i] == rows[id]
  {
    assert Listed(l, id);
    i :| 0 <= i < |l| && l[i].id == id;
    assert OfTenant(rows, tenant, l[i]);
  }

  lemma NeighbourTies(l: seq<Snapshot>, i: nat, j: nat)
    requires NewestFirst(l) && i < j < |l| && l[i].created == l[j].created
    ensures l[i].created == l[i + 1].created && l[i].id != l[i + 1].id
  {
    assert l[i].created >= l[i + 1].created && l[i].id != l[i + 1].id;
    if i + 1 < j { assert l[i + 1].created >= l[j].created; }
  }

  lemma SwappedListing(rows: Rows, tenant: string, l: seq<Snapshot>, k: nat)
    requires IsListing(rows, tenant, l) && k + 1 < |l| && l[k].created == l[k + 1].created
    ensures IsListing(rows, tenant, l[k := l[k + 1]][k + 1 := l[k]])
  {
    var r := l[k := l[k + 1]][k + 1 := l[k]];
    assert forall i :: 0 <= i < |r| ==> r[i] == l[if i == k then k + 1 else if i == k + 1 then k else i];
    forall id | id in rows && rows[id].tenant == tenant ensures Listed(r, id) {
      assert Listed(l, id);
      var i :| 0 <= i < |l| && l[i].id == id;
      assert r[if i == k then k + 1 else if i == k + 1 then k else i].id == id;
    }
  }

  /** The listing with the flags an activation leaves. */
  function ActivateIn(l: seq<Snapshot>, id: string): seq<Snapshot> {
    seq(|l|, i requires 0 <= i < |l| => l[i].(active := l[i].id == id))
  }

  lemma ListingAfterActivate(rows: Rows, tenant: string, l: seq<Snapshot>, id: string)
    requires IsListing(rows, tenant, l) && id in rows && rows[id].tenant == tenant
    ensures IsListing(Activate(rows, id), tenant, ActivateIn(l, id))
    ensures DistinctTimes(rows, tenant) ==> DistinctTimes(Activate(rows, id), tenant)
  {
    var after, la := Activate(rows, id), ActivateIn(l, id);
    forall i | 0 <= i < |la| ensures OfTenant(after, tenant, la[i]) { assert OfTenant(rows, tenant, l[i]); }
    forall k | k in after && after[k].tenant == tenant ensures Listed(la, k) {
      assert Listed(l, k);
      var i :| 0 <= i < |l| && l[i].id == k;
      assert la[i].id == k;
    }
  }

  // ----------------------------------------------------------------- Rollback

  /** The first inactive snapshot after an active one; "" when there is none. */
  function AfterActive(l: seq<Snapshot>, found: bool): string {
    if l == [] then ""
    else if l[0].active then AfterActive(l[1..], true)
    else if found then l[0].id
    else AfterActive(l[1..], found)
  }

  function FirstInactive(l: seq<Snapshot>): string {
    if l == [] then "" else if !l[0].active then l[0].id else FirstInactive(l[1..])
  }

  function RollbackTarget(l: seq<Snapshot>): string {
    if AfterActive(l, false) != "" then AfterActive(l, false) else FirstInactive(l)
  }

  ghost predicate OnlyActive(l: seq<Snapshot>, i: nat) {
    i < |l| && forall k :: 0 <= k < |l| ==> (l[k].active <==> k == i)
  }

  lemma {:induction false} AfterOnlyActive(l: seq<Snapshot>, i: nat)
    requires OnlyActive(l, i)
    ensures AfterActive(l, false) == if i + 1 < |l| then l[i + 1].id else ""
    decreases |l|
  {
    if i > 0 {
      assert forall k :: 0 <= k < |l| - 1 ==> l[1..][k] == l[k + 1];
      AfterOnlyActive(l[1..], i - 1);
    } else if |l| > 1 {
      assert l[1..][0] == l[1];
    }
  }

  function Next(i: nat, n: nat): nat
    requires i < n
  {
    if i + 1 < n then i + 1 else 0
  }

  /** With one active snapshot, the target is its cyclic successor in newest-first order. */
  lemma TargetIsCyclicSuccessor(l: seq<Snapshot>, i: nat)
    requires OnlyActive(l, i) && |l| >= 2 && forall s :: s in l ==> s.id != ""
    ensures RollbackTarget(l) == l[Next(i, |l|)].id
  {
    AfterOnlyActive(l, i);
    assert forall k :: 0 <= k < |l| ==> l[k] in l;
  }

  /** With no active snapshot, it is the newest one. */
  lemma {:induction false} TargetWithoutActive(l: seq<Snapshot>)
    requires l != [] && forall s :: s in l ==> !s.active
    ensures RollbackTarget(l) == l[0].id
  {
    NothingAfterActive(l);
  }

  /** The fallback, documented as taking the second snapshot, never takes it. */
  lemma {:induction false} FallbackIsNeverSecond(l: seq<Snapshot>)
    requires |l| >= 2 && NewestFirst(l) && forall s :: s in l ==> s.id != ""
    requires AfterActive(l, false) == ""
    ensures RollbackTarget(l) != l[1].id
  {
    assert l[0] in l && l[1] in l && l[0].id != l[1].id && l[1..][0] == l[1];
    if l[0].active {
      assert AfterActive(l, false) == AfterActive(l[1..], true);
      assert l[1].active;
      var rest := l[2..];
      assert l[1..][1..] == rest && FirstInactive(l) == FirstInactive(l[1..]) == FirstInactive(rest);
      FirstInactiveElsewhere(rest, l[1].id) by {
        forall k | 0 <= k < |rest| ensures rest[k].id != l[1].id { assert l[1].id != l[k + 2].id; }
      }
    }
  }

  lemma {:induction false} FirstInactiveElsewhere(l: seq<Snapshot>, id: string)
    requires id != "" && forall k :: 0 <= k < |l| ==> l[k].id != id
    ensures FirstInactive(l) != id
  {
    if l != [] { FirstInactiveElsewhere(l[1..], id); }
  }

  lemma {:induction false} NothingAfterActive(l: seq<Snapshot>)
    requires forall s :: s in l ==> !s.active
    ensures AfterActive(l, false) == ""
  {
    if l != [] {
      assert l[0] in l && forall s :: s in l[1..] ==> s in l;
      NothingAfterActive(l[1..]);
    }
  }

  /** What is found is an inactive snapshot of the list. */
  lemma {:induction false} TargetIsInactive(l: seq<Snapshot>, found: bool)
    ensures AfterActive(l, found) == "" || exists s :: s in l && !s.active && s.id == AfterActive(l, found)
    ensures FirstInactive(l) == "" || exists s :: s in l && !s.active && s.id == FirstInactive(l)
    decreases |l|
  {
    if l != [] {
      assert l[0] in l && forall s :: s in l[1..] ==> s in l;
      TargetIsInactive(l[1..], true);
      TargetIsInactive(l[1..], found);
    }
  }

  /** One successful rollback of a tenant, as a relation between tables. */
  ghost predicate RollbackStep(before: Rows, after: Rows, tenant: string, l: seq<Snapshot>) {
    && IsListing(before, tenant, l) && |l| >= 2
    && RollbackTarget(l) in before && before[RollbackTarget(l)].tenant == tenant
    && after == Activate(before, RollbackTarget(l))
  }

  ghost predicate IsRollback(before: Rows, after: Rows, tenant: string) {
    exists l :: RollbackStep(before, after, tenant, l)
  }

  ghost predicate IsRollbackRun(run: seq<Rows>, tenant: string) {
    forall k :: 0 <= k < |run| - 1 ==> IsRollback(run[k], run[k + 1], tenant)
  }

  /** The k-th cyclic successor of position i of n. */
  function Turned(i: nat, k: nat, n: nat): nat
    requires i < n
    ensures Turned(i, k, n) < n
    ensures k <= n ==> Turned(i, k, n) == if i + k < n then i + k else i + k - n
  {
    if k == 0 then i else Next(Turned(i, k - 1, n), n)
  }

  /**
   * k rollbacks from listing position i activate the k-th cyclic successor of i:
   * the table is the first one with that snapshot activated.
   */
  lemma {:induction false} RollbacksCycle(run: seq<Rows>, tenant: string, l: seq<Snapshot>, i: nat, k: nat)
    requires k < |run| && IsRollbackRun(run, tenant)
    requires IsListing(run[0], tenant, l) && DistinctTimes(run[0], tenant) && OnlyActive(l, i) && |l| >= 2
    requires WellKeyed(run[0]) && forall s :: s in l ==> s.id != ""
    ensures run[k] == Activate(run[0], l[Turned(i, k, |l|)].id)
    decreases k
  {
    if k == 0 {
      ActivateActive(run[0], tenant, l, i);
    } else {
      RollbacksCycle(run, tenant, l, i, k - 1);
      assert IsRollback(run[k - 1], run[k - 1 + 1], tenant);
      RollbackMoves(run[0], tenant, l, Turned(i, k - 1, |l|), run[k - 1], run[k]);
    }
  }

  /** A rollback moves the one active snapshot to its cyclic successor. */
  lemma RollbackMoves(rows: Rows, tenant: string, l: seq<Snapshot>, j: nat, before: Rows, after: Rows)
    requires IsListing(rows, tenant, l) && DistinctTimes(rows, tenant) && j < |l| && |l| >= 2
    requires forall s :: s in l ==> s.id != ""
    requires l[j].id in rows && before == Activate(rows, l[j].id) && IsRollback(before, after, tenant)
    ensures l[Next(j, |l|)].id in rows && after == Activate(rows, l[Next(j, |l|)].id)
  {
    var now, next := ActivateIn(l, l[j].id), Next(j, |l|);
    assert OfTenant(rows, tenant, l[j]) && OfTenant(rows, tenant, l[next]);
    ListingAfterActivate(rows, tenant, l, l[j].id);
    var seen :| RollbackStep(before, after, tenant, seen);
    ListingUnique(before, tenant, now, seen);
    NowActive(l, j);
    TargetIsCyclicSuccessor(now, j);
    ActivateOverrides(rows, l[j].id, l[next].id);
  }

  lemma PositionsDiffer(l: seq<Snapshot>, i: nat, j: nat)
    requires NewestFirst(l) && i < |l| && j < |l|
    ensures l[i].id == l[j].id <==> i == j
  {
    if i < j { assert l[i].id != l[j].id; } else if j < i { assert l[j].id != l[i].id; }
  }

  /**
   * The documented promise, to return to the snapshot activated before: after
   * activating one snapshot and then another, a rollback returns to the first
   * exactly when that is the next older one, or the newest after the oldest.
   */
  lemma RollbackReturnsToPreviousIff(
      rows: Rows, tenant: string, l: seq<Snapshot>, i: nat, j: nat, before: Rows, after: Rows)
    requires IsListing(rows, tenant, l) && DistinctTimes(rows, tenant) && forall s :: s in l ==> s.id != ""
    requires i < |l| && j < |l| && i != j && l[i].id in rows && l[j].id in rows
    requires before == Activate(Activate(rows, l[i].id), l[j].id) && IsRollback(before, after, tenant)
    ensures after == Activate(rows, l[i].id) <==> i == Next(j, |l|)
  {
    var next := Next(j, |l|);
    assert OfTenant(rows, tenant, l[i]) && OfTenant(rows, tenant, l[j]) && OfTenant(rows, tenant, l[next]);
    ActivateOverrides(rows, l[i].id, l[j].id);
    RollbackMoves(rows, tenant, l, j, before, after);
    PositionsDiffer(l, i, next);
    assert Activate(rows, l[i].id)[l[i].id].active && (Activate(rows, l[next].id)[l[i].id].active <==> i == next);
  }

  function ThreeSnapshots(): seq<Snapshot> {
    [Snapshot("c", "t", "", false, 3), Snapshot("b", "t", "", false, 2), Snapshot("a", "t", "", false, 1)]
  }

  function ThreeRows(): Rows {
    map["c" := ThreeSnapshots()[0], "b" := ThreeSnapshots()[1], "a" := ThreeSnapshots()[2]]
  }

  lemma ThreeAreThree()
    ensures var rows, l := ThreeRows(), ThreeSnapshots();
      && rows.Keys == {"c", "b", "a"} && rows["c"] == l[0] && rows["b"] == l[1] && rows["a"] == l[2]
    ensures NewestFirst(ThreeSnapshots())
  {
    assert "a" != "b" && "b" != "c" && "a" != "c";
  }

  lemma ThreeListed()
    ensures IsListing(ThreeRows(), "t", ThreeSnapshots())
  {
    var rows, l := ThreeRows(), ThreeSnapshots();
    ThreeAreThree();
    assert l[0].id == "c" && l[1].id == "b" && l[2].id == "a";
    assert Listed(l, "a") && Listed(l, "b") && Listed(l, "c");
    assert OfTenant(rows, "t", l[0]) && OfTenant(rows, "t", l[1]) && OfTenant(rows, "t", l[2]);
  }

  lemma ThreeDiffer()
    ensures DistinctTimes(ThreeRows(), "t") && forall s :: s in ThreeSnapshots() ==> s.id != ""
  {
    ThreeAreThree();
  }

  /** With the snapshot at j active, there is a rollback, to its cyclic successor. */
  lemma RollbackFrom(rows: Rows, tenant: string, l: seq<Snapshot>, j: nat)
    requires IsListing(rows, tenant, l) && |l| >= 2 && j < |l| && forall s :: s in l ==> s.id != ""
    requires l[j].id in rows && l[Next(j, |l|)].id in rows
    ensures IsRollback(Activate(rows, l[j].id), Activate(rows, l[Next(j, |l|)].id), tenant)
  {
    var now, next := ActivateIn(l, l[j].id), Next(j, |l|);
    assert OfTenant(rows, tenant, l[j]) && OfTenant(rows, tenant, l[next]);
    ListingAfterActivate(rows, tenant, l, l[j].id);
    NowActive(l, j);
    TargetIsCyclicSuccessor(now, j);
    ActivateOverrides(rows, l[j].id, l[next].id);
    assert RollbackStep(Activate(rows, l[j].id), Activate(rows, l[next].id), tenant, now);
  }

  /** Three snapshots, the middle one activated after the newest: the rollback goes on to the oldest. */
  lemma RollbackNeedNotReturn()
    ensures "c" in ThreeRows() && "b" in ThreeRows() && "a" in ThreeRows()
    ensures
      var rows := ThreeRows();
      && IsRollback(Activate(Activate(rows, "c"), "b"), Activate(rows, "a"), "t")
      && Activate(rows, "a") != Activate(rows, "c")
  {
    var rows, l := ThreeRows(), ThreeSnapshots();
    ThreeAreThree();
    ThreeListed();
    ThreeDiffer();
    RollbackFrom(rows, "t", l, 1);
    ActivateOverrides(rows, "c", "b");
    RollbackReturnsToPreviousIff(rows, "t", l, 0, 1, Activate(rows, "b"), Activate(rows, "a"));
  }

  lemma NowActive(l: seq<Snapshot>, j: nat)
    requires NewestFirst(l) && j < |l| && forall s :: s in l ==> s.id != ""
    ensures OnlyActive(ActivateIn(l, l[j].id), j)
    ensures forall s :: s in ActivateIn(l, l[j].id) ==> s.id != ""
  {
    forall m | 0 <= m < |l| ensures l[m].id != "" && (l[m].id == l[j].id ==> m == j) {
      assert l[m] in l;
      if m < j { assert l[m].id != l[j].id; } else if j < m { assert l[j].id != l[m].id; }
    }
  }

  lemma ActivateActive(rows: Rows, tenant: string, l: seq<Snapshot>, i: nat)
    requires WellKeyed(rows) && IsListing(rows, tenant, l) && OnlyActive(l, i)
    ensures Activate(rows, l[i].id) == rows
  {
    forall id | id in rows && rows[id].tenant == tenant ensures rows[id].active <==> id == l[i].id {
      assert Listed(l, id);
      var k :| 0 <= k < |l| && l[k].id == id;
      assert OfTenant(rows, tenant, l[k]);
      if k < i { assert l[k].id != l[i].id; } else if i < k { assert l[i].id != l[k].id; }
    }
  }

  /** As many rollbacks as the tenant has snapshots restore the whole table. */
  lemma RollbacksReturn(run: seq<Rows>, tenant: string, l: seq<Snapshot>, i: nat)
    requires |run| == |l| + 1 && IsRollbackRun(run, tenant)
    requires IsListing(run[0], tenant, l) && DistinctTimes(run[0], tenant) && OnlyActive(l, i) && |l| >= 2
    requires WellKeyed(run[0]) && forall s :: s in l ==> s.id != ""
    ensures run[|l|] == run[0]
  {
    RollbacksCycle(run, tenant, l, i, |l|);
    ActivateActive(run[0], tenant, l, i);
  }

  // ------------------------------------------------------------ The operations

  method FindTarget(l: seq<Snapshot>) returns (target: string)
    ensures target == RollbackTarget(l)
  {
    target := "";
    var foundActive := false;
    var i := 0;
    while i < |l|
      invariant 0 <= i <= |l|
      invariant target == "" && AfterActive(l, false) == AfterActive(l[i..], foundActive)
    {
      if l[i].active {
        foundActive := true;
      } else if foundActive {
        target := l[i].id;
        break;
      }
      i := i + 1;
    }
    assert target == AfterActive(l, false);
    if target == "" {
      i := 0;
      while i < |l| && l[i].active
        invariant 0 <= i <= |l|
        invariant FirstInactive(l) == FirstInactive(l[i..])
      {
        i := i + 1;
      }
      if i < |l| { target := l[i].id; }
    }
  }

  class ConfigStore {
    var rows: Rows
    var pending: Option<Pending>

    ghost predicate Valid()
      reads this
    {
      WellKeyed(rows)
    }

    constructor ()
      ensures Valid() && rows == map[] && pending == None && OneActive(rows)
    {
      rows, pending := map[], None;
    }

    method Save(s: Snapshot) returns (r: SaveResult)
      requires Valid()
      modifies this`rows
      ensures Valid() && (r == DuplicateId <==> s.id in old(rows))
      ensures rows == if r == Saved then old(rows)[s.id := s] else old(rows)
    {
      if s.id in rows { return DuplicateId; }
      rows := rows[s.id := s];
      r := Saved;
    }

    /** A new snapshot is saved inactive, so the invariant is kept. */
    method Create(id: string, tenant: string, sdl: string, milliseconds: nat) returns (r: SaveResult)
      requires Valid()
      modifies this`rows
      ensures Valid() && (r == DuplicateId <==> id in old(rows))
      ensures r == DuplicateId ==> rows == old(rows)
      ensures r == Saved ==> rows == old(rows)[id := Snapshot(id, tenant, sdl, false, CreatedSeconds(milliseconds))]
      ensures OneActive(old(rows)) ==> OneActive(rows)
    {
      r := Save(Snapshot(id, tenant, sdl, false, CreatedSeconds(milliseconds)));
    }

    method ActivateSnapshot(id: string) returns (r: ActivateResult)
      requires Valid()
      modifies this`rows
      ensures Valid() && (r == Activated <==> id in old(rows) && old(rows)[id].tenant != "")
      ensures rows == if r == Activated then Activate(old(rows), id) else old(rows)
      ensures OneActive(old(rows)) ==> OneActive(rows)
    {
      var tenant := if id in rows then rows[id].tenant else "";
      if tenant == "" { return TenantNotFound; }
      ActivateMakesUnique(rows, id);
      var off: Rows := map k | k in rows :: if rows[k].tenant == tenant then rows[k].(active := false) else rows[k];
      rows := off[id := off[id].(active := true)];
      assert rows == Activate(old(rows), id);
      r := Activated;
    }

    method List(tenant: string) returns (l: seq<Snapshot>)
      requires Valid()
      ensures IsListing(rows, tenant, l)
    {
      l := [];
      var left := rows.Keys;
      ghost var seen: Rows := map[];
      while left != {}
        invariant left == rows.Keys - seen.Keys
        invariant forall id :: id in seen ==> id in rows && seen[id] == rows[id]
        invariant IsListing(seen, tenant, l)
        decreases |left|
      {
        var id :| id in left;
        left := left - {id};
        l := InsertByAge(seen, tenant, l, rows[id]);
        seen := seen[id := rows[id]];
      }
      assert seen == rows;
    }

    /** The resolver: list, choose, activate, queue the schema for loading. */
    method Rollback(tenant: string) returns (r: RollbackResult, ghost l: seq<Snapshot>)
      requires Valid()
      modifies this
      ensures Valid() && IsListing(old(rows), tenant, l)
      ensures r.RolledBack? <==> |l| >= 2 && RollbackTarget(l) != "" && tenant != ""
      ensures r.NothingPrevious? <==> |l| < 2
      ensures r.NoTarget? <==> |l| >= 2 && RollbackTarget(l) == ""
      ensures r.RolledBack? ==> r.id == RollbackTarget(l) && RollbackStep(old(rows), rows, tenant, l)
      // The schema of the snapshot waits to be loaded, if it has one.
      ensures r.RolledBack? && old(rows)[r.id].sdl != "" ==> pending == Some(Pending(tenant, old(rows)[r.id].sdl))
      ensures r.RolledBack? && old(rows)[r.id].sdl == "" ==> pending == old(pending)
      ensures !r.RolledBack? ==> rows == old(rows) && pending == old(pending)
      ensures OneActive(old(rows)) ==> OneActive(rows)
    {
      var snaps := List(tenant);
      l := snaps;
      if |snaps| < 2 { return NothingPrevious, l; }
      var target := FindTarget(snaps);
      TargetIsInactive(snaps, false);
      if target == "" { return NoTarget, l; }
      ghost var s :| s in snaps && s.id == target;
      var activated := ActivateSnapshot(target);
      if activated != Activated { return ActivationFailed, l; }
      var i := 0;
      while i < |snaps| && !(snaps[i].id == target && snaps[i].sdl != "")
        invariant 0 <= i <= |snaps|
        invariant forall k :: 0 <= k < i ==> !(snaps[k].id == target && snaps[k].sdl != "")
      {
        i := i + 1;
      }
      if i < |snaps| { pending := Some(Pending(tenant, snaps[i].sdl)); }
      r := RolledBack(target);
    }
  }

  lemma OtherTenant(rows: Rows, tenant: string, l: seq<Snapshot>, s: Snapshot)
    requires IsListing(rows, tenant, l) && s.id !in rows && s.tenant != tenant
    ensures IsListing(rows[s.id := s], tenant, l)
  {
    assert forall k :: 0 <= k < |l| ==> OfTenant(rows, tenant, l[k]);
  }

  function Placed(l: seq<Snapshot>, s: Snapshot, i: nat): seq<Snapshot>
    requires i <= |l|
  {
    l[..i] + [s] + l[i..]
  }

  lemma PlacedAt(l: seq<Snapshot>, s: Snapshot, i: nat, k: nat)
    requires i <= |l| && k <= |l|
    ensures Placed(l, s, i)[k] == if k < i then l[k] else if k == i then s else l[k - 1]
  {
  }

  lemma PlacedInOrder(l: seq<Snapshot>, s: Snapshot, i: nat)
    requires NewestFirst(l) && i <= |l| && forall k :: 0 <= k < |l| ==> l[k].id != s.id
    requires forall k :: 0 <= k < i ==> l[k].created >= s.created
    requires i < |l| ==> l[i].created <= s.created
    ensures NewestFirst(Placed(l, s, i))
  {
    var r := Placed(l, s, i);
    forall j, k | 0 <= j < k < |r| ensures r[j].id != r[k].id && r[j].created >= r[k].created {
      PlacedAt(l, s, i, j);
      PlacedAt(l, s, i, k);
      if i < |l| && i < k - 1 { assert l[i].created >= l[k - 1].created; }
    }
  }

  lemma Inserted(rows: Rows, tenant: string, l: seq<Snapshot>, s: Snapshot, i: nat)
    requires IsListing(rows, tenant, l) && s.id !in rows && s.tenant == tenant && i <= |l|
    requires NewestFirst(Placed(l, s, i))
    ensures IsListing(rows[s.id := s], tenant, Placed(l, s, i))
  {
    var r, after := Placed(l, s, i), rows[s.id := s];
    forall k | 0 <= k < |r| ensures OfTenant(after, tenant, r[k]) {
      PlacedAt(l, s, i, k);
      if k < i { assert OfTenant(rows, tenant, l[k]); } else if i < k { assert OfTenant(rows, tenant, l[k - 1]); }
    }
    forall id | id in after && after[id].tenant == tenant ensures Listed(r, id) {
      if id == s.id {
        PlacedAt(l, s, i, i);
        assert r[i].id == id;
      } else {
        assert Listed(l, id);
        var k :| 0 <= k < |l| && l[k].id == id;
        PlacedAt(l, s, i, if k < i then k else k + 1);
        assert r[if k < i then k else k + 1].id == id;
      }
    }
  }

  /** Adds a row to the listing if it is the tenant's; a tie may go either way. */
  method InsertByAge(ghost rows: Rows, tenant: string, l: seq<Snapshot>, s: Snapshot) returns (r: seq<Snapshot>)
    requires IsListing(rows, tenant, l) && s.id !in rows
    ensures IsListing(rows[s.id := s], tenant, r)
  {
    if s.tenant != tenant {
      OtherTenant(rows, tenant, l, s);
      return l;
    }
    var i := 0;
    while i < |l| && l[i].created > s.created
      invariant 0 <= i <= |l|
      invariant forall k :: 0 <= k < i ==> l[k].created > s.created
    {
      i := i + 1;
    }
    r := l[..i] + [s] + l[i..];
    assert forall k :: 0 <= k < |l| ==> OfTenant(rows, tenant, l[k]);
    PlacedInOrder(l, s, i);
    Inserted(rows, tenant, l, s, i);
  }
}
