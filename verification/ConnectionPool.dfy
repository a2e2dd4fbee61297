/**
 * The connection pool.  An acquire is counted when it arrives and decided
 * later, under the lock: either its wait condition holds and it is granted a
 * connection (or opening one fails), or its time is up with the condition
 * false.  Any interleaving of clients is a sequence of these steps and of
 * returns.  A connection is known by its handle.
 */
module ConnectionPool {
  import opened Wrappers

  datatype AcquireResult<C> = Acquired(connection: C) | PoolExhausted | ConnectionFailed

  class ConnectionPool<C(==)> {
    const maxConnections: nat
    var available: seq<C>
    var activeConnections: nat
    var totalCreated: nat
    var totalRequests: nat
    var poolHits: nat

    /** History: who holds what, and how the requests so far ended. */
    ghost var held: set<C>
    ghost var waiting: nat
    ghost var granted: nat
    ghost var refused: nat

    /** Every open connection is held by one client or waits in the queue once. */
    ghost predicate Conserved()
      reads this
    {
      && activeConnections == |held|
      && NoRepeats(available) && (forall c :: c in available ==> c !in held)
      && activeConnections + |available| == totalCreated <= maxConnections
    }

    ghost predicate Valid()
      reads this
    {
      && Conserved()
      && granted == poolHits + totalCreated
      && totalRequests == waiting + granted + refused
    }

    constructor (max: nat)
      ensures Valid() && maxConnections == max && held == {} && available == [] && totalCreated == totalRequests == 0
    {
      maxConnections := max;
      available, activeConnections, totalCreated, totalRequests, poolHits := [], 0, 0, 0, 0;
      held, waiting, granted, refused := {}, 0, 0, 0;
    }

    method Arrive()
      requires Valid()
      modifies this`totalRequests, this`waiting
      ensures Valid() && totalRequests == old(totalRequests) + 1 && waiting == old(waiting) + 1
    {
      totalRequests := totalRequests + 1;
      waiting := waiting + 1;
    }

    /**
     * The decision of a waiting acquire; `handle` is what opening a database
     * connection would yield, a handle that is not in use.
     */
    method Decide(handle: Option<C>) returns (r: AcquireResult<C>)
      requires Valid() && waiting > 0
      requires handle.Some? ==> handle.value !in held && handle.value !in available
      modifies this
      ensures Valid() && totalRequests == old(totalRequests) && waiting == old(waiting) - 1
      // A client is refused exactly when all the connections there may be are held.
      ensures r.PoolExhausted? <==> |old(held)| == maxConnections
      // The longest waiting connection is reused; one is opened only when none waits.
      ensures |old(held)| < maxConnections && old(available) != [] ==>
                && r == Acquired(old(available)[0]) && available == old(available)[1..]
                && totalCreated == old(totalCreated)
      ensures |old(held)| < maxConnections && old(available) == [] && handle.Some? ==>
                r == Acquired(handle.value) && available == [] && totalCreated == old(totalCreated) + 1
      ensures r.ConnectionFailed? <==> |old(held)| < maxConnections && old(available) == [] && handle.None?
      // Nobody else holds what is granted.
      ensures r.Acquired? ==> r.connection !in old(held) && held == old(held) + {r.connection}
      ensures r.Acquired? ==> granted == old(granted) + 1 && refused == old(refused)
      // A refusal or a failure to open leaves the pool as it was.
      ensures !r.Acquired? ==> held == old(held) && available == old(available) && refused == old(refused) + 1
      ensures !r.Acquired? ==> totalCreated == old(totalCreated) && poolHits == old(poolHits) && granted == old(granted)
    {
      waiting := waiting - 1;
      assert old(available) != [] ==> old(available)[0] in old(available);
      if !(available != [] || activeConnections < maxConnections) {
        refused := refused + 1;
        return PoolExhausted;
      }
      var connection: C;
      if available != [] {
        connection := available[0];
        TailNoRepeats(available);
        available := available[1..];
        poolHits := poolHits + 1;
      } else {
        if handle.None? {
          refused := refused + 1;
          return ConnectionFailed;
        }
        connection := handle.value;
        totalCreated := totalCreated + 1;
      }
      activeConnections := activeConnections + 1;
      held := held + {connection};
      granted := granted + 1;
      r := Acquired(connection);
    }

    /** The connection always joins the queue: neither guard ever fails. */
    method ReturnConnection(connection: C)
      requires Valid() && connection in held
      modifies this
      ensures Valid() && held == old(held) - {connection} && available == old(available) + [connection]
      ensures activeConnections == old(activeConnections) - 1 && totalCreated == old(totalCreated)
      ensures totalRequests == old(totalRequests) && waiting == old(waiting) && granted == old(granted)
    {
      if activeConnections > 0 {
        activeConnections := activeConnections - 1;
      }
      if |available| < maxConnections {
        available := available + [connection];
      }
      held := held - {connection};
    }
  }

  lemma TailNoRepeats<C>(s: seq<C>)
    requires NoRepeats(s) && s != []
    ensures NoRepeats(s[1..]) && s[0] !in s[1..] && forall c :: c in s[1..] ==> c in s
  {
  }
}
