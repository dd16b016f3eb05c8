/**
 * The client's per-destination queue of idle connections, as
 * `testConnectionQueueDequeue` drives it: a request takes the oldest idle
 * connection to its destination or opens a new one, and closing the
 * response puts the connection back at the tail.
 */
module ConnectionQueue {

  /** Where a connection leads: its identity key. */
  datatype Destination = Destination(scheme: string, host: string, port: nat)

  /** A transport connection; two connections are the same only if they are the same object. */
  class ClientConnection {
    const destination: Destination

    constructor (destination: Destination)
      ensures this.destination == destination
    {
      this.destination := destination;
    }
  }

  predicate Distinct(q: seq<ClientConnection>)
  {
    forall i, j :: 0 <= i < j < |q| ==> q[i] != q[j]
  }

  class ConnectionCache {
    /** The idle connections of each destination, oldest first. */
    var queues: map<Destination, seq<ClientConnection>>
    /** The connections currently held by a request. */
    ghost var inUse: set<ClientConnection>

    /**
     * A queued connection leads to its queue's destination (so it sits in
     * no other queue), appears once, and is not held by a request.
     */
    ghost predicate Valid()
      reads this
    {
      forall d | d in queues ::
        Distinct(queues[d]) && forall c | c in queues[d] :: c.destination == d && c !in inUse
    }

    function Idle(d: Destination): seq<ClientConnection>
      reads this
    {
      if d in queues then queues[d] else []
    }

    constructor ()
      ensures Valid() && queues == map[] && inUse == {}
    {
      queues := map[];
      inUse := {};
    }

    /**
     * `getConnection(true)`: dequeue the oldest idle connection to `d`, or
     * open a new one when there is none. Either way the caller now holds it
     * alone.
     */
    method Acquire(d: Destination) returns (c: ClientConnection)
      requires Valid()
      modifies this
      ensures Valid()
      ensures c.destination == d
      ensures c !in old(inUse) && inUse == old(inUse) + {c}
      ensures old(Idle(d)) != [] ==> c == old(Idle(d))[0] && queues == old(queues)[d := old(Idle(d))[1..]]
      ensures old(Idle(d)) == [] ==> fresh(c) && queues == old(queues)
    {
      if d in queues && queues[d] != [] {
        c := queues[d][0];
        queues := queues[d := queues[d][1..]];
      } else {
        c := new ClientConnection(d);
      }
      inUse := inUse + {c};
    }

    /** `response.close()`: the connection goes back to the tail of its destination's queue. */
    method Release(c: ClientConnection)
      requires Valid() && c in inUse
      modifies this
      ensures Valid()
      ensures queues == old(queues)[c.destination := old(Idle(c.destination)) + [c]]
      ensures inUse == old(inUse) - {c}
    {
      var d := c.destination;
      var q := Idle(d);
      queues := queues[d := q + [c]];
      inUse := inUse - {c};
    }
  }

  /**
   * The loop of `testConnectionQueueDequeue`: each round acquires a
   * connection, sends the request and closes the response. When the
   * destination has at most one idle connection to begin with, every round
   * after the first gets the connection the previous round released.
   */
  method RequestRounds(cache: ConnectionCache, d: Destination, rounds: nat) returns (used: seq<ClientConnection>)
    requires cache.Valid() && |cache.Idle(d)| <= 1
    modifies cache
    ensures cache.Valid()
    ensures |used| == rounds
    ensures forall i :: 0 < i < rounds ==> used[i] == used[i - 1]
    ensures rounds > 0 && old(cache.Idle(d)) != [] ==> used[0] == old(cache.Idle(d))[0]
    ensures rounds > 0 && old(cache.Idle(d)) == [] ==> fresh(used[0])
    ensures rounds > 0 ==> cache.queues == old(cache.queues)[d := [used[0]]]
    ensures rounds == 0 ==> cache.queues == old(cache.queues)
    ensures cache.inUse == old(cache.inUse)
  {
    used := [];
    var i := 0;
    while i < rounds
      invariant 0 <= i <= rounds && |used| == i
      invariant cache.Valid() && cache.inUse == old(cache.inUse)
      invariant forall j :: 0 <= j < i ==> used[j] == used[0]
      invariant i > 0 && old(cache.Idle(d)) != [] ==> used[0] == old(cache.Idle(d))[0]
      invariant i > 0 && old(cache.Idle(d)) == [] ==> fresh(used[0])
      invariant i == 0 ==> cache.queues == old(cache.queues)
      invariant i > 0 ==> cache.queues == old(cache.queues)[d := [used[0]]]
    {
      ghost var before := cache.queues;
      var connectionNow := cache.Acquire(d);
      ghost var taken := cache.queues;
      assert cache.Idle(d) == [] && cache.Idle(d) + [connectionNow] == [connectionNow];
      assert taken == before || taken == before[d := []];
      cache.Release(connectionNow);
      assert cache.queues == taken[d := [connectionNow]];
      assert cache.queues == before[d := [connectionNow]];
      used := used + [connectionNow];
      i := i + 1;
    }
  }
}
