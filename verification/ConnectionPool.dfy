/** The pool of agent connections: one client per endpoint, and nothing built is
ever lost or closed twice.

GetClientAttempt, RemoveClient, HealthCheckResult, CloseWrapper and Close are
each one section that the source runs under the pool's mutex, so every
interleaving of callers is a sequence of these calls.  GetClient is several
sections, between which `Others` lets other callers in; HealthCheckClient is a
lookup followed by HealthCheckResult.
*/
module ConnectionPool {
  import opened Replica

  const MAX_RETRIES := 3

  function Min(a: int, b: int): int { if a < b then a else b }

  /** Clients are numbered in the order they are built. */
  datatype PooledClient = PooledClient(client: nat, usageCount: nat, inUse: bool, refCount: int)

  datatype Metrics = Metrics(
    total: nat, successful: nat, failed: nat, reuses: nat, passes: nat, failures: nat, retries: nat)

  type Clients = map<string, PooledClient>

  ghost predicate OneEndpointEach(clients: Clients)
  {
    forall e, e' :: e in clients && e' in clients && clients[e].client == clients[e'].client ==> e == e'
  }

  ghost predicate Pooled(clients: Clients, id: nat)
  {
    exists e :: e in clients && clients[e].client == id
  }

  /** Every client built so far is the entry of one endpoint, or has been closed exactly once. */
  ghost predicate Conserved(clients: Clients, built: nat, closed: multiset<nat>)
  {
    && OneEndpointEach(clients)
    && (forall e :: e in clients ==> clients[e].client < built)
    && (forall id: nat :: closed[id] == if id < built && !Pooled(clients, id) then 1 else 0)
  }

  /** Every entry was there before with the same client, or has a client built since. */
  ghost predicate OnlyNewer(before: Clients, built: nat, clients: Clients)
  {
    forall e :: e in clients ==> clients[e].client >= built || (e in before && before[e].client == clients[e].client)
  }

  /** No other endpoint has the client. */
  ghost predicate OnlyAt(clients: Clients, endpoint: string, id: nat)
  {
    forall e :: e in clients && clients[e].client == id ==> e == endpoint
  }

  /** A client is never moved to another endpoint: it stays at its own or is closed. */
  lemma StaysOrCloses(clients: Clients, built: nat, closed: multiset<nat>, endpoint: string, id: nat)
    requires Conserved(clients, built, closed) && id < built && OnlyAt(clients, endpoint, id)
    ensures (endpoint in clients && clients[endpoint].client == id) || closed[id] == 1
  {
    if Pooled(clients, id) {
      var e :| e in clients && clients[e].client == id;
      assert e == endpoint;
    }
  }

  lemma ClosedOne(clients: Clients, built: nat, closed: multiset<nat>, e: string)
    requires Conserved(clients, built, closed) && e in clients
    ensures Conserved(clients - {e}, built, closed + multiset{clients[e].client})
  {
    var rest, id := clients - {e}, clients[e].client;
    assert Pooled(clients, id);
    assert !Pooled(rest, id);
    forall i: nat | i != id ensures Pooled(rest, i) <==> Pooled(clients, i) {
      if Pooled(clients, i) {
        var e' :| e' in clients && clients[e'].client == i;
        assert e' in rest && rest[e'].client == i;
      }
    }
  }

  lemma BuiltAndClosed(clients: Clients, built: nat, closed: multiset<nat>)
    requires Conserved(clients, built, closed)
    ensures Conserved(clients, built + 1, closed + multiset{built})
  {
    assert !Pooled(clients, built);
  }

  lemma BuiltAndPooled(clients: Clients, built: nat, closed: multiset<nat>, e: string, p: PooledClient)
    requires Conserved(clients, built, closed) && e !in clients && p.client == built
    ensures Conserved(clients[e := p], built + 1, closed)
  {
    var more := clients[e := p];
    assert more[e].client == built && Pooled(more, built);
    forall i: nat | i != built ensures Pooled(more, i) <==> Pooled(clients, i) {
      if Pooled(clients, i) {
        var e' :| e' in clients && clients[e'].client == i;
        assert e' in more && more[e'].client == i;
      }
    }
  }

  lemma SameClient(clients: Clients, built: nat, closed: multiset<nat>, e: string, p: PooledClient)
    requires Conserved(clients, built, closed) && e in clients && p.client == clients[e].client
    ensures Conserved(clients[e := p], built, closed)
  {
    var same := clients[e := p];
    forall i: nat ensures Pooled(same, i) <==> Pooled(clients, i) {
      if Pooled(clients, i) {
        var e' :| e' in clients && clients[e'].client == i;
        assert e' in same && same[e'].client == i;
      }
      if Pooled(same, i) {
        var e' :| e' in same && same[e'].client == i;
        assert e' in clients && clients[e'].client == i;
      }
    }
  }

  class Pool {
    var clients: Clients
    var metrics: Metrics
    var stopped: bool
    var built: nat
    ghost var closed: multiset<nat>
    /** How often a client just handed out failed its first check. */
    ghost var rechecks: nat

    /** Every section that looks for a client counts as a dial or as a reuse. */
    ghost function Attempts(): nat
      reads this
    {
      metrics.total + metrics.reuses
    }

    ghost predicate Valid()
      reads this
    {
      Conserved(clients, built, closed) && metrics.total == metrics.successful + metrics.failed
    }

    constructor ()
      ensures Valid() && clients == map[] && built == 0 && !stopped && Attempts() == 0
    {
      clients, metrics, stopped, built := map[], Metrics(0, 0, 0, 0, 0, 0, 0), false, 0;
      closed, rechecks := multiset{}, 0;
    }

    method CloseAndForget(endpoint: string)
      requires Valid() && endpoint in clients
      modifies `clients, `closed
      ensures Valid() && clients == old(clients) - {endpoint}
      ensures closed == old(closed) + multiset{old(clients)[endpoint].client}
    {
      ClosedOne(clients, built, closed, endpoint);
      closed := closed + multiset{clients[endpoint].client};
      clients := clients - {endpoint};
    }

    /** Build a client for an endpoint that has none; building or initialising it may fail. */
    method Dial(endpoint: string) returns (r: Option<nat>)
      requires Valid() && endpoint !in clients
      modifies `clients, `metrics, `built, `closed
      ensures Valid() && built >= old(built)
      ensures Attempts() == old(Attempts()) + 1 && metrics.total == old(metrics.total) + 1
      ensures metrics.retries == old(metrics.retries)
      ensures r.None? ==> clients == old(clients) && metrics.failed == old(metrics.failed) + 1
      ensures r.Some? ==>
              r.value == old(built) && clients == old(clients)[endpoint := PooledClient(r.value, 1, true, 1)]
    {
      metrics := metrics.(total := metrics.total + 1);
      var dialled: bool := *;
      if !dialled {
        metrics := metrics.(failed := metrics.failed + 1);
        return None;
      }
      var id := built;
      built := built + 1;
      var initialised: bool := *;
      if !initialised {
        metrics := metrics.(failed := metrics.failed + 1);
        BuiltAndClosed(clients, id, closed);
        closed := closed + multiset{id};
        return None;
      }
      BuiltAndPooled(clients, id, closed, endpoint, PooledClient(id, 1, true, 1));
      clients := clients[endpoint := PooledClient(id, 1, true, 1)];
      metrics := metrics.(successful := metrics.successful + 1);
      return Some(id);
    }

    /** `connected` is what the endpoint's pooled client answers when asked whether it is connected. */
    method GetClientAttempt(endpoint: string, connected: bool) returns (r: Option<nat>)
      requires Valid()
      modifies `clients, `metrics, `built, `closed
      ensures Valid() && built >= old(built)
      ensures Attempts() == old(Attempts()) + 1 && metrics.retries == old(metrics.retries)
      ensures r.Some? ==> endpoint in clients && clients[endpoint].client == r.value
      ensures connected && endpoint in old(clients) ==>
              var was := old(clients)[endpoint];
              && r == Some(was.client) && built == old(built) && closed == old(closed)
              && clients[endpoint] ==
                   was.(usageCount := was.usageCount + 1, inUse := true, refCount := was.refCount + 1)
      ensures !(connected && endpoint in old(clients)) ==>
              && (endpoint in old(clients) ==> closed[old(clients)[endpoint].client] == 1)
              && (r.Some? ==> r.value == old(built) && clients[endpoint] == PooledClient(r.value, 1, true, 1))
      ensures r.None? ==> endpoint !in clients
      ensures OnlyNewer(old(clients), old(built), clients)
      ensures forall e :: e != endpoint ==> (e in clients <==> e in old(clients))
      ensures forall e :: e != endpoint && e in clients ==> clients[e] == old(clients)[e]
    {
      if endpoint in clients {
        var pooled := clients[endpoint];
        if connected {
          var p := pooled.(usageCount := pooled.usageCount + 1, inUse := true, refCount := pooled.refCount + 1);
          SameClient(clients, built, closed, endpoint, p);
          clients := clients[endpoint := p];
          metrics := metrics.(reuses := metrics.reuses + 1);
          return Some(pooled.client);
        }
        CloseAndForget(endpoint);
        assert !Pooled(clients, pooled.client);
      }
      r := Dial(endpoint);
    }

    /** Any sections that other callers run. */
    method Others()
      requires Valid()
      modifies this
      ensures Valid() && built >= old(built) && OnlyNewer(old(clients), old(built), clients)
      ensures Attempts() >= old(Attempts()) && metrics.retries >= old(metrics.retries) && rechecks == old(rechecks)
    {
      var count :| count >= 0;
      for i := 0 to count
        invariant Valid() && built >= old(built) && OnlyNewer(old(clients), old(built), clients)
        invariant Attempts() >= old(Attempts()) && metrics.retries >= old(metrics.retries) && rechecks == old(rechecks)
      {
        var section: int, endpoint: string, flag: bool := *, *, *;
        if section == 0 {
          var _ := GetClientAttempt(endpoint, flag);
        } else if section == 1 {
          RemoveClient(endpoint);
        } else if section == 2 {
          HealthCheckResult(endpoint, flag);
        } else if section == 3 {
          CloseWrapper(endpoint);
        } else {
          Close();
        }
      }
    }

    /** One attempt, with other callers before and after it. */
    method Ask(endpoint: string) returns (r: Option<nat>)
      requires Valid()
      modifies this
      ensures Valid() && built >= old(built) && Attempts() >= old(Attempts()) + 1
      ensures metrics.retries >= old(metrics.retries) && rechecks == old(rechecks)
      ensures r.Some? ==> r.value < built && OnlyAt(clients, endpoint, r.value)
    {
      Others();
      var alive: bool := *;
      r := GetClientAttempt(endpoint, alive);
      assert r.Some? ==> r.value < built && OnlyAt(clients, endpoint, r.value);
      Others();
    }

    /** A client that fails its first check is removed, and other callers go on. */
    method GiveUp(endpoint: string, id: nat)
      requires Valid() && id < built && OnlyAt(clients, endpoint, id)
      modifies this
      ensures Valid() && built >= old(built) && Attempts() >= old(Attempts())
      ensures metrics.retries >= old(metrics.retries) && rechecks == old(rechecks) + 1
      ensures !Pooled(clients, id) && closed[id] == 1
    {
      RemoveClient(endpoint);
      rechecks := rechecks + 1;
      assert forall e :: e in clients ==> clients[e].client != id;
      Others();
    }

    /** Up to three attempts, with other callers in between.  A client that fails its first check is
    removed; after the last attempt it is handed out all the same. */
    method GetClient(endpoint: string) returns (r: Option<nat>)
      requires Valid()
      modifies this
      ensures Valid()
      ensures Attempts() >= old(Attempts()) + if r.Some? then 1 else 3
      ensures r.None? ==> metrics.retries + rechecks >= old(metrics.retries + rechecks) + 2
      ensures rechecks <= old(rechecks) + 3
      ensures rechecks == old(rechecks) + 3 ==> r.Some? && closed[r.value] == 1
      ensures r.Some? ==> r.value < built
      ensures r.Some? ==> (endpoint in clients && clients[endpoint].client == r.value) || closed[r.value] == 1
    {
      for attempt := 1 to MAX_RETRIES + 1
        invariant Valid() && Attempts() >= old(Attempts()) + attempt - 1
        invariant metrics.retries + rechecks >= old(metrics.retries + rechecks) + Min(attempt - 1, 2)
        invariant rechecks <= old(rechecks) + attempt - 1 && (attempt > MAX_RETRIES ==> rechecks < old(rechecks) + 3)
      {
        r := Ask(endpoint);
        if r.Some? {
          var connected: bool := *;
          if !connected {
            GiveUp(endpoint, r.value);
            if attempt < MAX_RETRIES { continue; }
            return;
          }
          StaysOrCloses(clients, built, closed, endpoint, r.value);
          return;
        }
        if attempt < MAX_RETRIES { metrics := metrics.(retries := metrics.retries + 1); }
      }
      r := None;
    }

    method RemoveClient(endpoint: string)
      requires Valid()
      modifies `clients, `closed
      ensures Valid() && clients == old(clients) - {endpoint}
      ensures closed == if endpoint in old(clients) then old(closed) + multiset{old(clients)[endpoint].client}
                        else old(closed)
    {
      if endpoint in clients { CloseAndForget(endpoint); }
    }

    /** Runs after the lookup has released the lock, so it may remove a newer client than the one it saw. */
    method HealthCheckResult(endpoint: string, connected: bool)
      requires Valid()
      modifies `clients, `closed, `metrics
      ensures Valid()
      ensures clients == if connected then old(clients) else old(clients) - {endpoint}
      ensures metrics == if connected then old(metrics).(passes := old(metrics).passes + 1)
                         else old(metrics).(failures := old(metrics).failures + 1)
    {
      if !connected {
        metrics := metrics.(failures := metrics.failures + 1);
        RemoveClient(endpoint);
      } else {
        metrics := metrics.(passes := metrics.passes + 1);
      }
    }

    /** Closing a wrapper gives back a reference; the client itself stays open. */
    method CloseWrapper(endpoint: string)
      requires Valid()
      modifies `clients
      ensures Valid() && clients.Keys == old(clients).Keys
      ensures endpoint in clients ==>
                var was := old(clients)[endpoint];
                clients == old(clients)[endpoint := was.(refCount := was.refCount - 1,
                                                         inUse := was.inUse && was.refCount > 1)]
      ensures endpoint !in clients ==> clients == old(clients)
    {
      if endpoint in clients {
        var p := clients[endpoint].(refCount := clients[endpoint].refCount - 1);
        if p.refCount <= 0 { p := p.(inUse := false); }
        SameClient(clients, built, closed, endpoint, p);
        clients := clients[endpoint := p];
      }
    }

    /** The first call closes every pooled client; later calls do nothing. */
    method Close()
      requires Valid()
      modifies `clients, `closed, `stopped
      ensures Valid() && stopped
      ensures clients == if old(stopped) then old(clients) else map[]
      ensures !old(stopped) ==> forall id: nat :: id < built ==> closed[id] == 1
    {
      if stopped { return; }
      stopped := true;
      var left := clients.Keys;
      while left != {}
        invariant Valid() && stopped && clients.Keys == left
        decreases |left|
      {
        var endpoint :| endpoint in left;
        CloseAndForget(endpoint);
        left := left - {endpoint};
      }
      assert clients == map[];
    }
  }
}
