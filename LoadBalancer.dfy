/** The balancer object: the fields of LoadBalancer.h, updated in place. Each
    method is proved against the value-level policy of module Pool, applied to
    the states of the servers it owns. */
module Balancer {
  import opened Requests
  import opened Servers
  import opened Queues
  import opened Pool

  /** The states of a sequence of server objects, in order. */
  function States(ss: seq<WebServer>): (r: seq<Server>)
    reads ss
    ensures |r| == |ss| && forall i :: 0 <= i < |ss| ==> r[i] == ss[i].State()
  {
    if ss == [] then [] else [ss[0].State()] + States(ss[1..])
  }

  /** Each server object holds a state fit for the slot it sits in. */
  ghost predicate Slotted(ss: seq<WebServer>)
    reads ss
  {
    forall i :: 0 <= i < |ss| ==> InSlot(ss[i].State(), i)
  }

  lemma SlottedIsPoolWf(ss: seq<WebServer>)
    ensures Slotted(ss) <==> PoolWf(States(ss))
  {
  }

  predicate Distinct(ss: seq<WebServer>)
  {
    forall i, j :: 0 <= i < j < |ss| ==> ss[i] != ss[j]
  }

  lemma StatesAppend(ss: seq<WebServer>, s: WebServer)
    ensures States(ss + [s]) == States(ss) + [s.State()]
  {
    assert forall i :: 0 <= i < |ss| ==> (ss + [s])[i] == ss[i];
  }

  lemma DistinctAppend(ss: seq<WebServer>, s: WebServer)
    requires Distinct(ss) && s !in ss
    ensures Distinct(ss + [s])
  {
    assert forall i :: 0 <= i < |ss| ==> (ss + [s])[i] == ss[i];
  }

  class LoadBalancer {
    var servers: seq<WebServer>
    const requestQueue: RequestQueue
    var nextServerIndex: nat
    var totalRequestsProcessed: int
    var totalProcessingTime: int
    const maxServers: int
    const minServers: int
    const loadThreshold: real

    /** The servers as values. */
    function Pool(): seq<Server>
      reads this, servers
    {
      States(servers)
    }

    /** The balancer owns a default-sized admission queue and distinct
        servers, each in the slot addServer put it in; the pool never exceeds
        its maximum; the queue's running totals account for every request
        still queued, since the balancer never clears it; totalProcessingTime
        is never updated after construction. */
    ghost predicate Valid()
      reads this, servers, requestQueue
    {
      && requestQueue.Valid() && requestQueue.maxSize == DefaultMaxSize
      && requestQueue.Balanced()
      && Distinct(servers)
      && Slotted(servers)
      && (|servers| == 0 || |servers| <= maxServers)
      && totalProcessingTime == 0
    }

    constructor ()
      ensures Valid() && fresh(requestQueue)
      ensures Pool() == FreshPool(1)
      ensures maxServers == 20 && minServers == 1 && loadThreshold == 0.8
      ensures nextServerIndex == 0 && totalRequestsProcessed == 0
      ensures requestQueue.requestQueue == [] && requestQueue.blockedIPs == []
      ensures requestQueue.totalRequestsAdded == 0 && requestQueue.totalRequestsRemoved == 0
    {
      nextServerIndex, totalRequestsProcessed, totalProcessingTime := 0, 0, 0;
      maxServers, minServers, loadThreshold := 20, 1, 0.8;
      requestQueue := new RequestQueue();
      servers := [];
      new;
      var _ := AddServer();
    }

    /** The constructor with limits: addServer is called initialServers
        times and fails once the pool holds maxServerCount servers. */
    constructor Configured(initialServers: int, maxServerCount: int, minServerCount: int, threshold: real)
      ensures Valid() && fresh(requestQueue)
      ensures Pool() == FreshPool(if initialServers <= 0 || maxServerCount <= 0 then 0 else Min(initialServers, maxServerCount))
      ensures maxServers == maxServerCount && minServers == minServerCount && loadThreshold == threshold
      ensures nextServerIndex == 0 && totalRequestsProcessed == 0
      ensures requestQueue.requestQueue == [] && requestQueue.blockedIPs == []
      ensures requestQueue.totalRequestsAdded == 0 && requestQueue.totalRequestsRemoved == 0
    {
      nextServerIndex, totalRequestsProcessed, totalProcessingTime := 0, 0, 0;
      maxServers, minServers, loadThreshold := maxServerCount, minServerCount, threshold;
      requestQueue := new RequestQueue();
      servers := [];
      new;
      var i := 0;
      while i < initialServers
        invariant Valid()
        invariant 0 <= i && (i == 0 || i <= initialServers)
        invariant Pool() == FreshPool(|servers|)
        invariant |servers| == if maxServerCount <= 0 then 0 else Min(i, maxServerCount)
        invariant requestQueue.requestQueue == [] && requestQueue.blockedIPs == []
        invariant requestQueue.totalRequestsAdded == 0 && requestQueue.totalRequestsRemoved == 0
        invariant nextServerIndex == 0 && totalRequestsProcessed == 0
      {
        ghost var n := |servers|;
        var added := AddServer();
        assert Pool() == FreshPool(|servers|) by {
          if added {
            assert FreshPool(n + 1) == FreshPool(n) + [NewPoolServer(n + 1)];
          }
        }
        i := i + 1;
      }
    }

    /** A server of capacity 5 joins at the end with the next identity,
        unless the pool is at its maximum. */
    method AddServer() returns (added: bool)
      requires Valid()
      modifies this
      ensures Valid()
      ensures added == (old(|servers|) < maxServers)
      ensures Pool() == if added then old(Pool()) + [NewPoolServer(old(|servers|) + 1)] else old(Pool())
      ensures nextServerIndex == old(nextServerIndex) && totalRequestsProcessed == old(totalRequestsProcessed)
      ensures old(servers) <= servers && |servers| == old(|servers|) + (if added then 1 else 0)
    {
      if |servers| >= maxServers {
        return false;
      }
      var serverID := |servers| + 1;
      ghost var P := Pool();
      SlottedIsPoolWf(servers);
      AppendKeepsSlots(P);
      var server := new WebServer.WithIdentity(serverID, ServerIP(serverID), PoolCapacity);
      assert server.State() == NewPoolServer(serverID);
      assert server !in servers && Pool() == P;
      StatesAppend(servers, server);
      DistinctAppend(servers, server);
      ghost var grown := States(servers + [server]);
      assert grown == P + [NewPoolServer(serverID)];
      servers := servers + [server];
      assert Pool() == grown;
      SlottedIsPoolWf(servers);
      return true;
    }

    /** The last server leaves, with whatever it still holds, unless the pool
        is at its minimum. Removing from an empty pool is undefined in the
        source, so the pool must be non-empty when the minimum is negative. */
    method RemoveServer() returns (removed: bool)
      requires Valid()
      requires |servers| > 0 || minServers >= 0
      modifies this
      ensures Valid()
      ensures removed == (old(|servers|) > minServers)
      ensures Pool() == if removed then old(Pool())[..old(|servers|) - 1] else old(Pool())
      ensures servers <= old(servers)
      ensures nextServerIndex == old(nextServerIndex) && totalRequestsProcessed == old(totalRequestsProcessed)
    {
      if |servers| <= minServers {
        return false;
      }
      servers := servers[..|servers| - 1];
      assert Pool() == old(Pool())[..old(|servers|) - 1];
      return true;
    }

    /** processCycle: every active server advances one cycle, the queue is
        distributed, the pool is scaled, and the completions of the servers'
        cycles are added to the running total and returned. `now` is the
        clock reading a default request would be stamped with. */
    method ProcessCycle(now: TimePoint) returns (totalCompleted: int)
      requires Valid()
      modifies this, requestQueue, servers
      ensures Valid()
      ensures var c := BalancerCycle(old(Pool()), old(requestQueue.requestQueue), old(nextServerIndex),
                                     loadThreshold, minServers, maxServers);
        && Pool() == c.pool && requestQueue.requestQueue == c.queue && nextServerIndex == c.cursor
        && totalCompleted == c.completed
        && totalRequestsProcessed == old(totalRequestsProcessed) + c.completed
      ensures requestQueue.blockedIPs == old(requestQueue.blockedIPs)
      ensures requestQueue.totalRequestsAdded == old(requestQueue.totalRequestsAdded)
      ensures requestQueue.totalRequestsRemoved
           == old(requestQueue.totalRequestsRemoved) + (old(|requestQueue.requestQueue|) - |requestQueue.requestQueue|)
    {
      ghost var Q, c := requestQueue.requestQueue, nextServerIndex;
      totalCompleted := AdvanceServers();
      ghost var advanced := Pool();
      DistributeRequests(now);
      ghost var d := Dispatch(advanced, Q, c, 2 * |advanced|);
      assert Pool() == d.pool && requestQueue.requestQueue == d.queue;
      CheckLoadBalancing();
      ghost var scaled := Pool();
      totalRequestsProcessed := totalRequestsProcessed + totalCompleted;
      assert Pool() == scaled;
    }

    /** The first loop of processCycle: each active server runs its own
        processCycle, and the completions are added up. */
    method AdvanceServers() returns (totalCompleted: int)
      requires Valid()
      modifies servers
      ensures Valid() && unchanged(this, requestQueue)
      ensures Pool() == AdvanceAll(old(Pool()))
      ensures totalCompleted == CompletedSum(old(Pool()))
    {
      ghost var P := Pool();
      totalCompleted := 0;
      for i := 0 to |servers|
        invariant Valid() && |servers| == |P|
        invariant Pool() == AdvanceAll(P[..i]) + P[i..]
        invariant totalCompleted + CompletedSum(P[i..]) == CompletedSum(P)
      {
        assert P[i..][1..] == P[i + 1..];
        var completed := AdvanceOne(i);
        totalCompleted := totalCompleted + completed;
        AdvanceAllStep(P, i);
      }
      assert P[..|P|] == P && P[|P|..] == [];
    }

    /** One step of that loop: server i runs its processCycle if it is
        active; the others are untouched. */
    method AdvanceOne(i: nat) returns (completed: int)
      requires Valid() && i < |servers|
      modifies servers[i]
      ensures Valid()
      ensures Pool() == old(Pool())[i := Cycle(old(Pool())[i])]
      ensures completed == Completed(old(Pool())[i])
    {
      ghost var P := Pool();
      SlottedIsPoolWf(servers);
      CycleKeepsSlots(P, i);
      var server := servers[i];
      assert server.State() == P[i] && InSlot(P[i], i);
      completed := 0;
      if server.isActive {
        completed := server.ProcessCycle();
      }
      assert server.State() == Cycle(P[i]) && completed == Completed(P[i]);
      assert forall j :: 0 <= j < |servers| && j != i ==> servers[j].State() == P[j];
      assert Pool() == P[i := Cycle(P[i])];
      SlottedIsPoolWf(servers);
    }

    /** checkLoadBalancing: the utilization is measured once; a server is
        added when it is above the threshold or more than 10 requests wait,
        and the last server is removed when utilization is below 5 % of the
        threshold, nothing waits and more than minServers + 3 remain. */
    method CheckLoadBalancing()
      requires Valid()
      modifies this
      ensures Valid()
      ensures Pool() == Scale(old(Pool()), |requestQueue.requestQueue|, loadThreshold, minServers, maxServers)
      ensures nextServerIndex == old(nextServerIndex) && totalRequestsProcessed == old(totalRequestsProcessed)
    {
      if |servers| == 0 {
        return;
      }
      var avgUtilization := GetSystemUtilization();
      avgUtilization := avgUtilization / 100.0;
      var queueSize := GetQueueSize();
      if (avgUtilization > loadThreshold || queueSize > GrowQueueLength) && |servers| < maxServers {
        var _ := AddServer();
      }
      if avgUtilization < loadThreshold * ShrinkFraction && queueSize == 0 && |servers| > minServers + ShrinkMargin {
        var _ := RemoveServer();
      }
    }

    /** distributeRequests: at most two attempts per server, each of which
        hands the queue head to the server the round-robin scan picks, or ends
        the distribution when no server can accept. `now` is the clock reading
        the queue would stamp on a default request; the queue is never empty
        when it is popped here. */
    method DistributeRequests(now: TimePoint)
      requires Valid()
      modifies this, requestQueue, servers
      ensures Valid() && servers == old(servers)
      ensures var d := Dispatch(old(Pool()), old(requestQueue.requestQueue), old(nextServerIndex), 2 * |servers|);
        Pool() == d.pool && requestQueue.requestQueue == d.queue && nextServerIndex == d.cursor
      ensures requestQueue.blockedIPs == old(requestQueue.blockedIPs)
      ensures requestQueue.totalRequestsAdded == old(requestQueue.totalRequestsAdded)
      ensures requestQueue.totalRequestsRemoved
           == old(requestQueue.totalRequestsRemoved) + (old(|requestQueue.requestQueue|) - |requestQueue.requestQueue|)
      ensures totalRequestsProcessed == old(totalRequestsProcessed)
    {
      if requestQueue.IsEmpty() || |servers| == 0 {
        return;
      }
      ghost var D := Dispatch(Pool(), requestQueue.requestQueue, nextServerIndex, 2 * |servers|);
      // The distribution so far, as values, and the attempts it has left.
      ghost var pool, queue, cursor, left := Pool(), requestQueue.requestQueue, nextServerIndex, 2 * |servers|;
      var attempts := 0;
      var maxAttempts := |servers| * 2;
      while !requestQueue.IsEmpty() && attempts < maxAttempts
        invariant Valid() && servers == old(servers)
        invariant 0 <= attempts <= maxAttempts == 2 * |servers| && left == maxAttempts - attempts
        invariant Pool() == pool && requestQueue.requestQueue == queue && nextServerIndex == cursor
        invariant Dispatch(pool, queue, cursor, left) == D
        invariant requestQueue.blockedIPs == old(requestQueue.blockedIPs)
        invariant requestQueue.totalRequestsAdded == old(requestQueue.totalRequestsAdded)
        invariant requestQueue.totalRequestsRemoved
               == old(requestQueue.totalRequestsRemoved) + (old(|requestQueue.requestQueue|) - |requestQueue.requestQueue|)
        invariant totalRequestsProcessed == old(totalRequestsProcessed)
        decreases maxAttempts - attempts
      {
        ghost var j := ScanFrom(pool, cursor, 0);
        ScanStep(pool, queue, cursor, left);
        ScanIsPick(pool, cursor);
        var requestAssigned := AssignOne(now);
        if !requestAssigned {
          break;
        }
        ghost var k := Slot(cursor, j.value, |pool|);
        ghost var p0, q0, c0, l0 := pool, queue, cursor, left;
        pool, queue, cursor, left := pool[k := Admit(pool[k], queue[0])], queue[1..], Advance(k, |pool|), left - 1;
        DispatchResumes(p0, q0, c0, l0, k, pool, queue, cursor, left);
        attempts := attempts + 1;
      }
    }

    /** One attempt of distributeRequests: the scan over all servers from
        nextServerIndex, modulo the pool size. The first server that can
        accept takes the queue head and the cursor moves just past it; when
        no server can accept, nothing changes. The source pops and assigns
        inside the scan loop and then leaves it; here the scan ends first and
        the assignment follows, which has the same effects in the same order. */
    method AssignOne(now: TimePoint) returns (requestAssigned: bool)
      requires Valid() && |requestQueue.requestQueue| > 0 && |servers| > 0
      modifies this, requestQueue, servers
      ensures Valid() && servers == old(servers)
      ensures var j := ScanFrom(old(Pool()), old(nextServerIndex), 0);
        && requestAssigned == j.Some?
        && (j.None? ==> Pool() == old(Pool()) && requestQueue.requestQueue == old(requestQueue.requestQueue)
                        && nextServerIndex == old(nextServerIndex))
        && (j.Some? ==> var k := Slot(old(nextServerIndex), j.value, |servers|);
                        && Pool() == old(Pool())[k := Admit(old(Pool())[k], old(requestQueue.requestQueue)[0])]
                        && requestQueue.requestQueue == old(requestQueue.requestQueue)[1..]
                        && nextServerIndex == Advance(k, |servers|))
      ensures requestQueue.blockedIPs == old(requestQueue.blockedIPs)
      ensures requestQueue.totalRequestsAdded == old(requestQueue.totalRequestsAdded)
      ensures requestQueue.totalRequestsRemoved
           == old(requestQueue.totalRequestsRemoved) + (if requestAssigned then 1 else 0)
      ensures totalRequestsProcessed == old(totalRequestsProcessed)
    {
      var n := |servers|;
      var scan := ScanServers();
      if scan.None? {
        return false;
      }
      var currentIndex := Slot(nextServerIndex, scan.value, n);
      HandHeadTo(currentIndex, now);
      MoveCursorPast(currentIndex);
      return true;
    }

    /** The cursor moves to the slot after k, wrapping to the first. */
    method MoveCursorPast(k: nat)
      requires Valid() && k < |servers|
      modifies this
      ensures Valid() && servers == old(servers) && Pool() == old(Pool())
      ensures nextServerIndex == Advance(k, |servers|)
      ensures totalRequestsProcessed == old(totalRequestsProcessed)
    {
      nextServerIndex := (k + 1) % |servers|;
      AdvanceWraps(k, |servers|);
    }

    /** The inner loop of distributeRequests: the first offset from
        nextServerIndex, modulo the pool size, whose server can accept a
        request; None when there is none. */
    method ScanServers() returns (found: Option<nat>)
      requires |servers| > 0
      ensures found == ScanFrom(Pool(), nextServerIndex, 0)
      ensures found.Some? ==> CanAccept(Pool()[Slot(nextServerIndex, found.value, |servers|)])
    {
      ghost var P := Pool();
      var n := |servers|;
      var i := 0;
      while i < n && !servers[Slot(nextServerIndex, i, n)].CanAcceptRequest()
        invariant 0 <= i <= n
        invariant ScanFrom(P, nextServerIndex, i) == ScanFrom(P, nextServerIndex, 0)
      {
        i := i + 1;
      }
      if i == n {
        return None;
      }
      assert P[Slot(nextServerIndex, i, n)] == servers[Slot(nextServerIndex, i, n)].State();
      return Some(i);
    }

    /** The body of a successful scan step: the queue head is popped and
        added to server k, which can accept it. */
    method HandHeadTo(k: nat, now: TimePoint)
      requires Valid() && |requestQueue.requestQueue| > 0
      requires k < |servers| && CanAccept(Pool()[k])
      modifies requestQueue, servers[k]
      ensures Valid() && unchanged(this)
      ensures Pool() == old(Pool())[k := Admit(old(Pool())[k], old(requestQueue.requestQueue)[0])]
      ensures requestQueue.requestQueue == old(requestQueue.requestQueue)[1..]
      ensures requestQueue.blockedIPs == old(requestQueue.blockedIPs)
      ensures requestQueue.totalRequestsAdded == old(requestQueue.totalRequestsAdded)
      ensures requestQueue.totalRequestsRemoved == old(requestQueue.totalRequestsRemoved) + 1
    {
      var request := PopHead(now);
      AdmitAt(k, request);
    }

    /** requestQueue->getNextRequest() on a queue known not to be empty. */
    method PopHead(now: TimePoint) returns (request: Request)
      requires Valid() && |requestQueue.requestQueue| > 0
      modifies requestQueue
      ensures Valid()
      ensures request == old(requestQueue.requestQueue)[0]
      ensures requestQueue.requestQueue == old(requestQueue.requestQueue)[1..]
      ensures requestQueue.blockedIPs == old(requestQueue.blockedIPs)
      ensures requestQueue.totalRequestsAdded == old(requestQueue.totalRequestsAdded)
      ensures requestQueue.totalRequestsRemoved == old(requestQueue.totalRequestsRemoved) + 1
    {
      request := requestQueue.GetNextRequest(now);
    }

    /** servers[k]->addRequest(request) for a server that can accept it. */
    method AdmitAt(k: nat, request: Request)
      requires Valid() && k < |servers| && CanAccept(Pool()[k])
      modifies servers[k]
      ensures Valid()
      ensures Pool() == old(Pool())[k := Admit(old(Pool())[k], request)]
    {
      ghost var P := Pool();
      SlottedIsPoolWf(servers);
      var server := servers[k];
      var ok := server.AddRequest(request);
      assert forall j :: 0 <= j < |servers| && j != k ==> servers[j].State() == P[j];
      assert Pool() == P[k := Admit(P[k], request)];
      AdmitKeepsSlots(P, k, request);
      SlottedIsPoolWf(servers);
    }

    method AddRequest(request: Request) returns (added: bool)
      requires Valid()
      modifies requestQueue
      ensures Valid()
      ensures added == (old(request.clientIP !in requestQueue.blockedIPs) && old(|requestQueue.requestQueue|) < DefaultMaxSize)
      ensures requestQueue.requestQueue == if added then old(requestQueue.requestQueue) + [request] else old(requestQueue.requestQueue)
      ensures requestQueue.blockedIPs == old(requestQueue.blockedIPs)
      ensures requestQueue.totalRequestsAdded == old(requestQueue.totalRequestsAdded) + (if added then 1 else 0)
      ensures requestQueue.totalRequestsRemoved == old(requestQueue.totalRequestsRemoved)
    {
      added := requestQueue.AddRequest(request);
    }

    function GetQueueSize(): int
      reads this, requestQueue
    {
      requestQueue.GetSize()
    }

    function GetTotalRequestsProcessed(): int
      reads this
    {
      totalRequestsProcessed
    }

    /** Always 0: the balancer never adds to totalProcessingTime. */
    function GetAverageProcessingTime(): (avg: real)
      reads this, servers, requestQueue
      requires Valid()
      ensures avg == 0.0
    {
      if totalRequestsProcessed == 0 then 0.0
      else totalProcessingTime as real / totalRequestsProcessed as real
    }

    /** The default-sized queue is more than 80 % full exactly when more
        than 800 requests wait. */
    function GetQueueUtilization(): (u: real)
      reads this, requestQueue
      ensures requestQueue.Valid() && requestQueue.maxSize == DefaultMaxSize ==>
        0.0 <= u <= 100.0 && (u > 80.0 <==> |requestQueue.requestQueue| > 800)
    {
      requestQueue.GetUtilization()
    }

    /** Counts the active servers; in a balancer every server is active. */
    method GetActiveServerCount() returns (activeCount: int)
      requires Valid()
      ensures activeCount == ActiveCount(Pool()) == |servers|
    {
      ghost var P := Pool();
      activeCount := 0;
      for i := 0 to |servers|
        invariant activeCount + ActiveCount(P[i..]) == ActiveCount(P)
      {
        assert P[i..][1..] == P[i + 1..];
        if servers[i].isActive {
          activeCount := activeCount + 1;
        }
      }
      assert P[|servers|..] == [];
      SlottedIsPoolWf(servers);
      assert forall k :: 0 <= k < |P| ==> InSlot(P[k], k);
      AllActive(P);
    }

    /** The mean utilization of the active servers, 0 when there are none. */
    method GetSystemUtilization() returns (u: real)
      requires Valid()
      ensures u == SystemUtilization(Pool())
      ensures 0.0 <= u <= 100.0
    {
      if |servers| == 0 {
        return 0.0;
      }
      ghost var P := Pool();
      var totalUtilization := 0.0;
      var activeServers := 0;
      for i := 0 to |servers|
        invariant totalUtilization + UtilizationSum(P[i..]) == UtilizationSum(P)
        invariant activeServers + ActiveCount(P[i..]) == ActiveCount(P)
      {
        assert P[i..][1..] == P[i + 1..];
        if servers[i].isActive {
          totalUtilization := totalUtilization + servers[i].GetUtilization();
          activeServers := activeServers + 1;
        }
      }
      assert P[|servers|..] == [];
      u := if activeServers > 0 then totalUtilization / activeServers as real else 0.0;
      SlottedIsPoolWf(servers);
      PoolWfServing(P);
      assert forall k :: 0 <= k < |P| ==> InSlot(P[k], k);
    }

    method IsOverloaded() returns (overloaded: bool)
      requires Valid()
      ensures overloaded == Overloaded(Pool(), |requestQueue.requestQueue|)
      ensures overloaded ==> (exists k :: 0 <= k < |servers| && servers[k].currentLoad == PoolCapacity)
                             || |requestQueue.requestQueue| > 800
    {
      var systemUtilization := GetSystemUtilization();
      overloaded := systemUtilization > 90.0 || GetQueueUtilization() > 80.0;
      if overloaded {
        SlottedIsPoolWf(servers);
        OverloadedMeansFullServerOrLongQueue(Pool(), |requestQueue.requestQueue|);
      }
    }

    method BlockIP(ip: string)
      requires Valid()
      modifies requestQueue
      ensures Valid() && ip in requestQueue.blockedIPs
      ensures requestQueue.blockedIPs == if old(ip in requestQueue.blockedIPs) then old(requestQueue.blockedIPs)
                                         else old(requestQueue.blockedIPs) + [ip]
      ensures requestQueue.requestQueue == old(requestQueue.requestQueue)
      ensures requestQueue.totalRequestsAdded == old(requestQueue.totalRequestsAdded)
      ensures requestQueue.totalRequestsRemoved == old(requestQueue.totalRequestsRemoved)
    {
      requestQueue.BlockIP(ip);
    }

    method UnblockIP(ip: string)
      requires Valid()
      modifies requestQueue
      ensures Valid() && ip !in requestQueue.blockedIPs
      ensures requestQueue.blockedIPs == Without(old(requestQueue.blockedIPs), ip)
      ensures forall y :: y != ip ==> (y in requestQueue.blockedIPs <==> y in old(requestQueue.blockedIPs))
      ensures requestQueue.requestQueue == old(requestQueue.requestQueue)
      ensures requestQueue.totalRequestsAdded == old(requestQueue.totalRequestsAdded)
      ensures requestQueue.totalRequestsRemoved == old(requestQueue.totalRequestsRemoved)
    {
      requestQueue.UnblockIP(ip);
    }
  }

  /** A pool whose servers are all active counts all of them. */
  lemma {:induction false} AllActive(pool: seq<Server>)
    requires forall k :: 0 <= k < |pool| ==> pool[k].isActive
    ensures ActiveCount(pool) == |pool|
  {
    if pool != [] {
      AllActive(pool[1..]);
    }
  }
}
