/** A bounded worker: a FIFO of resident requests that loses one unit of cost
    per cycle. The datatype `Server` is a server as a value and the functions
    over it say what each operation does; the class `WebServer` holds the same
    state in mutable fields and its methods are proved against those functions. */
module Servers {
  import opened Requests

  /** Capacity given by the default constructor. */
  const DefaultCapacity: int := 10

  datatype Server = Server(
    serverID: int,
    serverIP: string,
    maxCapacity: int,           // maximum number of concurrent requests
    currentLoad: int,           // number of resident requests
    requestQueue: seq<Request>, // resident requests, oldest first
    isActive: bool,
    totalRequestsProcessed: int,
    totalProcessingTime: int)

  /** The state kept by every operation: the load counts the resident
      requests, and admission never takes it past a non-negative capacity. */
  predicate Wf(s: Server)
  {
    s.currentLoad == |s.requestQueue| && (s.currentLoad == 0 || s.currentLoad <= s.maxCapacity)
  }

  /** The state both constructors produce. */
  function FreshServer(id: int, ip: string, capacity: int): Server
  {
    Server(id, ip, capacity, 0, [], true, 0, 0)
  }

  /** canAcceptRequest. */
  predicate CanAccept(s: Server)
  {
    s.isActive && s.currentLoad < s.maxCapacity
  }

  /** The server after addRequest(r). The request is refused, and nothing
      changes, exactly when canAcceptRequest does not hold; otherwise it joins
      the back of the FIFO. */
  function Admit(s: Server, r: Request): (t: Server)
    ensures (t != s) == CanAccept(s)
    ensures CanAccept(s) ==> t.requestQueue == s.requestQueue + [r] && t.currentLoad == s.currentLoad + 1
    ensures Wf(s) ==> Wf(t)
  {
    if !s.isActive || s.currentLoad >= s.maxCapacity then s
    else s.(requestQueue := s.requestQueue + [r], currentLoad := s.currentLoad + 1)
  }

  /** A request leaves the server in the cycle in which its cost, less the
      unit of that cycle, is no longer positive. */
  predicate Retires(r: Request)
  {
    r.processingTime - 1 <= 0
  }

  /** The FIFO after one pass of processCycle: retiring requests are dropped,
      the others carry their reduced cost, in their original order. */
  function Survivors(q: seq<Request>): (s: seq<Request>)
    ensures |s| <= |q|
  {
    if q == [] then []
    else if Retires(q[0]) then Survivors(q[1..])
    else [WithProcessingTime(q[0], q[0].processingTime - 1)] + Survivors(q[1..])
  }

  /** How many requests of `q` retire in one pass. */
  function RetiredCount(q: seq<Request>): nat
  {
    if q == [] then 0
    else (if Retires(q[0]) then 1 else 0) + RetiredCount(q[1..])
  }

  /** What one pass adds to totalProcessingTime: the cost each retiring
      request still had when the pass reached it. */
  function RetiredTime(q: seq<Request>): int
  {
    if q == [] then 0
    else (if Retires(q[0]) then q[0].processingTime else 0) + RetiredTime(q[1..])
  }

  /** Reference definitions: the requests that do not retire, and a whole
      sequence with one unit taken off every cost. */
  function Pending(q: seq<Request>): seq<Request>
  {
    if q == [] then []
    else (if Retires(q[0]) then [] else [q[0]]) + Pending(q[1..])
  }

  function Decremented(q: seq<Request>): seq<Request>
  {
    seq(|q|, i requires 0 <= i < |q| => WithProcessingTime(q[i], q[i].processingTime - 1))
  }

  /** The survivors are exactly the non-retiring requests, in their original
      relative order, each with its cost reduced by one. */
  lemma {:induction false} SurvivorsAreDecrementedPending(q: seq<Request>)
    ensures Survivors(q) == Decremented(Pending(q))
  {
    if q != [] {
      SurvivorsAreDecrementedPending(q[1..]);
      var rest := Decremented(Pending(q[1..]));
      if !Retires(q[0]) {
        var d := Decremented([q[0]] + Pending(q[1..]));
        assert d == [WithProcessingTime(q[0], q[0].processingTime - 1)] + rest;
      }
    }
  }

  /** Every resident request either survives or retires: the load falls by
      exactly the number retired. */
  lemma {:induction false} SurvivorsCount(q: seq<Request>)
    ensures |Survivors(q)| + RetiredCount(q) == |q|
  {
    if q != [] {
      SurvivorsCount(q[1..]);
    }
  }

  /** For requests created with a positive cost, each retirement adds exactly 1
      to totalProcessingTime (the last unit), not the request's original cost. */
  lemma {:induction false} RetiredTimeOfPositiveCosts(q: seq<Request>)
    requires forall i :: 0 <= i < |q| ==> q[i].processingTime >= 1
    ensures RetiredTime(q) == RetiredCount(q)
  {
    if q != [] {
      RetiredTimeOfPositiveCosts(q[1..]);
    }
  }

  /** The number processCycle returns. */
  function Completed(s: Server): (n: nat)
    ensures n <= |s.requestQueue|
    ensures !s.isActive ==> n == 0
  {
    if !s.isActive || s.requestQueue == [] then 0
    else SurvivorsCount(s.requestQueue); RetiredCount(s.requestQueue)
  }

  /** The server after processCycle. An inactive or idle server is untouched.
      Otherwise the FIFO becomes its survivors, and the count returned is both
      the rise in totalRequestsProcessed and the fall in currentLoad. */
  function Cycle(s: Server): (t: Server)
    ensures t.serverID == s.serverID && t.serverIP == s.serverIP
    ensures t.maxCapacity == s.maxCapacity && t.isActive == s.isActive
    ensures t.totalRequestsProcessed == s.totalRequestsProcessed + Completed(s)
    ensures Wf(s) ==> Wf(t) && t.currentLoad == s.currentLoad - Completed(s)
    ensures (!s.isActive || s.requestQueue == []) ==> t == s
  {
    if !s.isActive || s.requestQueue == [] then s
    else
      var q := s.requestQueue;
      SurvivorsCount(q);
      s.(requestQueue := Survivors(q),
         currentLoad := s.currentLoad - RetiredCount(q),
         totalRequestsProcessed := s.totalRequestsProcessed + RetiredCount(q),
         totalProcessingTime := s.totalProcessingTime + RetiredTime(q))
  }

  /** The server after k calls of processCycle. */
  function CycleN(s: Server, k: nat): Server
  {
    if k == 0 then s else Cycle(CycleN(s, k - 1))
  }

  /** A request alone on an active server loses one unit of cost per call and
      retires on call number max(p, 1), where p is its cost: before the k-th
      call (k counted from 0) it still has cost p - k, and that call completes
      it exactly when k >= p - 1. */
  lemma {:induction false} SoleRequestLifetime(s: Server, r: Request, k: nat)
    requires s.isActive && s.requestQueue == [r]
    requires k == 0 || k < r.processingTime
    ensures CycleN(s, k).isActive
    ensures CycleN(s, k).requestQueue == [WithProcessingTime(r, r.processingTime - k)]
    ensures Completed(CycleN(s, k)) == (if k >= r.processingTime - 1 then 1 else 0)
  {
    if k > 0 {
      SoleRequestLifetime(s, r, k - 1);
      var before := CycleN(s, k - 1);
      var r' := WithProcessingTime(r, r.processingTime - (k - 1));
      assert !Retires(r');
      assert Survivors(before.requestQueue) == [WithProcessingTime(r', r'.processingTime - 1)] + Survivors([]);
    }
    var q := CycleN(s, k).requestQueue;
    assert RetiredCount(q) == (if Retires(q[0]) then 1 else 0) + RetiredCount(q[1..]);
  }

  /** getUtilization: a percentage, with a guard against a zero capacity. */
  function Utilization(s: Server): (u: real)
    ensures Wf(s) && s.maxCapacity > 0 ==> 0.0 <= u <= 100.0
    ensures s.maxCapacity > 0 ==> (u == 100.0 <==> s.currentLoad == s.maxCapacity)
  {
    if s.maxCapacity == 0 then 0.0
    else (s.currentLoad as real / s.maxCapacity as real) * 100.0
  }

  /** The server object: the fields of WebServer.h, updated in place. */
  class WebServer {
    const serverID: int
    const serverIP: string
    const maxCapacity: int
    var currentLoad: int
    var requestQueue: seq<Request>
    var isActive: bool
    var totalRequestsProcessed: int
    var totalProcessingTime: int

    /** The server as a value. */
    function State(): Server
      reads this
    {
      Server(serverID, serverIP, maxCapacity, currentLoad, requestQueue, isActive,
             totalRequestsProcessed, totalProcessingTime)
    }

    ghost predicate Valid()
      reads this
    {
      Wf(State())
    }

    constructor ()
      ensures Valid() && State() == FreshServer(0, "0.0.0.0", DefaultCapacity)
    {
      serverID, serverIP, maxCapacity := 0, "0.0.0.0", DefaultCapacity;
      currentLoad, requestQueue, isActive := 0, [], true;
      totalRequestsProcessed, totalProcessingTime := 0, 0;
    }

    constructor WithIdentity(id: int, ip: string, capacity: int)
      ensures Valid() && State() == FreshServer(id, ip, capacity)
    {
      serverID, serverIP, maxCapacity := id, ip, capacity;
      currentLoad, requestQueue, isActive := 0, [], true;
      totalRequestsProcessed, totalProcessingTime := 0, 0;
    }

    method SetIsActive(active: bool)
      requires Valid()
      modifies this
      ensures Valid() && State() == old(State()).(isActive := active)
    {
      isActive := active;
    }

    function CanAcceptRequest(): bool
      reads this
    {
      CanAccept(State())
    }

    function GetUtilization(): real
      reads this
    {
      Utilization(State())
    }

    method AddRequest(request: Request) returns (added: bool)
      requires Valid()
      modifies this
      ensures Valid()
      ensures added == old(CanAccept(State()))
      ensures State() == Admit(old(State()), request)
    {
      if !isActive || currentLoad >= maxCapacity {
        return false;
      }
      requestQueue := requestQueue + [request];
      currentLoad := currentLoad + 1;
      return true;
    }

    /** One clock cycle: the resident FIFO is drained front to back into a
        scratch FIFO of survivors, which then replaces it. */
    method ProcessCycle() returns (completedRequests: int)
      requires Valid()
      modifies this
      ensures Valid()
      ensures completedRequests == Completed(old(State()))
      ensures State() == Cycle(old(State()))
    {
      if !isActive || |requestQueue| == 0 {
        return 0;
      }
      completedRequests := 0;
      var tempQueue: seq<Request> := [];
      ghost var q0 := requestQueue;
      while |requestQueue| > 0
        invariant tempQueue + Survivors(requestQueue) == Survivors(q0)
        invariant completedRequests + RetiredCount(requestQueue) == RetiredCount(q0)
        invariant totalRequestsProcessed + RetiredCount(requestQueue) == old(totalRequestsProcessed) + RetiredCount(q0)
        invariant totalProcessingTime + RetiredTime(requestQueue) == old(totalProcessingTime) + RetiredTime(q0)
        invariant currentLoad + RetiredCount(q0) == old(currentLoad) + RetiredCount(requestQueue)
        invariant isActive == old(isActive)
        decreases |requestQueue|
      {
        var currentRequest := requestQueue[0];
        requestQueue := requestQueue[1..];
        var remainingTime := currentRequest.processingTime - 1;
        if remainingTime <= 0 {
          completedRequests := completedRequests + 1;
          totalRequestsProcessed := totalRequestsProcessed + 1;
          totalProcessingTime := totalProcessingTime + currentRequest.processingTime;
          currentLoad := currentLoad - 1;
        } else {
          currentRequest := WithProcessingTime(currentRequest, remainingTime);
          tempQueue := tempQueue + [currentRequest];
        }
      }
      requestQueue := tempQueue;
      SurvivorsCount(q0);
    }
  }
}
