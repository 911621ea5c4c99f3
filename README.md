# Load balancer simulation, modelled in Dafny

This project models a discrete-time simulation of a web load balancer. The
system has four parts:

- **Request** is a record of work: a client IP, a type, a priority, a
  remaining processing time in clock cycles, an arrival time and an ID.
- **WebServer** is a bounded worker. It holds a FIFO of resident requests and
  a load counter. Each clock cycle takes one unit of cost off every resident
  request and retires the requests whose cost runs out.
- **RequestQueue** is the bounded admission FIFO (1000 places by default). A
  list of blocked client addresses guards it.
- **LoadBalancer** owns a pool of servers and one admission queue. Each cycle
  it does three things in order:
  1. It advances every active server.
  2. It distributes queued requests round-robin, with a budget of two
     attempts per server.
  3. It applies a one-step scale-up/scale-down rule.

Each entity takes the form it has in the program:

- `Request` is a datatype. Its one mutator, `setProcessingTime`, is a
  functional update.
- `WebServer`, `RequestQueue` and `LoadBalancer` are classes with the
  program's fields, updated in place. Their methods carry `modifies` clauses.
- The methods that change a server or the pool are proved against
  functions on values:
  - `Servers.Admit` and `Servers.Cycle` for a server;
  - `Pool.Dispatch`, `Pool.AdvanceAll`, `Pool.Scale` and `Pool.BalancerCycle`
    for the balancer.
- The methods of the admission queue, and the balancer's `AddRequest`,
  `BlockIP` and `UnblockIP`, state their new fields directly: the new queue,
  block-list and counters as expressions of the old ones.
- The balancer never clears its queue, so its invariant includes the queue's
  accounting: requests added == requests removed + requests waiting. Every
  balancer method that touches the queue states how each counter moves.
- What the balancer guarantees is stated as lemmas about those functions:
  - conservation of requests through distribution;
  - FIFO order out of the admission queue;
  - round-robin order;
  - the attempt budget;
  - pool-size bounds;
  - the overload criterion.

Files:

- `Request.dfy` (module `Requests`)
- `WebServer.dfy` (module `Servers`)
- `RequestQueue.dfy` (module `Queues`)
- `Pool.dfy` (module `Pool`): the balancer's policy on values
- `LoadBalancer.dfy` (module `Balancer`): the balancer object
- `Arithmetic.dfy`: percentage and modulus facts

Three behaviours of the code are easy to get wrong, and the model keeps
them as written:

- **Distribution budget.** One cycle's distribution makes at most
  `2 * |servers|` attempts (LoadBalancer.cpp:122-147). So two empty servers
  of capacity 5 facing ten queued requests take only four of them in a
  cycle, not ten. `Pool.BudgetLimitsDispatch` states this case.
- **Cursor range.** After `removeServer` the round-robin cursor can be at
  or past the pool size. The code reads it only modulo the size
  (LoadBalancer.cpp:126-136), so the model's cursor is an unbounded `nat`.
- **Minimum pool size.** The parameterised constructor never checks
  `minServers` (LoadBalancer.cpp:33-41). So the model keeps only
  `|servers| <= maxServers` as an invariant (when the pool is not empty).

The clock is a parameter. Both request constructors stamp the arrival time
with `steady_clock::now()` (Request.cpp:18, 31). In the model, the caller
passes that reading in: `now: TimePoint` for the default request, and the
`arrivalTime` argument of the datatype's constructor for the parameterised
one.

## Model

| member | source | states |
|---|---|---|
| Requests.DefaultRequest | Request.cpp:17-19 | the default request is "0.0.0.0", "GET", priority 5, cost 10, ID 0, stamped with the clock reading given |
| Requests.WithProcessingTime | Request.cpp:86-88 | setProcessingTime changes the cost and no other field; setting the same cost changes nothing |
| Servers.Admit | WebServer.cpp:120-128 | addRequest changes the server exactly when canAcceptRequest holds; then the request joins the back of the FIFO and the load rises by one; consistency (load equals FIFO length and never passes capacity) is kept |
| Servers.Survivors | WebServer.cpp:143-164 | one pass never lengthens the FIFO |
| Servers.SurvivorsAreDecrementedPending | WebServer.cpp:143-164 | the FIFO after a cycle is exactly the non-retiring requests, in their original order, each with one unit of cost taken off |
| Servers.SurvivorsCount | WebServer.cpp:143-160 | every resident request either survives or retires, so the load falls by exactly the number retired |
| Servers.RetiredTimeOfPositiveCosts | WebServer.cpp:148-154 | totalProcessingTime grows by the pre-decrement cost of each retired request, which is 1 for a request created with a positive cost |
| Servers.Completed | WebServer.cpp:134-167 | the count processCycle returns is at most the number of resident requests, and 0 for an inactive server |
| Servers.Cycle | WebServer.cpp:134-167 | processCycle keeps the identity, capacity and active flag; totalRequestsProcessed rises and the load falls by the completed count; consistency is kept; an inactive or idle server is unchanged |
| Servers.SoleRequestLifetime | WebServer.cpp:148-159 | a request alone on an active server loses one unit of cost per cycle and retires on exactly its p-th cycle (its first if p <= 1) |
| Servers.Utilization | WebServer.cpp:181-184 | utilization is a percentage in [0, 100] for a consistent server, and it is 100 exactly when the server is full |
| Servers.WebServer.constructor | WebServer.cpp:17-20 | the default server has ID 0, IP "0.0.0.0", capacity 10, no load, is active and has zero counters |
| Servers.WebServer.WithIdentity | WebServer.cpp:28-31 | the parameterised server has the given identity and capacity, no load, is active and has zero counters |
| Servers.WebServer.SetIsActive | WebServer.cpp:111-113 | only the active flag changes |
| Servers.WebServer.AddRequest | WebServer.cpp:120-128 | the result is canAcceptRequest before the call, and the new state is Admit of the old one |
| Servers.WebServer.ProcessCycle | WebServer.cpp:134-167 | the drain-and-rebuild loop leaves the state Cycle of the old one and returns the completed count |
| Queues.Find | RequestQueue.cpp:152 | std::find returns the first index holding the address, or the end when it is absent |
| Queues.Without | RequestQueue.cpp:151-156 | erasing a present address shortens the list by one; erasing an absent one changes nothing |
| Queues.WithoutAt | RequestQueue.cpp:152-155 | erasing at the index std::find reports is erasing the first occurrence |
| Queues.WithoutRemoves | RequestQueue.cpp:141-156 | on a duplicate-free block-list, unblocking removes the address entirely, keeps every other address and keeps the list duplicate-free |
| Queues.QueueUtilization | RequestQueue.cpp:162-165 | queue utilization is a percentage in [0, 100] while the size is within bounds; above 80 % means five times the size exceeds four times the capacity |
| Queues.NoDuplicatesCount | RequestQueue.cpp:141-145 | a block-list kept duplicate-free by blockIP holds each address at most once |
| Queues.RequestQueue.IsEmpty | RequestQueue.cpp:75-77 | a queue with non-zero capacity is empty exactly when its utilization is 0; a queue of non-positive capacity is always empty |
| Queues.RequestQueue.IsFull | RequestQueue.cpp:83-85 | the `size >= maxSize` test means being exactly at capacity, since the size never passes a non-negative maxSize |
| Queues.RequestQueue.IsIPBlocked | RequestQueue.cpp:133-135 | a blocked address is listed exactly once; an unblocked one not at all |
| Queues.RequestQueue.GetUtilization | RequestQueue.cpp:162-165 | the queue's utilization lies in [0, 100], and it is above 80 % exactly when five times the size exceeds four times the capacity |
| Queues.RequestQueue.constructor | RequestQueue.cpp:17-18 | the default queue is empty, holds 1000, blocks nobody and has zero counters, so added == removed + size holds |
| Queues.RequestQueue.WithMaxSize | RequestQueue.cpp:24-26 | the same, with the capacity given |
| Queues.RequestQueue.AddRequest | RequestQueue.cpp:40-54 | a request is admitted exactly when its address is not blocked and the queue is below capacity (the blocked check wins even when there is room); an admitted request joins the back and totalRequestsAdded rises by one; a refusal changes nothing; added == removed + size is kept |
| Queues.RequestQueue.GetNextRequest | RequestQueue.cpp:60-69 | on a non-empty queue it returns and removes the front and counts it as removed; on an empty queue it returns the default request and changes nothing; added == removed + size is kept |
| Queues.RequestQueue.Clear | RequestQueue.cpp:122-126 | clear empties the queue without touching the counters, so it breaks added == removed + size whenever requests were queued |
| Queues.RequestQueue.BlockIP | RequestQueue.cpp:141-145 | afterwards the address is blocked; it is appended only if it was not already blocked, so the list stays duplicate-free; queued requests are untouched |
| Queues.RequestQueue.UnblockIP | RequestQueue.cpp:151-156 | the new block-list is Without of the old one, so the address is no longer blocked and every other address keeps its status; queued requests and the counters are untouched |
| Pool.NatToStringDigits | LoadBalancer.cpp:60 | std::to_string of an ID is a non-empty string of decimal digits |
| Pool.NatToStringRoundTrip | LoadBalancer.cpp:60 | reading those digits back gives the ID again |
| Pool.ServerIPHostPart | LoadBalancer.cpp:59-60 | a new server's address is "192.168.1." followed by its ID in decimal |
| Pool.ServerIPInjective | LoadBalancer.cpp:59-60 | servers with different IDs get different addresses |
| Pool.FreshPool | LoadBalancer.cpp:38-40 | a pool built by n calls of addServer holds n servers |
| Pool.AppendKeepsSlots | LoadBalancer.cpp:54-64 | addServer's new server, with ID n+1, IP "192.168.1.<n+1>" and capacity 5, keeps IDs 1..n in slot order |
| Pool.FreshPoolWf | LoadBalancer.cpp:33-41 | every server of a freshly built pool is active, empty, of capacity 5 and sits in the slot its ID names |
| Pool.AdmitResidents | LoadBalancer.cpp:134-135 | handing a request to an accepting server adds exactly that request to the pool's residents |
| Pool.AdmitLoad | LoadBalancer.cpp:134-135 | handing a request to an accepting server adds one to the total load |
| Pool.ScanFrom | LoadBalancer.cpp:130-133 | the inner scan returns an offset within the pool, or none |
| Pool.ScanFromFirst | LoadBalancer.cpp:130-141 | the scan returns the first offset from the cursor whose server accepts; no earlier offset accepts; none means no offset accepts |
| Pool.ScanFindsAnyAcceptor | LoadBalancer.cpp:130-145 | a full scan finds nobody exactly when no server of the pool can accept |
| Pool.Pick | LoadBalancer.cpp:126-141 | the server picked from the cursor is in the pool and can accept |
| Pool.Advance | LoadBalancer.cpp:136 | the new cursor is a valid slot |
| Pool.AdvanceWraps | LoadBalancer.cpp:136 | the new cursor is (served index + 1) mod pool size |
| Pool.ScanIsPick | LoadBalancer.cpp:126-141 | the source's modular scan from the cursor picks the same server as the reference definition Pick (first acceptor from the cursor to the end, then from the front) |
| Pool.PickNone | LoadBalancer.cpp:143-145 | the pick fails exactly when no server can accept |
| Pool.PickAt | LoadBalancer.cpp:130-133 | when the cursor's own server can accept, it is the one picked |
| Pool.Dispatch | LoadBalancer.cpp:116-149 | distribution never changes the pool size and never lengthens the queue |
| Pool.DispatchStep | LoadBalancer.cpp:124-147 | one attempt hands the queue head to the picked server, which can accept, moves the cursor past it and uses up one attempt |
| Pool.ScanStep | LoadBalancer.cpp:126-145 | one attempt in the source's terms: a scan that finds nobody ends the distribution; one that finds offset j serves the slot j places after the cursor |
| Pool.AdmitKeepsSlots | LoadBalancer.cpp:133-135 | handing a request to one server keeps every server in its slot |
| Pool.CycleKeepsSlots | LoadBalancer.cpp:97-101 | one server's cycle keeps every server in its slot |
| Pool.DispatchConserves | LoadBalancer.cpp:116-149 | no request is lost or duplicated: the multiset of residents plus queued requests is the same before and after |
| Pool.DispatchTakesHead | LoadBalancer.cpp:124-147 | distribution takes requests from the head of the admission queue, at most one per attempt, so what is left is a suffix of the queue in its original order |
| Pool.DispatchLoad | LoadBalancer.cpp:116-149 | the queue shrinks by exactly the rise in total load |
| Pool.DispatchExtends | LoadBalancer.cpp:116-149 | distribution only appends to servers' FIFOs and raises their loads; every other field is unchanged and consistency is kept |
| Pool.DispatchKeepsSlots | LoadBalancer.cpp:116-149 | distribution keeps every server in its slot |
| Pool.DispatchCount | LoadBalancer.cpp:116-149 | distribution moves exactly min(queue length, 2 * |servers|, free places) requests |
| Pool.DispatchStopsOnlyWhenNobodyAccepts | LoadBalancer.cpp:143-145 | distribution stops with requests still waiting and attempts to spare only when every server is full |
| Pool.AssignedAt | LoadBalancer.cpp:126-136 | within a round, offset o from the cursor receives the o-th request, and the other servers are untouched |
| Pool.RoundRobinStep | LoadBalancer.cpp:126-136 | when every server accepts, step t of a round serves the slot t places after the cursor |
| Pool.RoundRobinFrom | LoadBalancer.cpp:124-147 | when every server accepts, the rest of a round from step t on serves the remaining offsets in order and empties the queue |
| Pool.RoundRobin | LoadBalancer.cpp:116-149 | with as many queued requests as servers, all accepting, each server receives exactly one request, in cyclic order from the cursor; the queue empties and the cursor returns to where it started |
| Pool.BudgetLimitsDispatch | LoadBalancer.cpp:122-147 | two empty servers of capacity 5 facing ten queued requests take only four, leaving six queued |
| Pool.AdvanceAllSkipsInactive | LoadBalancer.cpp:97-101 | the server loop (`Pool.AdvanceAll`) keeps every server's identity, capacity and status, and leaves an inactive server exactly as it was |
| Pool.AdvanceAllConserves | LoadBalancer.cpp:97-101 | advancing every server lowers the total load by exactly the sum of completions, and keeps every server in its slot |
| Pool.ActiveCount | LoadBalancer.cpp:177-185 | the number of active servers is at most the pool size |
| Pool.UtilizationSum | LoadBalancer.cpp:214-219 | the summed utilization lies between 0 and 100 times the number of active servers |
| Pool.SystemUtilization | LoadBalancer.cpp:208-223 | system utilization, the mean over active servers (0 when there are none), lies in [0, 100] |
| Pool.SomeServerAboveMean | LoadBalancer.cpp:208-223 | a mean utilization above 90 means some active server is above 90 |
| Pool.Overloaded | LoadBalancer.cpp:282-284 | a balancer is overloaded exactly when mean server utilization is above 90 or more than 800 requests wait in its queue of 1000 |
| Pool.OverloadedMeansFullServerOrLongQueue | LoadBalancer.cpp:282-284 | an overloaded balancer has a server at its full capacity of 5 or more than 800 waiting requests |
| Pool.Scale | LoadBalancer.cpp:154-171 | checkLoadBalancing leaves an empty pool alone and moves the size by at most one; a new server is the next one addServer would make; otherwise the pool is a prefix of the old one |
| Pool.ScaleStepsByAtMostOne | LoadBalancer.cpp:154-171 | scaling grows the pool exactly when the scale-up rule fires and shrinks it exactly when the scale-down rule fires; the size moves by at most one; kept servers are untouched; once inside [minServers, maxServers] the pool stays there |
| Pool.ScaleKeepsSlots | LoadBalancer.cpp:154-171 | scaling keeps every server in its slot |
| Pool.ScaleLoad | LoadBalancer.cpp:70-78 | scaling never adds load; removing the last server loses exactly the load it still held |
| Pool.BalancerCycle | LoadBalancer.cpp:93-111 | one balancer cycle takes at most 2 * |servers| requests from the head of the queue, leaving the rest in order, and moves the pool size by at most one |
| Pool.BalancerCycleAccounts | LoadBalancer.cpp:93-111 | a whole cycle keeps every server in its slot; resident + queued + completed never exceeds what was resident and queued before, with equality unless scaling drops a server |
| Balancer.LoadBalancer.constructor | LoadBalancer.cpp:19-24 | the default balancer has limits 20/1, threshold 0.8, an empty default queue with zero counters, cursor and total 0, and one fresh server |
| Balancer.LoadBalancer.Configured | LoadBalancer.cpp:33-41 | the parameterised balancer keeps the limits given and starts with min(initialServers, maxServers) fresh servers (none if either is <= 0), with no check against minServers; the queue is empty with zero counters |
| Balancer.LoadBalancer.AddServer | LoadBalancer.cpp:54-64 | a server is added exactly when the pool is below its maximum; it joins at the end with the next ID, its IP and capacity 5; the pool invariant is kept |
| Balancer.LoadBalancer.RemoveServer | LoadBalancer.cpp:70-78 | a server is removed exactly when the pool is above its minimum; only the last one goes, with whatever it held |
| Balancer.LoadBalancer.AddRequest | LoadBalancer.cpp:85-87 | admission is exactly the queue's: the address is not blocked and the default-sized queue is below 1000; an admitted request joins the back and raises the queue's added count by one; the removed count stays |
| Balancer.LoadBalancer.ProcessCycle | LoadBalancer.cpp:93-111 | the new pool, queue and cursor are the value-level BalancerCycle of the old ones; the result is the sum of server completions, added to the running total; the block-list and the queue's added count are unchanged, and its removed count rises by the number of requests that left the queue, so added == removed + size still holds |
| Balancer.LoadBalancer.AdvanceServers | LoadBalancer.cpp:96-101 | the first loop of processCycle advances every server as AdvanceAll does and returns the sum of their completions |
| Balancer.LoadBalancer.AdvanceOne | LoadBalancer.cpp:98-100 | one step of that loop cycles server i if it is active and leaves every other server as it was |
| Balancer.LoadBalancer.DistributeRequests | LoadBalancer.cpp:116-149 | the attempt loop leaves pool, queue and cursor as Dispatch with a budget of 2 * |servers| does; each request taken from the queue raises its removed count by one, and the added count stays |
| Balancer.LoadBalancer.AssignOne | LoadBalancer.cpp:126-145 | one attempt reports success exactly when the scan finds an acceptor; the queue head goes to that server, the queue loses its head, its removed count rises by one and the cursor moves past it; otherwise nothing changes; the added count always stays |
| Balancer.LoadBalancer.MoveCursorPast | LoadBalancer.cpp:136 | the cursor becomes the slot after the served one, wrapping to 0 |
| Balancer.LoadBalancer.ScanServers | LoadBalancer.cpp:130-133 | the inner loop finds the first offset whose server can accept, as ScanFrom defines it |
| Balancer.LoadBalancer.HandHeadTo | LoadBalancer.cpp:133-135 | the queue head is popped, which raises the removed count by one, and added to the chosen server |
| Balancer.LoadBalancer.PopHead | LoadBalancer.cpp:134 | getNextRequest on a non-empty queue yields its front and raises the removed count by one; the added count stays |
| Balancer.LoadBalancer.AdmitAt | LoadBalancer.cpp:135 | an accepting server takes the request; the other servers are untouched |
| Balancer.LoadBalancer.CheckLoadBalancing | LoadBalancer.cpp:154-171 | the pool becomes Scale of the old pool, measured against the current queue length |
| Balancer.LoadBalancer.GetQueueUtilization | LoadBalancer.cpp:229-231 | the balancer's default-sized queue reports a utilization in [0, 100], above 80 exactly when more than 800 requests wait |
| Balancer.LoadBalancer.GetAverageProcessingTime | LoadBalancer.cpp:199-202 | the result is always 0, since the balancer's totalProcessingTime is never updated |
| Balancer.LoadBalancer.GetActiveServerCount | LoadBalancer.cpp:177-185 | the counting loop returns the number of active servers, which is the whole pool |
| Balancer.LoadBalancer.GetSystemUtilization | LoadBalancer.cpp:208-223 | the averaging loop returns SystemUtilization of the pool, a value in [0, 100] |
| Balancer.LoadBalancer.IsOverloaded | LoadBalancer.cpp:282-284 | the result is utilization above 90 or queue utilization above 80, and then some server is full or more than 800 requests wait |
| Balancer.LoadBalancer.BlockIP | LoadBalancer.cpp:258-260 | afterwards the address is blocked at the queue; it is appended only if it was not already blocked, so every other address keeps its status; queued requests and the queue's counters are untouched |
| Balancer.LoadBalancer.UnblockIP | LoadBalancer.cpp:266-268 | the new block-list is the old one with the first occurrence std::find reports erased (Without), so the address is no longer blocked and every other address keeps its status; queued requests and the queue's counters are untouched |
| Balancer.AllActive | LoadBalancer.cpp:177-185 | a pool whose servers are all active counts all of them (no balancer code path deactivates a server) |

## Left out

- main.cpp: random workload generation, console input, file logging and sleeps are I/O, randomness and timing.
- Destructors: they only release memory.
- LoadBalancer::getServerStats: it is string formatting with stream precision, which is presentation only.
- Request::getWaitTime: it reads the steady clock. Arrival times are caller-supplied `TimePoint`s that no operation reads.
- RequestQueue::getAverageWaitTime: it is a placeholder (removed count times 10.0) that nothing calls.
- WebServer::getAverageProcessingTime: it is a floating-point division of two counters, and nothing in the core calls it.
- Getters that return a stored field: they are field reads of the datatype or the classes.
- Servers.WebServer.CanAcceptRequest and Servers.WebServer.GetUtilization: they carry no contract of their own. They return `CanAccept` and `Utilization` of the state, whose properties are proved there.
- IEEE-754 rounding: utilizations and the threshold are exact `real`s, so results exactly at a boundary may differ from the doubles.
- C++ `int` overflow of counters and loads: Dafny's integers are unbounded.
- Priority ordering: the queue's class comment claims it, but the code never implements it. Requests leave in arrival order.
- Balancer.LoadBalancer.RemoveServer: requires a non-empty pool when `minServers` is negative. The code would call `pop_back` on an empty vector there, which is undefined behaviour.
- Balancer.LoadBalancer.AssignOne: the code pops and assigns inside its scan loop and then breaks. The model first ends the scan (ScanServers), then pops and assigns. The effects and their order are the same.
- Pool.SomeServerAboveMean: stated for the one bound the overload rule uses (90), not for an arbitrary bound.
- Exclusive ownership through `unique_ptr`: the model requires only that the balancer's server objects are distinct from one another. It does not state that no other object refers to them. A removed server's resident requests are discarded, as in the code.
